/** boot_map_region (kern/pmap.c:466-479) and the hardware's view of the mappings above UTOP. */
module KernelMappings {
  import opened Mmu
  import opened Pmap
  import opened Ownership
  import opened PrimitiveSteps
  import opened PageOps

  /** `count` rounds of boot_map_region: virtual pages v, v+1, ... to frames pfn, pfn+1, ... */
  function BootMapRegion(m: Phys, d: nat, v: nat, count: nat, pfn: nat, perm: bv12): (r: Phys)
    requires Shape(m) && d < |m.pages| && v + count <= NPTENTRIES * NPTENTRIES
    ensures Shape(r) && |r.pages| == |m.pages|
    decreases count
  {
    if count == 0 || !m.ok then m
    else
      var (m1, pt) := PgdirWalk(m, d, v / NPTENTRIES, true);
      if pt.Null? then Panic(m1)
      else BootMapRegion(Write(m1, pt.page, v % NPTENTRIES, Word(pfn, perm | PTE_P)), d, v + 1, count - 1, pfn + 1, perm)
  }

  /** The kernel part of the address space, which boot_map_region fills; the UVPT slot is taken. */
  ghost predicate KernelPage(v: nat) { UTOPX <= v / NPTENTRIES < NPTENTRIES && v / NPTENTRIES != UVPTX }

  lemma PutKernelPteStructure(f: seq<Frame>, l: Layout, t: nat, j: nat, e: Word)
    requires Structure(f, l) && t in l.tables && !UserTable(l, t) && j < NPTENTRIES && !UserWritable(e)
    ensures Structure(Put(f, t, j, e), l)
  {
    var f' := Put(f, t, j, e);
    assert !Root(l, t);
    assert forall d: nat :: Root(l, d) ==> f'[d] == f[d];
    assert forall x: nat :: UserTable(l, x) ==> f'[x] == f[x];
    assert TablesExact(f', l);
    assert DataTargets(f', l);
  }

  lemma PutKernelPte(m: Phys, w: World, t: nat, j: nat, e: Word)
    requires Inv(m, w) && t in w.lay.tables && !UserTable(w.lay, t) && j < NPTENTRIES && !UserWritable(e)
    ensures Inv(Write(m, t, j, e), w)
  {
    hide TablesExact, DataTargets, KernelHalf, FreeList;
    PutKernelPteStructure(m.frames, w.lay, t, j, e);
    forall x: nat | x < |m.pages| ensures m.pages[x].ref == CountOf(Put(m.frames, t, j, e), w, x) {
      assert !Counted(w.lay, (t, j));
      RefsAfterPut(m.frames, w.lay, t, j, e, x);
      assert Refs(Put(m.frames, t, j, e), w.lay, x) == Refs(m.frames, w.lay, x);
    }
  }

  lemma TranslateAfterKernelPte(f: seq<Frame>, l: Layout, t: nat, j: nat, e: Word, i: nat, k: nat)
    requires Structure(f, l) && t in l.tables && l.tables[t].0 == l.kern && j < NPTENTRIES && Present(e)
    requires i < NPTENTRIES && k < NPTENTRIES && i != UVPTX
    ensures Translate(Put(f, t, j, e), l.kern, i, k) ==
            if l.tables[t].1 == i && k == j then Some(e) else Translate(f, l.kern, i, k)
  {
    assert OwnerNames(f, l, t, l.tables[t].0, l.tables[t].1);
    assert CountedPde(l, l.kern, i) && Root(l, l.kern);
  }

  /** Seen away from the UVPT window, pages [v, v + count) are mapped to consecutive frames and no other page changes. */
  ghost predicate MapsRange(f: seq<Frame>, f': seq<Frame>, d: nat, v: nat, count: nat, pfn: nat, flags: bv12)
    requires FramesShape(f) && FramesShape(f') && d < |f| && d < |f'|
  {
    forall x: nat | x < NPTENTRIES * NPTENTRIES && x / NPTENTRIES != UVPTX ::
      At(f', d, x) == if v <= x < v + count then Some(Word(pfn + (x - v), flags)) else At(f, d, x)
  }

  ghost predicate SameBoot(w: World, w': World) {
    w'.lay.kern == w.lay.kern && w'.lay.dirs == w.lay.dirs && w'.lay.pins == w.lay.pins && w'.held == w.held
  }

  /** One round: the page is mapped, no other translation of kern_pgdir changes, no count of a mapped page moves. */
  lemma BootMapStep(m: Phys, w: World, v: nat, e: Word)
    requires Inv(m, w) && w.lay.dirs == {} && KernelPage(v) && Present(e) && !UserWritable(e)
    requires Present(m.frames[w.lay.kern][v / NPTENTRIES]) || w.free != []
    ensures var (m1, pt) := PgdirWalk(m, w.lay.kern, v / NPTENTRIES, true);
            var w' := WalkWorld(m, w, w.lay.kern, v / NPTENTRIES);
            && pt.Ptr? && Inv(Write(m1, pt.page, v % NPTENTRIES, e), w') && SameBoot(w, w')
            && MapsRange(m.frames, Write(m1, pt.page, v % NPTENTRIES, e).frames, w.lay.kern, v, 1, e.pfn, e.flags)
  {
    hide Structure, FreeList, Counts, PgdirWalk, At;
    var i, j, kern := v / NPTENTRIES, v % NPTENTRIES, w.lay.kern;
    RootInRange(m, w, w.lay.kern);
    WalkCreates(m, w, kern, i);
    var (m1, pt) := PgdirWalk(m, kern, i, true);
    var w1 := WalkWorld(m, w, kern, i);
    PutKernelPte(m1, w1, pt.page, j, e);
    forall x: nat | x < NPTENTRIES * NPTENTRIES && x / NPTENTRIES != UVPTX
      ensures At(Write(m1, pt.page, j, e).frames, kern, x) == if x == v then Some(e) else At(m.frames, kern, x)
    {
      BootMapAt(m, w, v, e, x);
    }
  }

  lemma BootMapAt(m: Phys, w: World, v: nat, e: Word, x: nat)
    requires Inv(m, w) && w.lay.dirs == {} && KernelPage(v) && Present(e)
    requires Present(m.frames[w.lay.kern][v / NPTENTRIES]) || w.free != []
    requires x < NPTENTRIES * NPTENTRIES && x / NPTENTRIES != UVPTX
    ensures var (m1, pt) := PgdirWalk(m, w.lay.kern, v / NPTENTRIES, true);
            && pt.Ptr? && w.lay.kern < |m.frames|
            && At(Write(m1, pt.page, v % NPTENTRIES, e).frames, w.lay.kern, x) ==
               if x == v then Some(e) else At(m.frames, w.lay.kern, x)
  {
    hide Structure, FreeList, Counts, PgdirWalk, Translate;
    var i, j, kern := v / NPTENTRIES, v % NPTENTRIES, w.lay.kern;
    RootInRange(m, w, w.lay.kern);
    WalkCreates(m, w, kern, i);
    var (m1, pt) := PgdirWalk(m, kern, i, true);
    var i', j' := x / NPTENTRIES % NPTENTRIES, x % NPTENTRIES;
    TranslateAfterWalk(m, w, kern, i, kern, i', j');
    TranslateAfterKernelPte(m1.frames, WalkWorld(m, w, kern, i).lay, pt.page, j, e, i', j');
    assert x == v <==> i' == i && j' == j;
  }

  /** The entries boot_map_region writes never give a user write access: perm lacks U or W. */
  lemma BootEntry(pfn: nat, perm: bv12)
    requires perm & (PTE_U | PTE_W) != PTE_U | PTE_W
    ensures Present(Word(pfn, perm | PTE_P)) && !UserWritable(Word(pfn, perm | PTE_P))
  {
  }

  /** The number of directory slots in [lo, hi) that have no page table yet. */
  ghost function Missing(dir: Frame, lo: nat, hi: nat): nat
    requires |dir| == NPTENTRIES && hi <= NPTENTRIES
    decreases hi - lo
  {
    if lo >= hi then 0 else (if Present(dir[lo]) then 0 else 1) + Missing(dir, lo + 1, hi)
  }

  lemma {:induction false} MissingSame(dir: Frame, dir': Frame, lo: nat, hi: nat)
    requires |dir| == |dir'| == NPTENTRIES && hi <= NPTENTRIES
    requires forall k :: lo <= k < hi ==> Present(dir'[k]) == Present(dir[k])
    ensures Missing(dir', lo, hi) == Missing(dir, lo, hi)
    decreases hi - lo
  {
    if lo < hi {
      MissingSame(dir, dir', lo + 1, hi);
    }
  }

  /** The page tables a request of `count` pages from v on needs. */
  ghost function TablesNeeded(dir: Frame, v: nat, count: nat): nat
    requires |dir| == NPTENTRIES && v + count <= NPTENTRIES * NPTENTRIES
  {
    if count == 0 then 0 else Missing(dir, v / NPTENTRIES, (v + count - 1) / NPTENTRIES + 1)
  }

  lemma NeededStep(dir: Frame, dir': Frame, v: nat, count: nat)
    requires |dir| == |dir'| == NPTENTRIES && 0 < count && v + count <= NPTENTRIES * NPTENTRIES
    requires Present(dir'[v / NPTENTRIES])
    requires forall k :: 0 <= k < NPTENTRIES && k != v / NPTENTRIES ==> dir'[k] == dir[k]
    ensures TablesNeeded(dir, v, count) ==
            TablesNeeded(dir', v + 1, count - 1) + if Present(dir[v / NPTENTRIES]) then 0 else 1
  {
    var lo, hi := v / NPTENTRIES, (v + count - 1) / NPTENTRIES + 1;
    MissingSame(dir, dir', lo + 1, hi);
    assert (v + 1) / NPTENTRIES == lo || (v + 1) / NPTENTRIES == lo + 1;
    if count == 1 {
      assert hi == lo + 1;
    }
  }

  /** What one round does to kern_pgdir itself and to the free list. */
  lemma StepDirectory(m: Phys, w: World, v: nat, e: Word)
    requires Inv(m, w) && w.lay.dirs == {} && KernelPage(v)
    requires Present(m.frames[w.lay.kern][v / NPTENTRIES]) || w.free != []
    ensures var kern, i := w.lay.kern, v / NPTENTRIES;
            var (m1, pt) := PgdirWalk(m, kern, i, true);
            && pt.Ptr? && kern < |m.frames|
            && (var f2 := Write(m1, pt.page, v % NPTENTRIES, e).frames;
                Present(f2[kern][i]) && forall k :: 0 <= k < NPTENTRIES && k != i ==> f2[kern][k] == m.frames[kern][k])
            && |WalkWorld(m, w, kern, i).free| == |w.free| - if Present(m.frames[kern][i]) then 0 else 1
  {
    hide DataTargets, KernelHalf, Counts;
    WalkCreates(m, w, w.lay.kern, v / NPTENTRIES);
    if Present(m.frames[w.lay.kern][v / NPTENTRIES]) {
      WalkPresent(m, w, w.lay.kern, v / NPTENTRIES, true);
    } else {
      assert w.free[0] in w.free && m.head == Ptr(w.free[0]);
      FreePageIsUnused(m, w, w.free[0]);
    }
  }

  /**
   boot_map_region maps exactly the requested pages of kern_pgdir, page by page, and keeps the invariant,
   or it panics, exactly when there are fewer free pages than page tables to be made.
   */
  lemma {:induction false} BootMapRegionMaps(m: Phys, w: World, v: nat, count: nat, pfn: nat, perm: bv12)
      returns (w': World)
    requires Inv(m, w) && w.lay.dirs == {} && v + count <= NPTENTRIES * NPTENTRIES
    requires forall x :: v <= x < v + count ==> KernelPage(x)
    requires perm & (PTE_U | PTE_W) != PTE_U | PTE_W
    ensures w.lay.kern < |m.frames|
    ensures BootMapRegion(m, w.lay.kern, v, count, pfn, perm).ok <==>
              TablesNeeded(m.frames[w.lay.kern], v, count) <= |w.free|
    ensures var m' := BootMapRegion(m, w.lay.kern, v, count, pfn, perm);
            m'.ok ==>
              && Inv(m', w') && SameBoot(w, w')
              && MapsRange(m.frames, m'.frames, w.lay.kern, v, count, pfn, perm | PTE_P)
    decreases count
  {
    hide Structure, FreeList, Counts, MapsRange, PgdirWalk, WalkWorld, KernelPage, Missing;
    w' := w;
    if count == 0 {
      RootInRange(m, w, w.lay.kern);
      MapsNothing(m.frames, w.lay.kern, v, pfn, perm | PTE_P);
    } else {
      var kern := w.lay.kern;
      assert kern < |m.pages| by { RootInRange(m, w, w.lay.kern); }
      BootEntry(pfn, perm);
      assert KernelPage(v);
      var (m1, pt) := PgdirWalk(m, kern, v / NPTENTRIES, true);
      if pt.Ptr? {
        FoundTable(m, w, v);
        BootMapStep(m, w, v, Word(pfn, perm | PTE_P));
        StepDirectory(m, w, v, Word(pfn, perm | PTE_P));
        var m2 := Write(m1, pt.page, v % NPTENTRIES, Word(pfn, perm | PTE_P));
        NeededStep(m.frames[kern], m2.frames[kern], v, count);
        w' := BootMapRegionMaps(m2, WalkWorld(m, w, kern, v / NPTENTRIES), v + 1, count - 1, pfn + 1, perm);
        var m' := BootMapRegion(m2, kern, v + 1, count - 1, pfn + 1, perm);
        if m'.ok {
          MapsCompose(m.frames, m2.frames, m'.frames, kern, v, count, pfn, perm | PTE_P);
        }
      } else {
        NoTable(m, w, v, count);
      }
    }
  }

  lemma NoTable(m: Phys, w: World, v: nat, count: nat)
    requires Inv(m, w) && KernelPage(v) && w.lay.dirs == {} && 0 < count && v + count <= NPTENTRIES * NPTENTRIES
    requires PgdirWalk(m, w.lay.kern, v / NPTENTRIES, true).1.Null?
    ensures w.lay.kern < |m.frames| && TablesNeeded(m.frames[w.lay.kern], v, count) > |w.free|
  {
    WalkCreates(m, w, w.lay.kern, v / NPTENTRIES);
  }

  lemma MapsCompose(f: seq<Frame>, f1: seq<Frame>, f': seq<Frame>, d: nat, v: nat, count: nat, pfn: nat, flags: bv12)
    requires FramesShape(f) && FramesShape(f1) && FramesShape(f') && d < |f| && d < |f1| && d < |f'| && count > 0
    requires MapsRange(f, f1, d, v, 1, pfn, flags) && MapsRange(f1, f', d, v + 1, count - 1, pfn + 1, flags)
    ensures MapsRange(f, f', d, v, count, pfn, flags)
  {
    hide At;
  }

  lemma MapsNothing(f: seq<Frame>, d: nat, v: nat, pfn: nat, flags: bv12)
    requires FramesShape(f) && d < |f|
    ensures MapsRange(f, f, d, v, 0, pfn, flags)
  {
  }

  lemma FoundTable(m: Phys, w: World, v: nat)
    requires Inv(m, w) && KernelPage(v) && w.lay.dirs == {}
    requires PgdirWalk(m, w.lay.kern, v / NPTENTRIES, true).1.Ptr?
    ensures Present(m.frames[w.lay.kern][v / NPTENTRIES]) || w.free != []
  {
    WalkCreates(m, w, w.lay.kern, v / NPTENTRIES);
  }
}
