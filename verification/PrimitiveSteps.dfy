/** Each primitive write of the page allocator and page tables keeps the ownership invariant. */
module PrimitiveSteps {
  import opened Mmu
  import opened Pmap
  import opened Ownership

  /** Writing one word changes the reference sets at that slot only. */
  lemma RefsAfterPut(f: seq<Frame>, l: Layout, q: nat, j: nat, e: Word, p: nat)
    requires FramesShape(f) && q < |f| && j < NPTENTRIES
    ensures Refs(Put(f, q, j, e), l, p) ==
            Refs(f, l, p) - {(q, j)} +
            (if Counted(l, (q, j)) && Present(e) && e.pfn == p then {(q, j)} else {})
  {
    var f' := Put(f, q, j, e);
    assert forall s: Slot :: s != (q, j) && s.0 < |f| && s.1 < NPTENTRIES ==>
             f'[s.0][s.1] == f[s.0][s.1];
  }

  function Hold(w: World, p: nat): World { w.(held := w.held + multiset{p}) }

  function Release(w: World, p: nat): World { w.(held := w.held - multiset{p}) }

  // ------------------------------------------------------------- user entries

  /** Changing a user PTE to an absent entry or to a data page keeps the structure. */
  lemma PutPteStructure(f: seq<Frame>, l: Layout, t: nat, j: nat, e: Word)
    requires Structure(f, l) && UserTable(l, t) && j < NPTENTRIES
    requires Present(e) ==> DataPage(|f|, l, e.pfn)
    ensures Structure(Put(f, t, j, e), l)
  {
    assert !Root(l, t);
    var f' := Put(f, t, j, e);
    assert forall d: nat :: Root(l, d) ==> f'[d] == f[d];
    assert forall x: nat :: x in l.tables && !UserTable(l, x) ==> f'[x] == f[x];
    assert TablesExact(f', l);
    assert DataTargets(f', l);
    assert KernelHalf(f', l);
  }

  /** pp->pp_ref++ puts a reference in hand. */
  lemma IncRefStep(m: Phys, w: World, p: nat)
    requires Inv(m, w) && p < |m.pages| && p !in w.free && m.pages[p].ref < REF_LIMIT - 1
    ensures Inv(IncRef(m, p), Hold(w, p))
  {
    hide Structure, Refs;
    FreeListSetRef(m.pages, m.head, w.free, p, m.pages[p].ref + 1);
  }

  /** Filling an empty user PTE consumes the reference in hand. */
  lemma SetPteStep(m: Phys, w: World, t: nat, j: nat, e: Word)
    requires Inv(m, w) && UserTable(w.lay, t) && j < NPTENTRIES && !Present(m.frames[t][j])
    requires Present(e) && DataPage(|m.pages|, w.lay, e.pfn) && e.pfn in w.held
    ensures Inv(Write(m, t, j, e), Release(w, e.pfn))
  {
    hide TablesExact, DataTargets, KernelHalf, FreeList, Counts;
    PutPteStructure(m.frames, w.lay, t, j, e);
    SetPteCounts(m.pages, m.frames, w, t, j, e);
  }

  lemma SetPteCounts(pages: seq<PageInfo>, f: seq<Frame>, w: World, t: nat, j: nat, e: Word)
    requires FramesShape(f) && Counts(pages, f, w) && UserTable(w.lay, t) && t < |f| && j < NPTENTRIES
    requires !Present(f[t][j]) && Present(e) && e.pfn in w.held
    ensures Counts(pages, Put(f, t, j, e), Release(w, e.pfn))
  {
    hide Refs, CountOf;
    forall x: nat | x < |pages| ensures pages[x].ref == CountOf(Put(f, t, j, e), Release(w, e.pfn), x) {
      SetPteCount(f, w, t, j, e, x);
    }
  }

  lemma SetPteCount(f: seq<Frame>, w: World, t: nat, j: nat, e: Word, x: nat)
    requires FramesShape(f) && UserTable(w.lay, t) && t < |f| && j < NPTENTRIES
    requires !Present(f[t][j]) && Present(e) && e.pfn in w.held
    ensures CountOf(Put(f, t, j, e), Release(w, e.pfn), x) == CountOf(f, w, x)
  {
    hide Refs, Put;
    RefsAfterPut(f, w.lay, t, j, e, x);
    InRefs(f, w.lay, t, j, x);
    var before := Refs(f, w.lay, x);
    assert before - {(t, j)} == before;
    assert |before + {(t, j)}| == |before| + 1;
    assert before + {} == before;
  }

  /** A counted slot is among the references of the page it names and of no other. */
  lemma InRefs(f: seq<Frame>, l: Layout, q: nat, j: nat, x: nat)
    requires FramesShape(f) && q < |f| && j < NPTENTRIES && Counted(l, (q, j))
    ensures (q, j) in Refs(f, l, x) <==> Present(f[q][j]) && f[q][j].pfn == x
  {
  }

  /** Clearing a present user PTE puts its reference in hand. */
  lemma ClearPteStep(m: Phys, w: World, t: nat, j: nat)
    requires Inv(m, w) && UserTable(w.lay, t) && j < NPTENTRIES && Present(m.frames[t][j])
    ensures Inv(Write(m, t, j, ZERO_WORD), Hold(w, m.frames[t][j].pfn))
  {
    hide TablesExact, DataTargets, KernelHalf, FreeList, Counts;
    PutPteStructure(m.frames, w.lay, t, j, ZERO_WORD);
    ClearPteCounts(m.pages, m.frames, w, t, j);
  }

  lemma ClearPteCounts(pages: seq<PageInfo>, f: seq<Frame>, w: World, t: nat, j: nat)
    requires FramesShape(f) && Counts(pages, f, w) && UserTable(w.lay, t) && t < |f| && j < NPTENTRIES && Present(f[t][j])
    ensures Counts(pages, Put(f, t, j, ZERO_WORD), Hold(w, f[t][j].pfn))
  {
    hide Refs, CountOf;
    forall x: nat | x < |pages| ensures pages[x].ref == CountOf(Put(f, t, j, ZERO_WORD), Hold(w, f[t][j].pfn), x) {
      ClearPteCount(f, w, t, j, x);
    }
  }

  lemma ClearPteCount(f: seq<Frame>, w: World, t: nat, j: nat, x: nat)
    requires FramesShape(f) && UserTable(w.lay, t) && t < |f| && j < NPTENTRIES && Present(f[t][j])
    ensures CountOf(Put(f, t, j, ZERO_WORD), Hold(w, f[t][j].pfn), x) == CountOf(f, w, x)
  {
    hide Refs, Put;
    RefsAfterPut(f, w.lay, t, j, ZERO_WORD, x);
    InRefs(f, w.lay, t, j, x);
    var before := Refs(f, w.lay, x);
    assert before - {(t, j)} + {} == before - {(t, j)};
    assert (t, j) !in before ==> before - {(t, j)} == before;
  }

  // ---------------------------------------------------------------- free list

  ghost function AfterDecref(m: Phys, w: World, p: nat): World
    requires p < |m.pages|
  {
    Release(w, p).(free := if m.pages[p].ref == 1 then [p] + w.free else w.free)
  }

  /** page_decref gives up a reference in hand; the page is freed exactly when it was the last one. */
  lemma DecrefStep(m: Phys, w: World, p: nat)
    requires Inv(m, w) && p < |m.pages| && p in w.held
    ensures Inv(PageDecref(m, p), AfterDecref(m, w, p))
    ensures PageDecref(m, p).frames == m.frames
  {
    hide Structure, Refs;
    var m', w' := PageDecref(m, p), AfterDecref(m, w, p);
    assert CountOf(m.frames, w, p) >= 1;
    assert p !in w.free;
    assert Counts(m'.pages, m'.frames, w');
    FreeListSetRef(m.pages, m.head, w.free, p, m.pages[p].ref - 1);
    if m.pages[p].ref == 1 {
      PushFree(m.pages, m.head, w.free, p);
      assert m'.pages == m.pages[p := PageInfo(m.head, 0)];
    }
  }

  lemma FreeListSetRef(pages: seq<PageInfo>, head: Link, free: seq<nat>, p: nat, ref: nat)
    requires FreeList(pages, head, free) && p < |pages| && p !in free
    ensures FreeList(pages[p := pages[p].(ref := ref)], head, free)
  {
    var pages' := pages[p := pages[p].(ref := ref)];
    forall k: nat | k < |free| ensures LinkAt(pages', free, k) {
      assert free[k] in free && LinkAt(pages, free, k);
    }
  }

  lemma PushFree(pages: seq<PageInfo>, head: Link, free: seq<nat>, p: nat)
    requires FreeList(pages, head, free) && p < |pages| && p !in free
    ensures FreeList(pages[p := PageInfo(head, 0)], Ptr(p), [p] + free)
  {
    var pages', free' := pages[p := PageInfo(head, 0)], [p] + free;
    forall k: nat | k < |free'| ensures LinkAt(pages', free', k) {
      if k > 0 {
        assert free[k - 1] in free && LinkAt(pages, free, k - 1);
      }
    }
    forall a, b | 0 <= a < b < |free'| ensures free'[a] != free'[b] {
      assert free[b - 1] in free;
    }
  }

  lemma PopFree(pages: seq<PageInfo>, head: Link, free: seq<nat>)
    requires FreeList(pages, head, free) && free != []
    ensures FreeList(pages[free[0] := pages[free[0]].(link := Null)], pages[free[0]].link, free[1..])
  {
    var p, free' := free[0], free[1..];
    var pages' := pages[p := pages[p].(link := Null)];
    assert LinkAt(pages, free, 0);
    forall k: nat | k < |free'| ensures LinkAt(pages', free', k) {
      assert LinkAt(pages, free, k + 1);
    }
    assert forall x :: x in free ==> x == p || x in free';
    assert forall x :: x in free' ==> x in free;
  }

  lemma FreePageIsUnused(m: Phys, w: World, p: nat)
    requires Inv(m, w) && p in w.free
    ensures !Owned(w.lay, p) && p !in w.lay.tables && Refs(m.frames, w.lay, p) == {} && w.held[p] == 0
    ensures p != w.lay.kern
  {
    assert CountOf(m.frames, w, p) == 0;
    if p in w.lay.tables {
      TableIsNamed(m.frames, w.lay, p);
    }
  }

  lemma TableIsNamed(f: seq<Frame>, l: Layout, t: nat)
    requires Structure(f, l) && t in l.tables
    ensures l.tables[t] in Refs(f, l, t) && Refs(f, l, t) != {}
  {
    assert OwnerNames(f, l, t, l.tables[t].0, l.tables[t].1);
  }

  /** Frames that are neither directories nor tables may hold anything. */
  lemma UnusedFrame(f: seq<Frame>, l: Layout, p: nat, c: Frame)
    requires Structure(f, l) && p < |f| && !Root(l, p) && p !in l.tables && |c| == NPTENTRIES
    ensures Structure(f[p := c], l)
    ensures forall x :: Refs(f[p := c], l, x) == Refs(f, l, x)
  {
    var f' := f[p := c];
    assert forall q :: 0 <= q < |f| && q != p ==> f'[q] == f[q];
    assert forall s: Slot :: Counted(l, s) ==> s.0 != p;
    assert TablesExact(f', l);
    assert DataTargets(f', l);
    assert KernelHalf(f', l);
  }

  /** page_alloc takes the head of the free list; the page comes out with no reference and a NULL link. */
  lemma AllocStep(m: Phys, w: World, zero: bool)
    requires Inv(m, w)
    ensures var (m', pp) := PageAlloc(m, zero);
            pp == NextOf(w.free, 0) &&
            if pp.Null? then m' == m
            else Inv(m', w.(free := w.free[1..])) && Fresh(m', w, pp.page) && pp.page !in w.free[1..]
  {
    if w.free != [] {
      var p := w.free[0];
      assert p in w.free;
      var m' := PageAlloc(m, zero).0;
      FreePageIsUnused(m, w, p);
      PopFree(m.pages, m.head, w.free);
      UnusedFrame(m.frames, w.lay, p, m'.frames[p]);
      assert m'.frames == m.frames[p := m'.frames[p]];
    }
  }

  /** A page nothing refers to. */
  ghost predicate Fresh(m: Phys, w: World, p: nat)
    requires Shape(m)
  {
    && p < |m.pages| && m.pages[p].ref == 0 && !Owned(w.lay, p) && p !in w.lay.tables && p != w.lay.kern
    && Refs(m.frames, w.lay, p) == {} && w.held[p] == 0
  }

  // --------------------------------------------------------------- page tables

  ghost predicate Blank(f: seq<Frame>, t: nat)
    requires FramesShape(f) && t < |f|
  {
    forall j :: 0 <= j < NPTENTRIES ==> !Present(f[t][j])
  }

  ghost function AddTable(l: Layout, t: nat, s: Slot): Layout { l.(tables := l.tables[t := s]) }

  ghost function DropTable(l: Layout, t: nat): Layout { l.(tables := l.tables - {t}) }

  ghost predicate CanAttach(f: seq<Frame>, l: Layout, d: nat, i: nat, t: nat) {
    && Structure(f, l)
    && Root(l, d) && i < NPTENTRIES && CountedPde(l, d, i) && !Present(f[d][i])
    && (i < UTOPX || l.dirs == {})
    && DataPage(|f|, l, t) && !Owned(l, t) && Refs(f, l, t) == {} && f[t] == ZeroFrame()
  }

  lemma AttachTables(f: seq<Frame>, l: Layout, d: nat, i: nat, t: nat)
    requires CanAttach(f, l, d, i, t)
    ensures Roles(|f|, AddTable(l, t, (d, i)))
    ensures TablesExact(Put(f, d, i, Word(t, 7)), AddTable(l, t, (d, i)))
  {
    var f', l' := Put(f, d, i, Word(t, 7)), AddTable(l, t, (d, i));
    forall r: nat, k: nat | Root(l', r) && k < NPTENTRIES && CountedPde(l', r, k) && Present(f'[r][k])
      ensures f'[r][k].pfn in l'.tables && l'.tables[f'[r][k].pfn] == (r, k) && UserWritable(f'[r][k])
    {
      if (r, k) != (d, i) {
        assert f'[r][k] == f[r][k];
        assert Root(l, r) && CountedPde(l, r, k);
      }
    }
    forall x | x in l'.tables ensures OwnerNames(f', l', x, l'.tables[x].0, l'.tables[x].1) {
      if x != t {
        assert OwnerNames(f, l, x, l.tables[x].0, l.tables[x].1);
        assert l.tables[x] != (d, i);
      }
    }
  }

  lemma AttachData(f: seq<Frame>, l: Layout, d: nat, i: nat, t: nat)
    requires CanAttach(f, l, d, i, t) && Roles(|f|, AddTable(l, t, (d, i)))
    ensures DataTargets(Put(f, d, i, Word(t, 7)), AddTable(l, t, (d, i)))
  {
    var f', l' := Put(f, d, i, Word(t, 7)), AddTable(l, t, (d, i));
    forall r: nat, k: nat | UserTable(l', r) && k < NPTENTRIES && Present(f'[r][k])
      ensures DataPage(|f'|, l', f'[r][k].pfn)
    {
      assert r != t ==> UserTable(l, r);
      assert r != d && f'[r][k] == f[r][k];
      assert r != t ==> (r, k) in Refs(f, l, f[r][k].pfn);
    }
  }

  lemma AttachKernel(f: seq<Frame>, l: Layout, d: nat, i: nat, t: nat)
    requires CanAttach(f, l, d, i, t) && Roles(|f|, AddTable(l, t, (d, i)))
    ensures KernelHalf(Put(f, d, i, Word(t, 7)), AddTable(l, t, (d, i)))
  {
    var f', l' := Put(f, d, i, Word(t, 7)), AddTable(l, t, (d, i));
    forall x: nat, k: nat | x in l'.tables && !UserTable(l', x) && k < NPTENTRIES
      ensures !UserWritable(f'[x][k])
    {
      assert x != d && f'[x] == f[x];
      assert x != t ==> !UserTable(l, x);
    }
  }

  lemma AttachStructure(f: seq<Frame>, l: Layout, d: nat, i: nat, t: nat)
    requires CanAttach(f, l, d, i, t)
    ensures Structure(Put(f, d, i, Word(t, 7)), AddTable(l, t, (d, i)))
  {
    AttachTables(f, l, d, i, t);
    AttachData(f, l, d, i, t);
    AttachKernel(f, l, d, i, t);
  }

  lemma AttachRefs(f: seq<Frame>, l: Layout, d: nat, i: nat, t: nat)
    requires FramesShape(f) && d < |f| && t < |f| && d != t && i < NPTENTRIES && CountedPde(l, d, i)
    requires !Present(f[d][i]) && t !in l.tables && f[t] == ZeroFrame()
    ensures forall x :: Refs(Put(f, d, i, Word(t, 7)), AddTable(l, t, (d, i)), x) ==
                        Refs(f, l, x) + if x == t then {(d, i)} else {}
  {
    var f', l' := Put(f, d, i, Word(t, 7)), AddTable(l, t, (d, i));
    forall x ensures Refs(f', l', x) == Refs(f, l, x) + if x == t then {(d, i)} else {} {
      RefsAfterPut(f, l, d, i, Word(t, 7), x);
      assert forall s: Slot :: s.0 == t && s.1 < NPTENTRIES ==> !Present(f'[s.0][s.1]);
      assert forall s: Slot :: s.0 != t ==> (Counted(l', s) <==> Counted(l, s));
      assert Refs(f', l', x) == Refs(f', l, x);
    }
  }

  /** pgdir_walk hangs a zeroed page table, already counted once, on an empty directory slot. */
  lemma AttachStep(m: Phys, w: World, d: nat, i: nat, t: nat)
    requires Inv(m, w) && Root(w.lay, d) && i < NPTENTRIES && CountedPde(w.lay, d, i)
    requires !Present(m.frames[d][i]) && (i < UTOPX || w.lay.dirs == {})
    requires DataPage(|m.pages|, w.lay, t) && !Owned(w.lay, t) && m.frames[t] == ZeroFrame()
    requires Refs(m.frames, w.lay, t) == {} && t in w.held
    ensures Inv(Write(m, d, i, Word(t, 7)), Release(w, t).(lay := AddTable(w.lay, t, (d, i))))
  {
    AttachStructure(m.frames, w.lay, d, i, t);
    AttachRefs(m.frames, w.lay, d, i, t);
  }

  ghost predicate CanDetach(f: seq<Frame>, l: Layout, d: nat, i: nat, t: nat) {
    Structure(f, l) && UserTable(l, t) && l.tables[t] == (d, i) && OwnerNames(f, l, t, d, i) && Blank(f, t)
  }

  lemma DetachTables(f: seq<Frame>, l: Layout, d: nat, i: nat, t: nat)
    requires CanDetach(f, l, d, i, t)
    ensures Roles(|f|, DropTable(l, t))
    ensures TablesExact(Put(f, d, i, ZERO_WORD), DropTable(l, t))
  {
    var f', l' := Put(f, d, i, ZERO_WORD), DropTable(l, t);
    forall r: nat, k: nat | Root(l', r) && k < NPTENTRIES && CountedPde(l', r, k) && Present(f'[r][k])
      ensures f'[r][k].pfn in l'.tables && l'.tables[f'[r][k].pfn] == (r, k) && UserWritable(f'[r][k])
    {
      assert (r, k) != (d, i) && f'[r][k] == f[r][k];
      assert Root(l, r) && CountedPde(l, r, k);
    }
    forall x | x in l'.tables ensures OwnerNames(f', l', x, l'.tables[x].0, l'.tables[x].1) {
      assert OwnerNames(f, l, x, l.tables[x].0, l.tables[x].1);
      assert l.tables[x] != (d, i);
    }
  }

  lemma DetachStructure(f: seq<Frame>, l: Layout, d: nat, i: nat, t: nat)
    requires CanDetach(f, l, d, i, t)
    ensures Structure(Put(f, d, i, ZERO_WORD), DropTable(l, t))
  {
    DetachTables(f, l, d, i, t);
    DetachRest(f, l, d, i, t);
  }

  lemma DetachRest(f: seq<Frame>, l: Layout, d: nat, i: nat, t: nat)
    requires CanDetach(f, l, d, i, t) && Roles(|f|, DropTable(l, t))
    ensures DataTargets(Put(f, d, i, ZERO_WORD), DropTable(l, t)) && KernelHalf(Put(f, d, i, ZERO_WORD), DropTable(l, t))
  {
    hide TablesExact;
    var f', l' := Put(f, d, i, ZERO_WORD), DropTable(l, t);
    assert forall x :: x in l'.tables ==> x in l.tables && f'[x] == f[x] && (UserTable(l', x) <==> UserTable(l, x));
  }

  lemma DetachRefs(f: seq<Frame>, l: Layout, d: nat, i: nat, t: nat)
    requires FramesShape(f) && d < |f| && t < |f| && d != t && i < NPTENTRIES && Blank(f, t)
    ensures forall x :: Refs(Put(f, d, i, ZERO_WORD), DropTable(l, t), x) == Refs(f, l, x) - {(d, i)}
  {
    var f', l' := Put(f, d, i, ZERO_WORD), DropTable(l, t);
    forall x ensures Refs(f', l', x) == Refs(f, l, x) - {(d, i)} {
      RefsAfterPut(f, l, d, i, ZERO_WORD, x);
      assert forall s: Slot :: s.0 == t && s.1 < NPTENTRIES ==> !Present(f'[s.0][s.1]);
      assert forall s: Slot :: s.0 != t ==> (Counted(l', s) <==> Counted(l, s));
    }
  }

  /** env_free clears the directory slot of an emptied page table and takes its reference in hand. */
  lemma DetachStep(m: Phys, w: World, d: nat, i: nat, t: nat)
    requires Inv(m, w) && UserTable(w.lay, t) && w.lay.tables[t] == (d, i) && Blank(m.frames, t)
    ensures Root(w.lay, d) && i < UTOPX
    ensures Inv(Write(m, d, i, ZERO_WORD), Hold(w, t).(lay := DropTable(w.lay, t)))
  {
    assert OwnerNames(m.frames, w.lay, t, d, i);
    hide TablesExact, DataTargets, KernelHalf, FreeList, Counts;
    DetachStructure(m.frames, w.lay, d, i, t);
    DetachCounts(m.pages, m.frames, w, d, i, t);
  }

  lemma DetachCounts(pages: seq<PageInfo>, f: seq<Frame>, w: World, d: nat, i: nat, t: nat)
    requires FramesShape(f) && Counts(pages, f, w) && d < |f| && t < |f| && d != t && i < NPTENTRIES && Blank(f, t)
    requires CountedPde(w.lay, d, i) && Present(f[d][i]) && f[d][i].pfn == t
    requires t in w.lay.tables && !Owned(w.lay, t)
    ensures Counts(pages, Put(f, d, i, ZERO_WORD), Hold(w, t).(lay := DropTable(w.lay, t)))
  {
    hide Refs, CountOf, Put;
    DetachRefs(f, w.lay, d, i, t);
    forall x: nat | x < |pages|
      ensures pages[x].ref == CountOf(Put(f, d, i, ZERO_WORD), Hold(w, t).(lay := DropTable(w.lay, t)), x)
    {
      InRefs(f, w.lay, d, i, x);
      DetachCount(f, Put(f, d, i, ZERO_WORD), w, (d, i), t, x);
    }
  }

  lemma DetachCount(f: seq<Frame>, f': seq<Frame>, w: World, s: Slot, t: nat, x: nat)
    requires FramesShape(f) && FramesShape(f') && (s in Refs(f, w.lay, x) <==> x == t)
    requires Refs(f', DropTable(w.lay, t), x) == Refs(f, w.lay, x) - {s}
    ensures CountOf(f', Hold(w, t).(lay := DropTable(w.lay, t)), x) == CountOf(f, w, x)
  {
    hide Refs;
    var before := Refs(f, w.lay, x);
    assert s !in before ==> before - {s} == before;
  }
}
