/** env_free (kern/env.c:402-450): unmapping and freeing a whole address space by nested loops. */
module Teardown {
  import opened Mmu
  import opened Pmap
  import opened Ownership
  import opened PrimitiveSteps
  import opened PageOps

  /** The inner loop: unmap every present entry of table t from index j on. */
  function FreePtes(m: Phys, d: nat, i: nat, t: nat, j: nat): (r: Phys)
    requires Shape(m) && d < |m.pages| && t < |m.pages| && i < NPTENTRIES && j <= NPTENTRIES
    ensures Shape(r) && |r.pages| == |m.pages|
    decreases NPTENTRIES - j
  {
    if j == NPTENTRIES || !m.ok then m
    else FreePtes(if Present(m.frames[t][j]) then PageRemove(m, d, i, j) else m, d, i, t, j + 1)
  }

  /** One round of the outer loop. */
  function FreePde(m: Phys, d: nat, i: nat): (r: Phys)
    requires Shape(m) && d < |m.pages| && i < NPTENTRIES
    ensures Shape(r) && |r.pages| == |m.pages|
  {
    var pde := m.frames[d][i];
    if !Present(pde) then m
    else if pde.pfn >= |m.pages| then Panic(m)
    else
      var m1 := FreePtes(m, d, i, pde.pfn, 0);
      if !m1.ok then m1 else PageDecref(Write(m1, d, i, ZERO_WORD), pde.pfn)
  }

  /** The outer loop from directory index i on. */
  function FreePdes(m: Phys, d: nat, i: nat): (r: Phys)
    requires Shape(m) && d < |m.pages| && i <= UTOPX
    ensures Shape(r) && |r.pages| == |m.pages|
    decreases UTOPX - i
  {
    if i == UTOPX || !m.ok then m else FreePdes(FreePde(m, d, i), d, i + 1)
  }

  /** All of env_free's effect on memory. */
  function EnvFreeVm(m: Phys, d: nat): (r: Phys)
    requires Shape(m) && d < |m.pages|
    ensures Shape(r) && |r.pages| == |m.pages|
  {
    var m1 := FreePdes(m, d, 0);
    if !m1.ok then m1 else PageDecref(m1, d)
  }

  // ----------------------------------------------------- no page is ever lost

  /** Pages handed out by page_alloc that nothing refers to yet. */
  ghost function Limbo(pages: seq<PageInfo>, free: seq<nat>): set<nat> {
    set p: nat | p < |pages| && pages[p].ref == 0 && p !in free
  }

  lemma DecrefLimbo(m: Phys, w: World, p: nat)
    requires Inv(m, w) && p < |m.pages| && p in w.held
    ensures Limbo(PageDecref(m, p).pages, AfterDecref(m, w, p).free) == Limbo(m.pages, w.free)
  {
    hide Structure, Refs;
    assert CountOf(m.frames, w, p) >= 1;
    assert p !in w.free && m.pages[p].link == Null;
    var pages', free' := PageDecref(m, p).pages, AfterDecref(m, w, p).free;
    assert forall x :: x in free' <==> x in w.free || (x == p && m.pages[p].ref == 1);
    assert forall x :: 0 <= x < |m.pages| && x != p ==> pages'[x].ref == m.pages[x].ref;
    assert pages'[p].ref == m.pages[p].ref - 1;
  }

  /** page_remove: memory, layout and limbo in one place. */
  lemma RemoveSummary(m: Phys, w: World, d: nat, i: nat, j: nat, t: nat)
    requires UserArgs(m, w, d, i, j) && t in w.lay.tables && w.lay.tables[t] == (d, i) && Present(m.frames[t][j])
    ensures var m' := PageRemove(m, d, i, j); var w' := RemoveWorld(m, w, d, i, j);
            && Inv(m', w') && w'.lay == w.lay && w'.held == w.held
            && m'.frames == Put(m.frames, t, j, ZERO_WORD)
            && Limbo(m'.pages, w'.free) == Limbo(m.pages, w.free)
  {
    assert OwnerNames(m.frames, w.lay, t, d, i);
    RemoveInv(m, w, d, i, j);
    MappedIsNotFree(m, w, t, j);
    LookupIsTranslate(m, w, d, i, j);
    var p := m.frames[t][j].pfn;
    RemoveFrames(m, d, i, j, p, t);
    ClearPteStep(m, w, t, j);
    DecrefLimbo(Write(m, t, j, ZERO_WORD), Hold(w, p), p);
    assert AfterDecref(Write(m, t, j, ZERO_WORD), Hold(w, p), p).free == RemoveWorld(m, w, d, i, j).free;
  }

  // ---------------------------------------------------------- the inner loop

  /** f' is f with every present entry in the given region zeroed. */
  ghost predicate ZeroedRow(f: seq<Frame>, f': seq<Frame>, t: nat, j: nat)
    requires FramesShape(f) && FramesShape(f') && t < |f|
  {
    && |f'| == |f|
    && (forall q :: 0 <= q < |f| && q != t ==> f'[q] == f[q])
    && (forall k :: 0 <= k < NPTENTRIES ==>
          f'[t][k] == if j <= k && Present(f[t][k]) then ZERO_WORD else f[t][k])
  }

  lemma {:induction false} FreePtesInv(m: Phys, w: World, d: nat, i: nat, t: nat, j: nat) returns (w': World)
    requires Inv(m, w) && Root(w.lay, d) && i < UTOPX && j <= NPTENTRIES
    requires t in w.lay.tables && w.lay.tables[t] == (d, i)
    ensures var m' := FreePtes(m, d, i, t, j);
            && Inv(m', w') && w'.lay == w.lay && w'.held == w.held
            && ZeroedRow(m.frames, m'.frames, t, j)
            && Limbo(m'.pages, w'.free) == Limbo(m.pages, w.free)
    decreases NPTENTRIES - j
  {
    hide TablesExact, DataTargets, KernelHalf, FreeList, Counts, PageRemove, Limbo;
    if j == NPTENTRIES {
      w' := w;
    } else if Present(m.frames[t][j]) {
      RemoveSummary(m, w, d, i, j, t);
      var m1 := PageRemove(m, d, i, j);
      w' := FreePtesInv(m1, RemoveWorld(m, w, d, i, j), d, i, t, j + 1);
    } else {
      w' := FreePtesInv(m, w, d, i, t, j + 1);
    }
  }

  // ---------------------------------------------------------- the outer loop

  lemma DecrefFrames(m: Phys, p: nat)
    requires Shape(m) && p < |m.pages|
    ensures PageDecref(m, p).frames == m.frames
  {
  }

  lemma TableBound(m: Phys, w: World, t: nat)
    requires Inv(m, w)
    ensures t in w.lay.tables ==> t < |m.frames| && !Root(w.lay, t)
  {
  }

  lemma FreePdeInv(m: Phys, w: World, d: nat, i: nat) returns (w': World)
    requires Inv(m, w) && Root(w.lay, d) && i < UTOPX && Present(m.frames[d][i])
    ensures var t := m.frames[d][i].pfn; var m' := FreePde(m, d, i);
            && t in w.lay.tables && w.lay.tables[t] == (d, i)
            && Inv(m', w') && w'.lay == DropTable(w.lay, t) && w'.held == w.held
            && RoundZeroed(m.frames, m'.frames, d, i, t)
            && Limbo(m'.pages, w'.free) == Limbo(m.pages, w.free)
  {
    hide Structure, FreeList, Counts, FreePtes, PageDecref, Limbo, RoundZeroed;
    RootInRange(m, w, d);
    var t := m.frames[d][i].pfn;
    WalkPresent(m, w, d, i, false);
    TableBound(m, w, t);
    var w1 := FreePtesInv(m, w, d, i, t, 0);
    var m1 := FreePtes(m, d, i, t, 0);
    DetachStep(m1, w1, d, i, t);
    var m2, w2 := Write(m1, d, i, ZERO_WORD), Hold(w1, t).(lay := DropTable(w.lay, t));
    DecrefStep(m2, w2, t);
    DecrefFrames(m2, t);
    DecrefLimbo(m2, w2, t);
    w' := AfterDecref(m2, w2, t);
    assert w'.held == w.held;
    RowThenSlot(m.frames, m1.frames, d, i, t);
  }

  lemma RowThenSlot(f: seq<Frame>, f1: seq<Frame>, d: nat, i: nat, t: nat)
    requires FramesShape(f) && FramesShape(f1) && t < |f| && d < |f| && d != t && i < UTOPX && Present(f[d][i])
    requires ZeroedRow(f, f1, t, 0)
    ensures RoundZeroed(f, Put(f1, d, i, ZERO_WORD), d, i, t)
  {
  }

  /** The directory slots from `lo` to UTOP of directory d, and everything in the tables they own. */
  ghost predicate InRegion(l: Layout, d: nat, lo: nat, s: Slot) {
    || (s.0 == d && lo <= s.1 < UTOPX)
    || (s.0 in l.tables && l.tables[s.0].0 == d && lo <= l.tables[s.0].1 < UTOPX)
  }

  ghost predicate ZeroedRegion(f: seq<Frame>, f': seq<Frame>, l: Layout, d: nat, lo: nat)
    requires FramesShape(f) && FramesShape(f')
  {
    && |f'| == |f|
    && (forall s: Slot | s.0 < |f| && s.1 < NPTENTRIES ::
          f'[s.0][s.1] == if InRegion(l, d, lo, s) && Present(f[s.0][s.1]) then ZERO_WORD else f[s.0][s.1])
  }

  ghost function DropRange(l: Layout, d: nat, lo: nat): Layout {
    l.(tables := map t | t in l.tables && !(l.tables[t].0 == d && lo <= l.tables[t].1 < UTOPX) :: l.tables[t])
  }

  lemma {:induction false} FreePdesInv(m: Phys, w: World, d: nat, i: nat) returns (w': World)
    requires Inv(m, w) && d in w.lay.dirs && i <= UTOPX
    ensures var m' := FreePdes(m, d, i);
            && Inv(m', w') && w'.lay == DropRange(w.lay, d, i) && w'.held == w.held
            && ZeroedRegion(m.frames, m'.frames, w.lay, d, i)
            && Limbo(m'.pages, w'.free) == Limbo(m.pages, w.free)
    decreases UTOPX - i
  {
    hide TablesExact, DataTargets, KernelHalf, FreeList, Counts;
    if i == UTOPX {
      w' := w;
      assert w'.lay.tables == DropRange(w.lay, d, i).tables;
    } else if !Present(m.frames[d][i]) {
      w' := FreePdesInv(m, w, d, i + 1);
      RangeSkip(m.frames, FreePdes(m, d, i + 1).frames, w.lay, d, i);
    } else {
      var w1 := FreePdeInv(m, w, d, i);
      var m1 := FreePde(m, d, i);
      w' := FreePdesInv(m1, w1, d, i + 1);
      OwnerUnique(m.frames, w.lay, d, i);
      RangeStep(m.frames, m1.frames, FreePdes(m1, d, i + 1).frames, w.lay, d, i, m.frames[d][i].pfn);
    }
  }

  lemma RangeSkip(f: seq<Frame>, f': seq<Frame>, l: Layout, d: nat, i: nat)
    requires Structure(f, l) && d in l.dirs && i < UTOPX && !Present(f[d][i])
    requires FramesShape(f') && ZeroedRegion(f, f', l, d, i + 1)
    ensures ZeroedRegion(f, f', l, d, i)
    ensures DropRange(l, d, i + 1) == DropRange(l, d, i)
  {
    hide DataTargets, KernelHalf;
    forall t | t in l.tables ensures l.tables[t] != (d, i) {
      assert OwnerNames(f, l, t, l.tables[t].0, l.tables[t].1);
    }
    assert DropRange(l, d, i).tables == DropRange(l, d, i + 1).tables;
    assert forall s: Slot :: s != (d, i) ==> (InRegion(l, d, i, s) <==> InRegion(l, d, i + 1, s));
  }

  /** What one round of the outer loop does to memory. */
  ghost predicate RoundZeroed(f: seq<Frame>, f1: seq<Frame>, d: nat, i: nat, t: nat)
    requires FramesShape(f) && FramesShape(f1)
  {
    && |f1| == |f| && d < |f| && t < |f| && d != t && i < UTOPX
    && (forall q :: 0 <= q < |f| && q != t && q != d ==> f1[q] == f[q])
    && f1[d] == f[d][i := ZERO_WORD] && Present(f[d][i])
    && (forall k :: 0 <= k < NPTENTRIES ==> f1[t][k] == if Present(f[t][k]) then ZERO_WORD else f[t][k])
  }

  lemma OwnerUnique(f: seq<Frame>, l: Layout, d: nat, i: nat)
    requires Structure(f, l) && d in l.dirs && i < NPTENTRIES
    ensures d !in l.tables
    ensures forall x :: x in l.tables && l.tables[x] == (d, i) ==> x == f[d][i].pfn
  {
    forall x | x in l.tables && l.tables[x] == (d, i) ensures x == f[d][i].pfn {
      assert OwnerNames(f, l, x, l.tables[x].0, l.tables[x].1);
    }
  }

  lemma RangeStep(f: seq<Frame>, f1: seq<Frame>, f': seq<Frame>, l: Layout, d: nat, i: nat, t: nat)
    requires FramesShape(f) && FramesShape(f1) && FramesShape(f') && RoundZeroed(f, f1, d, i, t)
    requires t in l.tables && l.tables[t] == (d, i) && d !in l.tables
    requires forall x :: x in l.tables && l.tables[x] == (d, i) ==> x == t
    requires ZeroedRegion(f1, f', DropTable(l, t), d, i + 1)
    ensures ZeroedRegion(f, f', l, d, i)
    ensures DropRange(DropTable(l, t), d, i + 1) == DropRange(l, d, i)
  {
    assert DropRange(DropTable(l, t), d, i + 1).tables == DropRange(l, d, i).tables;
    forall s: Slot | s.0 < |f| && s.1 < NPTENTRIES
      ensures f'[s.0][s.1] == if InRegion(l, d, i, s) && Present(f[s.0][s.1]) then ZERO_WORD else f[s.0][s.1]
    {
      RegionSlot(f, f1, f', l, d, i, t, s);
    }
  }

  lemma RegionSlot(f: seq<Frame>, f1: seq<Frame>, f': seq<Frame>, l: Layout, d: nat, i: nat, t: nat, s: Slot)
    requires FramesShape(f) && FramesShape(f1) && FramesShape(f') && RoundZeroed(f, f1, d, i, t)
    requires t in l.tables && l.tables[t] == (d, i) && d !in l.tables
    requires forall x :: x in l.tables && l.tables[x] == (d, i) ==> x == t
    requires s.0 < |f| && s.1 < NPTENTRIES && ZeroedRegion(f1, f', DropTable(l, t), d, i + 1)
    ensures f'[s.0][s.1] == if InRegion(l, d, i, s) && Present(f[s.0][s.1]) then ZERO_WORD else f[s.0][s.1]
  {
    assert !Present(ZERO_WORD);
    assert f'[s.0][s.1] == if InRegion(DropTable(l, t), d, i + 1, s) && Present(f1[s.0][s.1]) then ZERO_WORD
                           else f1[s.0][s.1];
    if s.0 != t && s != (d, i) {
      assert InRegion(l, d, i, s) <==> InRegion(DropTable(l, t), d, i + 1, s);
    }
  }

  // ------------------------------------------------- freeing the directory

  ghost function DropDir(l: Layout, d: nat): Layout { l.(dirs := l.dirs - {d}) }

  ghost predicate Emptied(f: seq<Frame>, l: Layout, d: nat)
    requires FramesShape(f) && d < |f|
  {
    && (forall i :: 0 <= i < UTOPX ==> !Present(f[d][i]))
    && (forall t :: t in l.tables ==> l.tables[t].0 != d)
  }

  lemma DropDirStructure(f: seq<Frame>, l: Layout, d: nat)
    requires Structure(f, l) && d in l.dirs && Emptied(f, l, d)
    ensures Structure(f, DropDir(l, d))
  {
    var l' := DropDir(l, d);
    forall t | t in l'.tables ensures OwnerNames(f, l', t, l'.tables[t].0, l'.tables[t].1) {
      assert OwnerNames(f, l, t, l.tables[t].0, l.tables[t].1);
    }
    assert forall r: nat, k: nat :: CountedPde(l', r, k) ==> CountedPde(l, r, k);
  }

  lemma DropDirRefs(f: seq<Frame>, l: Layout, d: nat)
    requires FramesShape(f) && d in l.dirs && d < |f| && d != l.kern && Emptied(f, l, d)
    ensures forall x :: Refs(f, DropDir(l, d), x) == Refs(f, l, x)
  {
    var l' := DropDir(l, d);
    forall x ensures Refs(f, l', x) == Refs(f, l, x) {
      assert forall s: Slot :: Counted(l', s) ==> Counted(l, s);
      assert forall s: Slot :: Counted(l, s) && !Counted(l', s) ==> s.0 == d && s.1 < UTOPX;
    }
  }

  lemma DropDirStep(m: Phys, w: World, d: nat)
    requires Inv(m, w) && d in w.lay.dirs && Emptied(m.frames, w.lay, d)
    ensures Inv(m, Hold(w, d).(lay := DropDir(w.lay, d)))
  {
    hide TablesExact, DataTargets, KernelHalf, FreeList;
    DropDirStructure(m.frames, w.lay, d);
    DropDirRefs(m.frames, w.lay, d);
    var w' := Hold(w, d).(lay := DropDir(w.lay, d));
    assert d !in w.lay.pins;
    assert Counts(m.pages, m.frames, w');
  }

  // ------------------------------------------------------------ conservation

  ghost function FreedLayout(l: Layout, d: nat): Layout { DropDir(DropRange(l, d, 0), d) }

  /** The counted entries naming p that belong to d's user address space: its PDEs and its PTEs. */
  ghost function RefsFrom(f: seq<Frame>, l: Layout, d: nat, p: nat): set<Slot>
    requires FramesShape(f)
  {
    set s | s in Refs(f, l, p) && InRegion(l, d, 0, s)
  }

  /** How many references to p env_free gives up, counting the one on the directory itself. */
  ghost function GivenUp(f: seq<Frame>, l: Layout, d: nat, p: nat): nat
    requires FramesShape(f)
  {
    |RefsFrom(f, l, d, p)| + if p == d then 1 else 0
  }

  lemma RefsAfterTeardown(f: seq<Frame>, f': seq<Frame>, l: Layout, d: nat, p: nat)
    requires Structure(f, l) && d in l.dirs && FramesShape(f') && ZeroedRegion(f, f', l, d, 0)
    ensures Refs(f', FreedLayout(l, d), p) == Refs(f, l, p) - RefsFrom(f, l, d, p)
  {
    hide TablesExact, DataTargets, KernelHalf;
    var l' := FreedLayout(l, d);
    assert !Present(ZERO_WORD);
    forall s: Slot | s in AllSlots(|f|)
      ensures s in Refs(f', l', p) <==> s in Refs(f, l, p) && !InRegion(l, d, 0, s)
    {
      if !InRegion(l, d, 0, s) {
        assert Counted(l', s) <==> Counted(l, s);
      }
    }
  }

  lemma EnvFreeVmInv(m: Phys, w: World, d: nat) returns (w': World)
    requires Inv(m, w) && d in w.lay.dirs
    ensures var m' := EnvFreeVm(m, d);
            && Inv(m', w') && w'.lay == FreedLayout(w.lay, d) && w'.held == w.held
            && ZeroedRegion(m.frames, m'.frames, w.lay, d, 0)
            && Limbo(m'.pages, w'.free) == Limbo(m.pages, w.free)
  {
    var w1 := FreePdesInv(m, w, d, 0);
    var m1 := FreePdes(m, d, 0);
    hide TablesExact, DataTargets, KernelHalf, FreeList, Counts;
    assert Emptied(m1.frames, w1.lay, d) by {
      EmptiedAfterLoop(m.frames, m1.frames, w.lay, d);
    }
    DropDirStep(m1, w1, d);
    var w2 := Hold(w1, d).(lay := DropDir(w1.lay, d));
    DecrefStep(m1, w2, d);
    DecrefLimbo(m1, w2, d);
    w' := AfterDecref(m1, w2, d);
    assert w'.held == w.held;
  }

  lemma EmptiedAfterLoop(f: seq<Frame>, f': seq<Frame>, l: Layout, d: nat)
    requires Structure(f, l) && d in l.dirs && FramesShape(f') && ZeroedRegion(f, f', l, d, 0)
    ensures Emptied(f', DropRange(l, d, 0), d)
  {
    forall i | 0 <= i < UTOPX ensures !Present(f'[d][i]) {
      var s: Slot := (d, i);
      assert InRegion(l, d, 0, s) && f'[s.0][s.1] == if Present(f[d][i]) then ZERO_WORD else f[d][i];
    }
    forall t | t in DropRange(l, d, 0).tables ensures l.tables[t].0 != d {
      assert OwnerNames(f, l, t, l.tables[t].0, l.tables[t].1);
    }
  }

  /**
   env_free conserves memory.  Every page loses exactly the references that came from the freed
   environment; the free list gains exactly the pages (data pages, page tables and the directory) whose
   references all came from it; and no translation of any other directory changes.
   */
  lemma EnvFreeConserves(m: Phys, w: World, d: nat) returns (w': World)
    requires Inv(m, w) && d in w.lay.dirs
    ensures var m' := EnvFreeVm(m, d);
            && Inv(m', w') && w'.lay == FreedLayout(w.lay, d) && w'.held == w.held
            && (forall p: nat :: p < |m.pages| ==>
                  m'.pages[p].ref == m.pages[p].ref - GivenUp(m.frames, w.lay, d, p))
            && (forall p: nat :: p < |m.pages| ==>
                  (p in w'.free <==>
                   p in w.free || (m.pages[p].ref > 0 && m.pages[p].ref == GivenUp(m.frames, w.lay, d, p))))
            && (forall d': nat, i: nat, k: nat | Root(w.lay, d') && d' != d && i < NPTENTRIES && k < NPTENTRIES ::
                  Translate(m'.frames, d', i, k) == Translate(m.frames, d', i, k))
  {
    w' := EnvFreeVmInv(m, w, d);
    var m' := EnvFreeVm(m, d);
    forall p: nat | p < |m.pages|
      ensures m'.pages[p].ref == m.pages[p].ref - GivenUp(m.frames, w.lay, d, p)
      ensures p in w'.free <==>
              p in w.free || (m.pages[p].ref > 0 && m.pages[p].ref == GivenUp(m.frames, w.lay, d, p))
    {
      CountsAfterTeardown(m, m', w, w', d, p);
      assert p in Limbo(m'.pages, w'.free) <==> p in Limbo(m.pages, w.free);
    }
    forall d': nat, i: nat, k: nat | Root(w.lay, d') && d' != d && i < NPTENTRIES && k < NPTENTRIES
      ensures Translate(m'.frames, d', i, k) == Translate(m.frames, d', i, k)
    {
      OtherDirUntouched(m.frames, m'.frames, w.lay, d, d', i, k);
    }
  }

  lemma CountsAfterTeardown(m: Phys, m': Phys, w: World, w': World, d: nat, p: nat)
    requires Inv(m, w) && Inv(m', w') && d in w.lay.dirs && |m'.pages| == |m.pages| && p < |m.pages|
    requires w'.lay == FreedLayout(w.lay, d) && w'.held == w.held
    requires ZeroedRegion(m.frames, m'.frames, w.lay, d, 0)
    ensures m'.pages[p].ref == m.pages[p].ref - GivenUp(m.frames, w.lay, d, p)
  {
    hide TablesExact, DataTargets, KernelHalf, FreeList;
    RefsAfterTeardown(m.frames, m'.frames, w.lay, d, p);
    var all, own := Refs(m.frames, w.lay, p), RefsFrom(m.frames, w.lay, d, p);
    assert own <= all && |all - own| == |all| - |own|;
    assert m.pages[p].ref == CountOf(m.frames, w, p);
    assert m'.pages[p].ref == CountOf(m'.frames, w', p);
    assert d !in w.lay.pins;
  }

  lemma OtherDirUntouched(f: seq<Frame>, f': seq<Frame>, l: Layout, d: nat, d': nat, i: nat, k: nat)
    requires Structure(f, l) && d in l.dirs && FramesShape(f') && ZeroedRegion(f, f', l, d, 0)
    requires Root(l, d') && d' != d && i < NPTENTRIES && k < NPTENTRIES
    ensures Translate(f', d', i, k) == Translate(f, d', i, k)
  {
    var s: Slot := (d', i);
    assert !InRegion(l, d, 0, s) && f'[s.0][s.1] == f[s.0][s.1];
    if Present(f[d'][i]) {
      var t := f[d'][i].pfn;
      TableIsTableOrRoot(f, l, d', i);
      if UserTable(l, t) {
        TableReachedOnce(f, l, t, d', i);
      }
      var s': Slot := (t, k);
      assert !InRegion(l, d, 0, s') && f'[s'.0][s'.1] == f[s'.0][s'.1];
    }
  }
}
