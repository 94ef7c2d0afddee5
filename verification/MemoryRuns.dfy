/** The memory system as a state machine: every run of kernel and user steps keeps the invariant. */
module MemoryRuns {
  import opened Mmu
  import opened Pmap
  import opened Ownership
  import opened PrimitiveSteps
  import opened PageOps
  import opened AddressSpace
  import opened Teardown
  import opened KernelMappings
  import opened Hardware

  /** Memory, kern_pgdir, the directories recorded in envs[], and the pages pinned at boot. */
  datatype System = System(mem: Phys, kern: nat, dirs: set<nat>, pins: set<nat>)

  datatype Op =
    | Alloc(zero: bool)
    | Free(pp: nat)
    | Walk(dir: nat, pdx: nat)
    | Insert(dir: nat, pp: nat, pdx: nat, ptx: nat, perm: bv12)
    | Remove(dir: nat, pdx: nat, ptx: nat)
    | EnvCreate
    | EnvDestroy(dir: nat)
    | Store(dir: nat, pdx: nat, ptx: nat, index: nat, word: Word)
    | BootMap(v: nat, count: nat, pfn: nat, perm: bv12)

  /** `w` records exactly what the system's memory says, with no reference in hand. */
  ghost predicate Describes(s: System, w: World) {
    && Inv(s.mem, w)
    && w.lay.kern == s.kern && w.lay.dirs == s.dirs && w.lay.pins == s.pins && w.held == multiset{}
  }

  ghost predicate Good(s: System) { exists w :: Describes(s, w) }

  ghost function WorldOf(s: System): (w: World)
    requires Good(s)
    ensures Describes(s, w)
  {
    var w :| Describes(s, w); w
  }

  // ------------------------------------------------- the record is unique

  lemma {:induction false} ChainUnique(pages: seq<PageInfo>, head: Link, a: seq<nat>, b: seq<nat>, k: nat)
    requires Chain(pages, head, a) && Chain(pages, head, b) && k <= |a|
    ensures k <= |b| && a[..k] == b[..k]
  {
    if k > 0 {
      ChainUnique(pages, head, a, b, k - 1);
      if k > 1 {
        assert LinkAt(pages, a, k - 2);
        if k - 2 < |b| {
          assert a[..k - 1][k - 2] == b[..k - 1][k - 2];
          assert LinkAt(pages, b, k - 2);
        }
      }
      assert a[..k] == a[..k - 1] + [a[k - 1]];
      assert b[..k] == b[..k - 1] + [b[k - 1]];
    }
  }

  /** The free list and the table owners are read off memory: the invariant leaves no freedom. */
  lemma WorldUnique(s: System, w: World, w': World)
    requires Describes(s, w) && Describes(s, w')
    ensures w == w'
  {
    ChainUnique(s.mem.pages, s.mem.head, w.free, w'.free, |w.free|);
    ChainUnique(s.mem.pages, s.mem.head, w'.free, w.free, |w'.free|);
    assert w.free == w.free[..|w.free|] == w'.free;
    TablesUnique(s.mem.frames, w.lay, w'.lay);
    TablesUnique(s.mem.frames, w'.lay, w.lay);
    assert w.lay.tables == w'.lay.tables;
  }

  lemma TablesUnique(f: seq<Frame>, l: Layout, l': Layout)
    requires Structure(f, l) && Structure(f, l') && l.kern == l'.kern && l.dirs == l'.dirs
    ensures forall t :: t in l.tables ==> t in l'.tables && l'.tables[t] == l.tables[t]
  {
    forall t | t in l.tables ensures t in l'.tables && l'.tables[t] == l.tables[t] {
      var (d, i) := l.tables[t];
      assert OwnerNames(f, l, t, d, i);
      assert Root(l', d) && CountedPde(l', d, i);
    }
  }

  // -------------------------------------------------------------------- steps

  function Exec(s: System, op: Op): System
    requires Shape(s.mem) && InRange(s, op)
  {
    match op
    case Alloc(zero) => s.(mem := PageAlloc(s.mem, zero).0)
    case Free(pp) => s.(mem := PageFree(s.mem, pp))
    case Walk(d, i) => s.(mem := PgdirWalk(s.mem, d, i, true).0)
    case Insert(d, pp, i, j, perm) => s.(mem := PageInsert(s.mem, d, pp, i, j, perm).0)
    case Remove(d, i, j) => s.(mem := PageRemove(s.mem, d, i, j))
    case EnvCreate =>
      var (m, pp) := EnvSetupVm(s.mem, s.kern);
      if pp.Null? then s else s.(mem := m, dirs := s.dirs + {pp.page})
    case EnvDestroy(d) => s.(mem := EnvFreeVm(s.mem, d), dirs := s.dirs - {d})
    case Store(d, i, j, k, e) => s.(mem := UserStore(s.mem, d, i, j, k, e))
    case BootMap(v, count, pfn, perm) => s.(mem := BootMapRegion(s.mem, s.kern, v, count, pfn, perm))
  }

  /** Operands that denote pages and indices at all. */
  predicate InRange(s: System, op: Op) {
    var n := |s.mem.pages|;
    s.kern < n &&
    match op
    case Alloc(zero) => true
    case Free(pp) => pp < n
    case Walk(d, i) => d < n && i < NPTENTRIES
    case Insert(d, pp, i, j, perm) => d < n && pp < n && i < NPTENTRIES && j < NPTENTRIES
    case Remove(d, i, j) => d < n && i < NPTENTRIES && j < NPTENTRIES
    case EnvCreate => true
    case EnvDestroy(d) => d < n
    case Store(d, i, j, k, e) => d < n && i < NPTENTRIES && j < NPTENTRIES && k < NPTENTRIES
    case BootMap(v, count, pfn, perm) => v + count <= NPTENTRIES * NPTENTRIES
  }

  /** What the kernel's own comments ask of callers. */
  ghost predicate Allowed(s: System, w: World, op: Op)
    requires Describes(s, w) && InRange(s, op)
  {
    match op
    case Alloc(zero) => true
    // only a page without references, and not twice
    case Free(pp) => s.mem.pages[pp].ref == 0 && pp !in w.free
    case Walk(d, i) => Root(w.lay, d) && i < UTOPX
    case Insert(d, pp, i, j, perm) =>
      InsertArgs(s.mem, w, d, pp, i, j) && (s.mem.pages[pp].ref < REF_LIMIT - 1 || NamesAlready(s.mem, d, pp, i, j))
    case Remove(d, i, j) => Root(w.lay, d) && i < UTOPX
    // the new directory copies kern_pgdir, whose part below UTOP must be empty
    case EnvCreate => KernelUserPartEmpty(s.mem.frames, w.lay)
    case EnvDestroy(d) => d in s.dirs
    case Store(d, i, j, k, e) => Root(w.lay, d)
    // static mappings are set up before the first environment, and users may not write above UTOP
    case BootMap(v, count, pfn, perm) =>
      && s.dirs == {} && (forall x :: v <= x < v + count ==> KernelPage(x))
      && perm & (PTE_U | PTE_W) != PTE_U | PTE_W
      && TablesNeeded(s.mem.frames[s.kern], v, count) <= |w.free|
  }

  ghost predicate Legal(s: System, op: Op)
    requires Good(s)
  {
    InRange(s, op) && Allowed(s, WorldOf(s), op)
  }

  /** page_free of an unreferenced page that is off the list never panics and puts it at the head. */
  lemma FreeStep(m: Phys, w: World, pp: nat)
    requires Inv(m, w) && pp < |m.pages| && m.pages[pp].ref == 0 && pp !in w.free
    ensures Inv(PageFree(m, pp), w.(free := [pp] + w.free))
  {
    hide Structure, Refs;
    PushFree(m.pages, m.head, w.free, pp);
    assert PageFree(m, pp).pages == m.pages[pp := PageInfo(m.head, 0)];
  }

  lemma InsertGood(s: System, w: World, d: nat, pp: nat, i: nat, j: nat, perm: bv12)
    requires Describes(s, w) && InsertArgs(s.mem, w, d, pp, i, j)
    requires s.mem.pages[pp].ref < REF_LIMIT - 1 || NamesAlready(s.mem, d, pp, i, j)
    ensures Good(s.(mem := PageInsert(s.mem, d, pp, i, j, perm).0))
  {
    RootInRange(s.mem, w, d);
    hide Structure, FreeList, Counts, PgdirWalk, PageInsert, NamesAlready;
    var s' := s.(mem := PageInsert(s.mem, d, pp, i, j, perm).0);
    InsertRefines(s.mem, w, d, pp, i, j, perm);
    if PageInsert(s.mem, d, pp, i, j, perm).1 == 0 {
      InsertKeepsInvariant(s.mem, w, d, pp, i, j, perm);
      assert Describes(s', InsertWorld(s.mem, w, d, pp, i, j));
    } else {
      assert Describes(s', w);
    }
  }

  lemma EnvStepsGood(s: System, w: World, op: Op)
    requires Describes(s, w) && InRange(s, op) && Allowed(s, w, op) && (op.EnvCreate? || op.EnvDestroy? || op.BootMap?)
    ensures Good(Exec(s, op))
  {
    hide Structure, FreeList, Counts, EnvSetupVm, EnvFreeVm, BootMapRegion, KernelUserPartEmpty, KernelPage;
    match op
    case EnvCreate =>
      SetupVm(s.mem, w);
      assert Describes(Exec(s, op), SetupWorld(w));
    case EnvDestroy(d) =>
      var w' := EnvFreeVmInv(s.mem, w, d);
      assert Describes(Exec(s, op), w');
    case BootMap(v, count, pfn, perm) =>
      var w' := BootMapRegionMaps(s.mem, w, v, count, pfn, perm);
      assert Describes(Exec(s, op), w');
  }

  lemma PageStepsGood(s: System, w: World, op: Op)
    requires Describes(s, w) && InRange(s, op) && Allowed(s, w, op)
    requires op.Alloc? || op.Free? || op.Walk? || op.Remove? || op.Store?
    ensures Good(Exec(s, op))
  {
    hide Structure, FreeList, Counts, PageAlloc, PageFree, PgdirWalk, PageRemove, UserStore, Fresh;
    var m, s' := s.mem, Exec(s, op);
    match op
    case Alloc(zero) =>
      AllocStep(m, w, zero);
      assert Describes(s', if w.free == [] then w else w.(free := w.free[1..]));
    case Free(pp) =>
      FreeStep(m, w, pp);
      assert Describes(s', w.(free := [pp] + w.free));
    case Walk(d, i) =>
      WalkCreates(m, w, d, i);
      assert Describes(s', WalkWorld(m, w, d, i));
    case Remove(d, i, j) =>
      RemoveInv(m, w, d, i, j);
      assert Describes(s', RemoveWorld(m, w, d, i, j));
    case Store(d, i, j, k, e) =>
      UserStoreIsSafe(m, w, d, i, j, k, e);
      assert Describes(s', w);
  }

  lemma StepKeepsGood(s: System, op: Op)
    requires Good(s) && Legal(s, op)
    ensures Good(Exec(s, op))
  {
    var w := WorldOf(s);
    if op.EnvCreate? || op.EnvDestroy? || op.BootMap? {
      EnvStepsGood(s, w, op);
    } else if op.Insert? {
      InsertGood(s, w, op.dir, op.pp, op.pdx, op.ptx, op.perm);
    } else {
      PageStepsGood(s, w, op);
    }
  }

  function Run(s: System, ops: seq<Op>): System
    requires Shape(s.mem) && CanRun(s, ops)
    decreases |ops|
  {
    if ops == [] then s else Run(Exec(s, ops[0]), ops[1..])
  }

  predicate CanRun(s: System, ops: seq<Op>)
    decreases |ops|
  {
    ops == [] || (Shape(s.mem) && InRange(s, ops[0]) && Shape(Exec(s, ops[0]).mem) && CanRun(Exec(s, ops[0]), ops[1..]))
  }

  /** Each operation is legal in the state it meets; that the state is good need not be assumed (RunKeepsGood). */
  ghost predicate LegalRun(s: System, ops: seq<Op>)
    decreases |ops|
  {
    ops == [] || (Good(s) ==> Legal(s, ops[0]) && LegalRun(Exec(s, ops[0]), ops[1..]))
  }

  /** Every run of legal steps, in any order and of any length, ends in a state where the invariant holds. */
  lemma {:induction false} RunKeepsGood(s: System, ops: seq<Op>)
    requires Good(s) && LegalRun(s, ops)
    ensures CanRun(s, ops) && Good(Run(s, ops))
    decreases |ops|
  {
    if ops != [] {
      StepKeepsGood(s, ops[0]);
      RunKeepsGood(Exec(s, ops[0]), ops[1..]);
    }
  }

  // ------------------------------------------------------- what Good says

  /**
   In every good state: the kernel has not panicked; the free list is acyclic and duplicate free; pp_ref is
   the pin or directory reference plus the number of counted entries; and nothing references a free page.
   */
  lemma GoodMeans(s: System)
    requires Good(s)
    ensures var w := WorldOf(s);
            && s.mem.ok
            && Chain(s.mem.pages, s.mem.head, w.free)
            && (forall p: nat :: p < |s.mem.pages| ==>
                  s.mem.pages[p].ref ==
                  |Refs(s.mem.frames, w.lay, p)| + if p in s.dirs || p in s.pins then 1 else 0)
            && (forall p: nat :: p in w.free ==>
                  p !in s.dirs && p !in s.pins && p !in w.lay.tables && Refs(s.mem.frames, w.lay, p) == {})
  {
    var w := WorldOf(s);
    forall p: nat | p < |s.mem.pages|
      ensures s.mem.pages[p].ref == |Refs(s.mem.frames, w.lay, p)| + if p in s.dirs || p in s.pins then 1 else 0
    {
      assert s.mem.pages[p].ref == CountOf(s.mem.frames, w, p);
    }
    forall p: nat | p in w.free
      ensures p !in s.dirs && p !in s.pins && p !in w.lay.tables && Refs(s.mem.frames, w.lay, p) == {}
    {
      FreePageIsUnused(s.mem, w, p);
    }
  }

  /**
   page_free's double-free check: on a page that is already free it panics exactly when the page is not
   the last of the list.  The last page has a NULL link, passes the check, and the list becomes cyclic.
   */
  lemma DoubleFree(m: Phys, w: World, pp: nat)
    requires Inv(m, w) && pp in w.free
    ensures !PageFree(m, pp).ok <==> pp != w.free[|w.free| - 1]
    ensures pp == w.free[|w.free| - 1] ==>
              forall s: seq<nat> :: !Chain(PageFree(m, pp).pages, PageFree(m, pp).head, s)
  {
    var k :| 0 <= k < |w.free| && w.free[k] == pp;
    assert LinkAt(m.pages, w.free, k);
    if pp == w.free[|w.free| - 1] {
      var m' := PageFree(m, pp);
      forall s: seq<nat> ensures !Chain(m'.pages, m'.head, s) {
        if Chain(m'.pages, m'.head, s) {
          FollowCycle(m.pages, m.head, w.free, s, |w.free|);
        }
      }
    }
  }

  /** After re-freeing the last page, the links from the head run through the whole old list again. */
  lemma {:induction false} FollowCycle(pages: seq<PageInfo>, head: Link, free: seq<nat>, s: seq<nat>, k: nat)
    requires FreeList(pages, head, free) && free != [] && k <= |free|
    requires Chain(pages[free[|free| - 1] := PageInfo(head, 0)], Ptr(free[|free| - 1]), s)
    ensures k < |s| && s[k] == if k == 0 then free[|free| - 1] else free[k - 1]
  {
    if k > 0 {
      FollowCycle(pages, head, free, s, k - 1);
      assert LinkAt(pages[free[|free| - 1] := PageInfo(head, 0)], s, k - 1);
      if k > 1 {
        assert LinkAt(pages, free, k - 2);
      }
    }
  }
}
