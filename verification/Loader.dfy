/**
 region_alloc and load_icode (kern/env.c:281-380) as transition functions, and what reading through
 the environment's page tables gives afterwards.
 */
module Loader {
  import opened Mmu
  import opened Pmap
  import opened Ownership
  import opened PrimitiveSteps
  import opened PageOps
  import opened Bytes
  import Hardware

  /** The fields of struct Proghdr that load_icode reads; `load` is p_type == ELF_PROG_LOAD. */
  datatype Segment = Segment(load: bool, va: nat, offset: nat, filesz: nat, memsz: nat)

  /** The number of virtual pages below UTOP. */
  const USERPAGES: nat := UTOPX * NPTENTRIES

  // ---------------------------------------------------------- transitions

  /** The byte that a load from address a finds with directory d in force. */
  function ReadByte(f: seq<Frame>, d: nat, a: nat): Option<Byte>
    requires FramesShape(f) && d < |f|
  {
    match At(f, d, a / PGSIZE)
    case None => None
    case Some(e) => if e.pfn < |f| then Some(GetByte(f[e.pfn][a % PGSIZE / 4], a % 4)) else None
  }

  /** A kernel store of one byte with directory d in force; an unmapped address is a fatal fault. */
  function StoreByte(m: Phys, d: nat, a: nat, b: Byte): (r: Phys)
    requires Shape(m) && d < |m.pages|
    ensures Shape(r) && |r.pages| == |m.pages|
  {
    match At(m.frames, d, a / PGSIZE)
    case None => Panic(m)
    case Some(e) =>
      if e.pfn >= |m.frames| then Panic(m)
      else Write(m, e.pfn, a % PGSIZE / 4, SetByte(m.frames[e.pfn][a % PGSIZE / 4], a % 4, b))
  }

  /** memcpy or memset into the address space of directory d. */
  function StoreBytes(m: Phys, d: nat, a: nat, bs: seq<Byte>): (r: Phys)
    requires Shape(m) && d < |m.pages|
    ensures Shape(r) && |r.pages| == |m.pages|
    decreases |bs|
  {
    if bs == [] || !m.ok then m else StoreBytes(StoreByte(m, d, a % TWO32, bs[0]), d, a + 1, bs[1..])
  }

  /** One round of region_alloc: the page is not cleared, and page_insert's result is ignored. */
  function AllocPage(m: Phys, d: nat, v: nat): (r: Phys)
    requires Shape(m) && d < |m.pages|
    ensures Shape(r) && |r.pages| == |m.pages|
  {
    var (m1, p) := PageAlloc(m, false);
    if p.Null? then Panic(m1)
    else PageInsert(m1, d, p.page, v / NPTENTRIES % NPTENTRIES, v % NPTENTRIES, PTE_W | PTE_U).0
  }

  function AllocPages(m: Phys, d: nat, v: nat, end: nat): (r: Phys)
    requires Shape(m) && d < |m.pages|
    ensures Shape(r) && |r.pages| == |m.pages|
    decreases end - v
  {
    if v >= end || !m.ok then m else AllocPages(AllocPage(m, d, v), d, v + 1, end)
  }

  /** The pages [FirstPage, EndPage) that region_alloc maps, in 32-bit arithmetic. */
  function FirstPage(va: nat): nat { RoundDown(va) / PGSIZE }

  function EndPage(va: nat, len: nat): nat { RoundUp((va + len) % TWO32) / PGSIZE }

  function RegionAlloc(m: Phys, d: nat, va: nat, len: nat): (r: Phys)
    requires Shape(m) && d < |m.pages|
    ensures Shape(r) && |r.pages| == |m.pages|
  {
    AllocPages(m, d, FirstPage(va), EndPage(va, len))
  }

  predicate InFile(s: Segment, file: seq<Byte>) { s.offset + s.filesz <= |file| }

  function FileBytes(s: Segment, file: seq<Byte>): seq<Byte>
    requires InFile(s, file)
  {
    file[s.offset..s.offset + s.filesz]
  }

  /** The memset of p_memsz - p_filesz bytes; the subtraction is unsigned. */
  function Zeros(s: Segment): seq<Byte> { seq((s.memsz - s.filesz) % TWO32, _ => 0) }

  function LoadSegment(m: Phys, d: nat, file: seq<Byte>, s: Segment): (r: Phys)
    requires Shape(m) && d < |m.pages| && InFile(s, file)
    ensures Shape(r) && |r.pages| == |m.pages|
  {
    if !s.load then m
    else
      var m1 := RegionAlloc(m, d, s.va, s.memsz);
      var m2 := StoreBytes(m1, d, s.va, FileBytes(s, file));
      StoreBytes(m2, d, s.va + s.filesz, Zeros(s))
  }

  function LoadSegments(m: Phys, d: nat, file: seq<Byte>, segs: seq<Segment>): (r: Phys)
    requires Shape(m) && d < |m.pages| && forall s <- segs :: InFile(s, file)
    ensures Shape(r) && |r.pages| == |m.pages|
    decreases |segs|
  {
    if segs == [] then m else LoadSegments(LoadSegment(m, d, file, segs[0]), d, file, segs[1..])
  }

  function LoadIcode(m: Phys, d: nat, file: seq<Byte>, segs: seq<Segment>): (r: Phys)
    requires Shape(m) && d < |m.pages| && forall s <- segs :: InFile(s, file)
    ensures Shape(r) && |r.pages| == |m.pages|
  {
    RegionAlloc(LoadSegments(m, d, file, segs), d, USTACKTOP - PGSIZE, PGSIZE)
  }

  // -------------------------------------------------------- private pages

  ghost predicate Clash(f: seq<Frame>, d: nat, v: nat, d': nat, v': nat)
    requires FramesShape(f)
  {
    && d < |f| && d' < |f|
    && At(f, d, v).Some? && At(f, d', v').Some? && At(f, d, v).value.pfn == At(f, d', v').value.pfn
  }

  /** No page that directory d maps below UTOP is mapped a second time, there or in another directory. */
  ghost predicate Private(f: seq<Frame>, l: Layout, d: nat)
    requires FramesShape(f)
  {
    forall v: nat, d': nat, v': nat ::
      Root(l, d') && v < USERPAGES && v' < USERPAGES && Clash(f, d, v, d', v') ==> d' == d && v' == v
  }

  ghost predicate Space(m: Phys, w: World, d: nat) {
    Inv(m, w) && d in w.lay.dirs && Private(m.frames, w.lay, d)
  }

  /** Page v of directory d keeps its entry, and the page it names keeps its contents. */
  ghost predicate SamePage(f: seq<Frame>, f': seq<Frame>, d: nat, v: nat)
    requires FramesShape(f) && FramesShape(f')
  {
    && d < |f| == |f'|
    && At(f', d, v) == At(f, d, v)
    && (At(f, d, v).Some? && At(f, d, v).value.pfn < |f| ==> f'[At(f, d, v).value.pfn] == f[At(f, d, v).value.pfn])
  }

  ghost predicate Loaded(f: seq<Frame>, d: nat, v: nat)
    requires FramesShape(f)
  {
    d < |f| && At(f, d, v).Some? && At(f, d, v).value.flags == 7
  }

  lemma UserPage(m: Phys, w: World, d: nat, v: nat)
    requires Inv(m, w) && Root(w.lay, d) && v < USERPAGES
    ensures d < |m.frames|
    ensures At(m.frames, d, v).Some? ==>
              DataPage(|m.frames|, w.lay, At(m.frames, d, v).value.pfn) && At(m.frames, d, v).value.pfn !in w.free
  {
    var i, j := v / NPTENTRIES % NPTENTRIES, v % NPTENTRIES;
    assert i < UTOPX;
    LookupIsTranslate(m, w, d, i, j);
    if At(m.frames, d, v).Some? {
      MappedIsNotFree(m, w, m.frames[d][i].pfn, j);
    }
  }

  /** page_insert writes no data page. */
  lemma InsertContents(m: Phys, w: World, d: nat, pp: nat, i: nat, j: nat, perm: bv12, q: nat)
    requires InsertArgs(m, w, d, pp, i, j) && DataPage(|m.frames|, w.lay, q) && q !in w.free
    ensures PageInsert(m, d, pp, i, j, perm).0.frames[q] == m.frames[q]
  {
    hide KernelHalf, DataTargets, Counts;
    InsertFrames(m, w, d, pp, i, j, perm);
    WalkCreates(m, w, d, i);
    WalkKeepsPage(m, w, d, i, q);
    if Present(m.frames[d][i]) {
      WalkPresent(m, w, d, i, true);
    } else if w.free != [] {
      assert w.free[0] in w.free && m.head == Ptr(w.free[0]);
    }
  }

  // ------------------------------------------------------ pages and tables

  /** The directory slots below UTOP that have a page table. */
  ghost function Have(f: seq<Frame>, d: nat): set<nat>
    requires FramesShape(f) && d < |f|
  {
    set i: nat | i < UTOPX && Present(f[d][i])
  }

  /** The directory slots of virtual pages [v, end). */
  ghost function SlotsOf(v: nat, end: nat): set<nat> { set x: nat | v <= x < end :: x / NPTENTRIES }

  /** The free pages that mapping [v, end) takes: one for each page, and one for each page table to be made. */
  ghost function Need(have: set<nat>, v: nat, end: nat): nat
    requires v <= end
  {
    end - v + |SlotsOf(v, end) - have|
  }

  ghost function TableCost(have: set<nat>, v: nat): nat { if v / NPTENTRIES in have then 0 else 1 }

  lemma NeedStep(have: set<nat>, v: nat, end: nat)
    requires v < end
    ensures Need(have, v, end) == 1 + TableCost(have, v) + Need(have + {v / NPTENTRIES}, v + 1, end)
  {
    var i := v / NPTENTRIES;
    var rest := SlotsOf(v + 1, end) - (have + {i});
    SlotsStep(v, end);
    hide SlotsOf;
    if i in have {
      assert SlotsOf(v, end) - have == rest;
    } else {
      assert SlotsOf(v, end) - have == rest + {i} && i !in rest;
    }
  }

  // --------------------------------------------------------- region_alloc

  /** The world after one round of region_alloc at an unmapped page. */
  ghost function AllocWorld(m: Phys, w: World, d: nat, v: nat): World
    requires Shape(m) && d < |m.frames| && w.free != []
  {
    WalkWorld(PageAlloc(m, false).0, w.(free := w.free[1..]), d, v / NPTENTRIES % NPTENTRIES)
  }

  /** There is a page to map at v, and one more for its page table if that is missing. */
  ghost predicate CanMap(m: Phys, w: World, d: nat, v: nat)
    requires Shape(m)
  {
    d < |m.frames| && v < USERPAGES && |w.free| >= 1 + TableCost(Have(m.frames, d), v)
  }

  lemma AllocArgs(m: Phys, w: World, d: nat, v: nat)
    requires Inv(m, w) && d in w.lay.dirs && v < USERPAGES && w.free != []
    ensures var m1, p := PageAlloc(m, false).0, w.free[0];
            && PageAlloc(m, false).1 == Ptr(p) && m1.frames == m.frames && m1.pages[p].ref == 0
            && InsertArgs(m1, w.(free := w.free[1..]), d, p, v / NPTENTRIES % NPTENTRIES, v % NPTENTRIES)
            && (forall x :: x in w.free[1..] ==> x in w.free && x != p)
  {
    hide KernelHalf, DataTargets, TablesExact, Counts;
    AllocStep(m, w, false);
    assert w.free[0] in w.free;
    FreePageIsUnused(m, w, w.free[0]);
  }

  lemma AllocInv(m: Phys, w: World, d: nat, v: nat)
    requires Inv(m, w) && d in w.lay.dirs && v < USERPAGES && CanMap(m, w, d, v) && At(m.frames, d, v).None?
    ensures Inv(AllocPage(m, d, v), AllocWorld(m, w, d, v))
    ensures AllocPage(m, d, v).ok
    ensures PageInsert(PageAlloc(m, false).0, d, w.free[0], v / NPTENTRIES % NPTENTRIES, v % NPTENTRIES, 6).1 == 0
  {
    hide Structure, FreeList, Counts, PageInsert, PageAlloc, PgdirWalk, Refs;
    AllocArgs(m, w, d, v);
    UserPage(m, w, d, v);
    var i, j := v / NPTENTRIES % NPTENTRIES, v % NPTENTRIES;
    var m1, w1 := PageAlloc(m, false).0, w.(free := w.free[1..]);
    InsertKeepsInvariant(m1, w1, d, w.free[0], i, j, 6);
    InsertRefines(m1, w1, d, w.free[0], i, j, 6);
    TranslateAfterWalk(m1, w1, d, i, d, i, j);
    assert InsertWorld(m1, w1, d, w.free[0], i, j) == AllocWorld(m, w, d, v);
  }

  /** One round changes no page but v: neither an entry nor the contents of a mapped page. */
  lemma AllocKeeps(m: Phys, w: World, d: nat, v: nat, d': nat, v': nat)
    requires Inv(m, w) && d in w.lay.dirs && v < USERPAGES && CanMap(m, w, d, v) && At(m.frames, d, v).None?
    requires Root(w.lay, d') && v' < USERPAGES
    ensures (d', v') != (d, v) ==> SamePage(m.frames, AllocPage(m, d, v).frames, d', v')
    ensures d < |m.frames| && At(AllocPage(m, d, v).frames, d, v) == Some(Word(w.free[0], 7))
  {
    hide Structure, FreeList, Counts, PageInsert, PageAlloc, PgdirWalk, Refs, Translate;
    AllocArgs(m, w, d, v);
    AllocInv(m, w, d, v);
    UserPage(m, w, d', v');
    UserPage(m, w, d, v);
    var i, j := v / NPTENTRIES % NPTENTRIES, v % NPTENTRIES;
    var m1, w1 := PageAlloc(m, false).0, w.(free := w.free[1..]);
    InsertTranslate(m1, w1, d, w.free[0], i, j, 6, d', v' / NPTENTRIES % NPTENTRIES, v' % NPTENTRIES);
    InsertTranslate(m1, w1, d, w.free[0], i, j, 6, d, i, j);
    if At(m.frames, d', v').Some? {
      InsertContents(m1, w1, d, w.free[0], i, j, 6, At(m.frames, d', v').value.pfn);
    }
  }

  /** Afterwards the slot of v has a page table, and no other slot has changed. */
  lemma AllocHave(m: Phys, w: World, d: nat, v: nat)
    requires Inv(m, w) && d in w.lay.dirs && v < USERPAGES && CanMap(m, w, d, v) && At(m.frames, d, v).None?
    ensures Have(AllocPage(m, d, v).frames, d) == Have(m.frames, d) + {v / NPTENTRIES}
    ensures |AllocWorld(m, w, d, v).free| == |w.free| - 1 - TableCost(Have(m.frames, d), v)
  {
    hide Structure, FreeList, Counts, PageInsert, PageAlloc, PgdirWalk, Refs, WalkWorld;
    AllocArgs(m, w, d, v);
    AllocInv(m, w, d, v);
    var i, j := v / NPTENTRIES % NPTENTRIES, v % NPTENTRIES;
    var m1, w1 := PageAlloc(m, false).0, w.(free := w.free[1..]);
    InsertFrames(m1, w1, d, w.free[0], i, j, 6);
    WalkRow(m1, w1, d, i);
    assert i == v / NPTENTRIES < UTOPX;
  }

  /** pgdir_walk changes a directory at the slot it fills only. */
  lemma WalkRow(m: Phys, w: World, d: nat, i: nat)
    requires Inv(m, w) && d in w.lay.dirs && i < UTOPX && (Present(m.frames[d][i]) || w.free != [])
    ensures var (m', pt) := PgdirWalk(m, d, i, true);
            && pt.Ptr? && pt.page != d && Present(m'.frames[d][i])
            && (forall k :: 0 <= k < NPTENTRIES && k != i ==> m'.frames[d][k] == m.frames[d][k])
            && |WalkWorld(m, w, d, i).free| == |w.free| - if Present(m.frames[d][i]) then 0 else 1
  {
    hide KernelHalf, DataTargets, Counts;
    WalkCreates(m, w, d, i);
    if Present(m.frames[d][i]) {
      WalkPresent(m, w, d, i, true);
    } else {
      assert w.free[0] in w.free && m.head == Ptr(w.free[0]);
      FreePageIsUnused(m, w, w.free[0]);
    }
  }

  /** What region_alloc of pages [v, end) promises about memory f' grown out of f. */
  ghost predicate Grown(f: seq<Frame>, f': seq<Frame>, l: Layout, d: nat, v: nat, end: nat)
    requires FramesShape(f) && FramesShape(f')
  {
    && (forall x: nat :: v <= x < end ==> Loaded(f', d, x))
    && (forall d': nat, x: nat :: Root(l, d') && x < USERPAGES && !(d' == d && v <= x < end) ==> SamePage(f, f', d', x))
  }

  ghost predicate SameRoots(w: World, w': World) { w'.lay.dirs == w.lay.dirs && w'.lay.kern == w.lay.kern }

  lemma AllocSpace(m: Phys, w: World, d: nat, v: nat) returns (w': World)
    requires Space(m, w, d) && CanMap(m, w, d, v) && At(m.frames, d, v).None?
    ensures Space(AllocPage(m, d, v), w', d) && SameRoots(w, w')
    ensures |w'.free| == |w.free| - 1 - TableCost(Have(m.frames, d), v)
    ensures Have(AllocPage(m, d, v).frames, d) == Have(m.frames, d) + {v / NPTENTRIES}
    ensures Grown(m.frames, AllocPage(m, d, v).frames, w.lay, d, v, v + 1)
  {
    hide Structure, FreeList, Counts, PageInsert, PageAlloc, PgdirWalk, Refs, At, Have;
    w' := AllocWorld(m, w, d, v);
    AllocInv(m, w, d, v);
    AllocHave(m, w, d, v);
    AllocKeeps(m, w, d, v, d, v);
    var m' := AllocPage(m, d, v);
    forall d': nat, x: nat | Root(w.lay, d') && x < USERPAGES && !(d' == d && v <= x < v + 1)
      ensures SamePage(m.frames, m'.frames, d', x)
    {
      AllocKeeps(m, w, d, v, d', x);
    }
    forall x: nat, d': nat, x': nat |
      Root(w.lay, d') && x < USERPAGES && x' < USERPAGES && Clash(m'.frames, d, x, d', x')
      ensures d' == d && x' == x
    {
      ClashBefore(m, w, d, v, m'.frames, x, d', x');
    }
  }

  lemma ClashBefore(m: Phys, w: World, d: nat, v: nat, f': seq<Frame>, x: nat, d': nat, x': nat)
    requires Space(m, w, d) && v < USERPAGES && d < |m.frames| == |f'| && FramesShape(f') && w.free != []
    requires Root(w.lay, d') && x < USERPAGES && x' < USERPAGES && Clash(f', d, x, d', x')
    requires At(f', d, v) == Some(Word(w.free[0], 7))
    requires x == v || SamePage(m.frames, f', d, x)
    requires (d' == d && x' == v) || SamePage(m.frames, f', d', x')
    ensures d' == d && x' == x
  {
    hide Structure, FreeList, Counts, Refs, At;
    UserPage(m, w, d, x);
    UserPage(m, w, d', x');
    assert w.free[0] in w.free;
    if x != v && !(d' == d && x' == v) {
      assert Clash(m.frames, d, x, d', x');
    }
  }

  lemma GrownTwice(f: seq<Frame>, f1: seq<Frame>, f2: seq<Frame>, l: Layout, d: nat, v: nat, end: nat)
    requires FramesShape(f) && FramesShape(f1) && FramesShape(f2) && Root(l, d) && v < end <= USERPAGES
    requires Grown(f, f1, l, d, v, v + 1) && Grown(f1, f2, l, d, v + 1, end)
    ensures Grown(f, f2, l, d, v, end)
  {
    hide At;
    assert Loaded(f1, d, v) && SamePage(f1, f2, d, v);
    forall d': nat, x: nat | Root(l, d') && x < USERPAGES && !(d' == d && v <= x < end)
      ensures SamePage(f, f2, d', x)
    {
      assert SamePage(f, f1, d', x) && SamePage(f1, f2, d', x);
    }
  }

  lemma GrownNothing(f: seq<Frame>, l: Layout, d: nat, v: nat)
    requires FramesShape(f) && forall d': nat :: Root(l, d') ==> d' < |f|
    ensures Grown(f, f, l, d, v, v)
  {
  }

  /** With a free page for each new page and each missing page table, region_alloc maps all, and disturbs no other page. */
  lemma {:induction false} AllocPagesSpace(m: Phys, w: World, d: nat, v: nat, end: nat) returns (w': World)
    requires Space(m, w, d) && v <= end <= USERPAGES && d < |m.frames| && |w.free| >= Need(Have(m.frames, d), v, end)
    requires forall x: nat :: v <= x < end ==> At(m.frames, d, x).None?
    ensures var m' := AllocPages(m, d, v, end);
            && Space(m', w', d) && SameRoots(w, w') && |w'.free| == |w.free| - Need(Have(m.frames, d), v, end)
            && Have(m'.frames, d) == Have(m.frames, d) + SlotsOf(v, end)
            && Grown(m.frames, m'.frames, w.lay, d, v, end)
    decreases end - v
  {
    hide Structure, FreeList, Counts, Refs, At, AllocPage, Private, Grown, Need, Have, SlotsOf;
    if v == end {
      NeedNothing(Have(m.frames, d), v);
      RootsInRange(m, w);
      GrownNothing(m.frames, w.lay, d, v);
      w' := w;
    } else {
      NeedStep(Have(m.frames, d), v, end);
      SlotsStep(v, end);
      var w1 := AllocSpace(m, w, d, v);
      var m1 := AllocPage(m, d, v);
      StillUnmapped(m.frames, m1.frames, w.lay, d, v, end);
      w' := AllocPagesSpace(m1, w1, d, v + 1, end);
      GrownSameRoots(m1.frames, AllocPages(m, d, v, end).frames, w, w1, d, v + 1, end);
      GrownTwice(m.frames, m1.frames, AllocPages(m, d, v, end).frames, w.lay, d, v, end);
    }
  }

  lemma NeedNothing(have: set<nat>, v: nat)
    ensures Need(have, v, v) == 0 && SlotsOf(v, v) == {}
  {
    assert SlotsOf(v, v) - have == {};
  }

  lemma SlotsStep(v: nat, end: nat)
    requires v < end
    ensures SlotsOf(v, end) == {v / NPTENTRIES} + SlotsOf(v + 1, end)
  {
    assert v / NPTENTRIES in SlotsOf(v, end);
  }

  lemma GrownSameRoots(f: seq<Frame>, f': seq<Frame>, w: World, w1: World, d: nat, v: nat, end: nat)
    requires FramesShape(f) && FramesShape(f') && SameRoots(w, w1) && Grown(f, f', w1.lay, d, v, end)
    ensures Grown(f, f', w.lay, d, v, end)
  {
    assert forall d': nat :: Root(w.lay, d') <==> Root(w1.lay, d');
  }

  lemma StillUnmapped(f: seq<Frame>, f': seq<Frame>, l: Layout, d: nat, v: nat, end: nat)
    requires FramesShape(f) && FramesShape(f') && Root(l, d) && d < |f| == |f'| && end <= USERPAGES
    requires Grown(f, f', l, d, v, v + 1)
    requires forall x: nat :: v <= x < end ==> At(f, d, x).None?
    ensures forall x: nat :: v + 1 <= x < end ==> At(f', d, x).None?
  {
    hide At;
    forall x: nat | v + 1 <= x < end
      ensures At(f', d, x).None?
    {
      assert SamePage(f, f', d, x);
    }
  }

  // -------------------------------------------------------- memcpy, memset

  /** All bytes below UTOP, of every directory, as f' shows them after `bs` is stored at a through d. */
  ghost predicate Stored(f: seq<Frame>, f': seq<Frame>, l: Layout, d: nat, a: nat, bs: seq<Byte>)
    requires FramesShape(f) && FramesShape(f')
  {
    && |f'| == |f| && (d < |f| ==> f'[d] == f[d])
    && (forall d': nat, x: nat :: Root(l, d') && d' < |f| && x < USERPAGES ==> At(f', d', x) == At(f, d', x))
    && (forall d': nat, b: nat :: Root(l, d') && d' < |f| && b < UTOP ==>
          ReadByte(f', d', b) == if d' == d && a <= b < a + |bs| then Some(bs[b - a]) else ReadByte(f, d', b))
  }

  lemma StoreByteIsUserStore(m: Phys, w: World, d: nat, a: nat, b: Byte)
    requires Inv(m, w) && Root(w.lay, d) && a < UTOP && Loaded(m.frames, d, a / PGSIZE)
    ensures var e := At(m.frames, d, a / PGSIZE).value;
            && e.pfn < |m.frames|
            && StoreByte(m, d, a, b) ==
               Hardware.UserStore(m, d, a / PGSIZE / NPTENTRIES % NPTENTRIES, a / PGSIZE % NPTENTRIES, a % PGSIZE / 4,
                                  SetByte(m.frames[e.pfn][a % PGSIZE / 4], a % 4, b))
  {
    hide FreeList, Counts, KernelHalf, DataTargets, SetByte;
    UserPage(m, w, d, a / PGSIZE);
    assert CountedPde(w.lay, d, a / PGSIZE / NPTENTRIES % NPTENTRIES);
  }

  lemma StoreByteKeeps(m: Phys, w: World, d: nat, a: nat, b: Byte)
    requires Space(m, w, d) && a < UTOP && Loaded(m.frames, d, a / PGSIZE)
    ensures var m' := StoreByte(m, d, a, b);
            && Space(m', w, d) && |m'.frames| == |m.frames| && m'.frames[d] == m.frames[d]
            && (forall d': nat, x: nat :: Root(w.lay, d') && d' < |m.frames| && x < USERPAGES ==>
                  At(m'.frames, d', x) == At(m.frames, d', x))
  {
    hide Structure, FreeList, Counts, Translate, SetByte, StoreByte;
    StoreByteIsUserStore(m, w, d, a, b);
    UserPage(m, w, d, a / PGSIZE);
    StoreByteRow(m, d, a, b);
    var e := At(m.frames, d, a / PGSIZE).value;
    Hardware.UserStoreIsSafe(m, w, d, a / PGSIZE / NPTENTRIES % NPTENTRIES, a / PGSIZE % NPTENTRIES, a % PGSIZE / 4,
                             SetByte(m.frames[e.pfn][a % PGSIZE / 4], a % 4, b));
    PrivateKept(m.frames, StoreByte(m, d, a, b).frames, w.lay, d);
  }

  lemma StoreByteRow(m: Phys, d: nat, a: nat, b: Byte)
    requires Shape(m) && d < |m.frames| && At(m.frames, d, a / PGSIZE).Some? && At(m.frames, d, a / PGSIZE).value.pfn != d
    ensures |StoreByte(m, d, a, b).frames| == |m.frames| && StoreByte(m, d, a, b).frames[d] == m.frames[d]
  {
  }

  lemma PrivateKept(f: seq<Frame>, f': seq<Frame>, l: Layout, d: nat)
    requires FramesShape(f) && FramesShape(f') && |f| == |f'| && Root(l, d)
    requires Private(f, l, d)
    requires forall d': nat, x: nat :: Root(l, d') && d' < |f| && x < USERPAGES ==> At(f', d', x) == At(f, d', x)
    ensures Private(f', l, d)
  {
    hide At;
    forall v: nat, d': nat, v': nat | Root(l, d') && v < USERPAGES && v' < USERPAGES && Clash(f', d, v, d', v')
      ensures d' == d && v' == v
    {
      assert Clash(f, d, v, d', v');
    }
  }

  lemma StoreByteReads(m: Phys, w: World, d: nat, a: nat, b: Byte, d': nat, c: nat)
    requires Space(m, w, d) && a < UTOP && Loaded(m.frames, d, a / PGSIZE)
    requires Root(w.lay, d') && d' < |m.frames| && c < UTOP
    ensures var m' := StoreByte(m, d, a, b);
            |m'.frames| == |m.frames| && ReadByte(m'.frames, d', c) == if d' == d && c == a then Some(b) else ReadByte(m.frames, d', c)
  {
    hide Structure, FreeList, Counts, At, SetByte, GetByte;
    StoreByteKeeps(m, w, d, a, b);
    StoreByteIsUserStore(m, w, d, a, b);
    var e := At(m.frames, d, a / PGSIZE).value;
    var k := a % PGSIZE / 4;
    var was := m.frames[e.pfn][k];
    assert StoreByte(m, d, a, b).frames == Put(m.frames, e.pfn, k, SetByte(was, a % 4, b));
    SetThenGet(was, a % 4, b, c % 4);
    SameByte(a, c);
    if At(m.frames, d', c / PGSIZE).Some? && At(m.frames, d', c / PGSIZE).value.pfn == e.pfn {
      assert Clash(m.frames, d, a / PGSIZE, d', c / PGSIZE);
    }
  }

  lemma SameByte(a: nat, c: nat)
    ensures a == c <==> a / PGSIZE == c / PGSIZE && a % PGSIZE / 4 == c % PGSIZE / 4 && a % 4 == c % 4
  {
    ByteParts(a);
    ByteParts(c);
  }

  lemma ByteParts(a: nat)
    ensures a == PGSIZE * (a / PGSIZE) + 4 * (a % PGSIZE / 4) + a % 4
  {
    assert a % PGSIZE == 4 * (a % PGSIZE / 4) + a % PGSIZE % 4;
    assert a % PGSIZE % 4 == a % 4;
  }

  /** Storing bytes into loaded pages makes them readable there and changes no other byte anywhere below UTOP. */
  lemma {:induction false} StoreBytesSpace(m: Phys, w: World, d: nat, a: nat, bs: seq<Byte>)
    requires Space(m, w, d) && d < |m.frames| && a + |bs| <= UTOP
    requires forall b: nat :: a <= b < a + |bs| ==> Loaded(m.frames, d, b / PGSIZE)
    ensures Space(StoreBytes(m, d, a, bs), w, d)
    ensures Stored(m.frames, StoreBytes(m, d, a, bs).frames, w.lay, d, a, bs)
    decreases |bs|
  {
    hide Structure, FreeList, Counts, At, StoreByte, Private, ReadByte;
    if bs != [] {
      assert Loaded(m.frames, d, a / PGSIZE);
      StoreByteKeeps(m, w, d, a, bs[0]);
      var m1 := StoreByte(m, d, a, bs[0]);
      forall b: nat | a + 1 <= b < a + |bs|
        ensures Loaded(m1.frames, d, b / PGSIZE)
      {
        assert Loaded(m.frames, d, b / PGSIZE);
      }
      StoreBytesSpace(m1, w, d, a + 1, bs[1..]);
      forall d': nat, b: nat | Root(w.lay, d') && d' < |m.frames| && b < UTOP
        ensures ReadByte(StoreBytes(m, d, a, bs).frames, d', b) ==
                if d' == d && a <= b < a + |bs| then Some(bs[b - a]) else ReadByte(m.frames, d', b)
      {
        StoreByteReads(m, w, d, a, bs[0], d', b);
      }
    }
  }

  // ------------------------------------------------------------- segments

  /** What load_icode assumes of a loadable segment. */
  ghost predicate SegmentOk(s: Segment, file: seq<Byte>) {
    InFile(s, file) && s.filesz <= s.memsz && s.va + s.memsz <= UTOP
  }

  ghost predicate InPages(s: Segment, x: nat) { s.load && FirstPage(s.va) <= x < EndPage(s.va, s.memsz) }

  ghost predicate InAny(segs: seq<Segment>, x: nat) { exists k :: 0 <= k < |segs| && InPages(segs[k], x) }

  lemma SegmentPages(s: Segment, file: seq<Byte>)
    requires SegmentOk(s, file)
    ensures FirstPage(s.va) <= EndPage(s.va, s.memsz) <= USERPAGES
    ensures forall b: nat :: s.va <= b < s.va + s.memsz ==> FirstPage(s.va) <= b / PGSIZE < EndPage(s.va, s.memsz)
  {
    RoundDownIs(s.va);
    RoundUpIs(s.va + s.memsz);
    RoundDownIs(s.va + s.memsz + PGSIZE - 1);
    assert FirstPage(s.va) == s.va / PGSIZE;
    assert EndPage(s.va, s.memsz) == (s.va + s.memsz + PGSIZE - 1) / PGSIZE;
    hide FirstPage, EndPage, RoundDown, RoundUp;
  }

  /** The file's bytes and then zeros, on pages mapped present, user and writable. */
  ghost predicate SegmentLoaded(f: seq<Frame>, d: nat, file: seq<Byte>, s: Segment)
    requires FramesShape(f) && InFile(s, file)
  {
    && d < |f|
    && (forall b: nat :: s.va <= b < s.va + s.memsz ==>
          ReadByte(f, d, b) == Some(if b < s.va + s.filesz then file[s.offset + (b - s.va)] else 0))
    && (forall x: nat :: InPages(s, x) ==> Loaded(f, d, x))
  }

  /** Off the pages of `segs` in directory d, every entry and every byte below UTOP is as before. */
  ghost predicate Kept(f: seq<Frame>, f': seq<Frame>, l: Layout, d: nat, segs: seq<Segment>)
    requires FramesShape(f) && FramesShape(f')
  {
    && |f'| == |f|
    && (forall d': nat, x: nat :: Root(l, d') && d' < |f| && x < USERPAGES && !(d' == d && InAny(segs, x)) ==>
          At(f', d', x) == At(f, d', x))
    && (forall d': nat, b: nat :: Root(l, d') && d' < |f| && b < UTOP && !(d' == d && InAny(segs, b / PGSIZE)) ==>
          ReadByte(f', d', b) == ReadByte(f, d', b))
  }

  lemma SamePageSameByte(f: seq<Frame>, f': seq<Frame>, d: nat, b: nat)
    requires FramesShape(f) && FramesShape(f') && SamePage(f, f', d, b / PGSIZE)
    ensures ReadByte(f', d, b) == ReadByte(f, d, b)
  {
    hide At, GetByte;
  }

  ghost function PageCount(s: Segment): int { if s.load then EndPage(s.va, s.memsz) - FirstPage(s.va) else 0 }

  ghost function SlotsOfSegment(s: Segment): set<nat> {
    if s.load then SlotsOf(FirstPage(s.va), EndPage(s.va, s.memsz)) else {}
  }

  /** The free pages one segment takes. */
  ghost function SegmentNeed(have: set<nat>, s: Segment): int { PageCount(s) + |SlotsOfSegment(s) - have| }

  /** The three steps of one segment, on the memory before (f) and after each step. */
  lemma SegmentSteps(f: seq<Frame>, f1: seq<Frame>, f2: seq<Frame>, f3: seq<Frame>, l: Layout, d: nat, file: seq<Byte>, s: Segment)
    requires FramesShape(f) && FramesShape(f1) && FramesShape(f2) && FramesShape(f3) && Root(l, d) && d < |f| == |f1|
    requires SegmentOk(s, file) && s.load
    requires Grown(f, f1, l, d, FirstPage(s.va), EndPage(s.va, s.memsz))
    requires Stored(f1, f2, l, d, s.va, FileBytes(s, file))
    requires Stored(f2, f3, l, d, s.va + s.filesz, Zeros(s))
    ensures SegmentLoaded(f3, d, file, s) && Kept(f, f3, l, d, [s])
  {
    hide At, ReadByte, FirstPage, EndPage;
    SegmentPages(s, file);
    assert InPages([s][0], 0) == InPages(s, 0);
    forall d': nat, b: nat | Root(l, d') && d' < |f| && b < UTOP && !(d' == d && InAny([s], b / PGSIZE))
      ensures ReadByte(f3, d', b) == ReadByte(f, d', b)
    {
      SegmentKeepsByte(f, f1, f2, f3, l, d, file, s, d', b);
    }
    forall d': nat, x: nat | Root(l, d') && d' < |f| && x < USERPAGES && !(d' == d && InAny([s], x))
      ensures At(f3, d', x) == At(f, d', x)
    {
      assert !(d' == d && InPages([s][0], x));
      assert SamePage(f, f1, d', x);
    }
    forall x: nat | InPages(s, x) ensures Loaded(f3, d, x) {
      assert Loaded(f1, d, x);
    }
  }

  lemma SegmentKeepsByte(f: seq<Frame>, f1: seq<Frame>, f2: seq<Frame>, f3: seq<Frame>, l: Layout, d: nat, file: seq<Byte>,
                         s: Segment, d': nat, b: nat)
    requires FramesShape(f) && FramesShape(f1) && FramesShape(f2) && FramesShape(f3) && Root(l, d) && d < |f| == |f1|
    requires SegmentOk(s, file) && s.load
    requires Grown(f, f1, l, d, FirstPage(s.va), EndPage(s.va, s.memsz))
    requires Stored(f1, f2, l, d, s.va, FileBytes(s, file))
    requires Stored(f2, f3, l, d, s.va + s.filesz, Zeros(s))
    requires Root(l, d') && d' < |f| && b < UTOP && !(d' == d && InAny([s], b / PGSIZE))
    ensures ReadByte(f3, d', b) == ReadByte(f, d', b)
  {
    hide At, ReadByte, FirstPage, EndPage;
    SegmentPages(s, file);
    assert !(d' == d && InPages([s][0], b / PGSIZE));
    assert SamePage(f, f1, d', b / PGSIZE);
    SamePageSameByte(f, f1, d', b);
  }

  lemma LoadSegmentSpace(m: Phys, w: World, d: nat, file: seq<Byte>, s: Segment) returns (w': World)
    requires Space(m, w, d) && d < |m.frames| && InFile(s, file) && (s.load ==> SegmentOk(s, file))
    requires |w.free| >= SegmentNeed(Have(m.frames, d), s)
    requires forall x: nat :: InPages(s, x) ==> At(m.frames, d, x).None?
    ensures var m' := LoadSegment(m, d, file, s);
            && Space(m', w', d) && SameRoots(w, w') && |w'.free| == |w.free| - SegmentNeed(Have(m.frames, d), s)
            && Have(m'.frames, d) == Have(m.frames, d) + SlotsOfSegment(s)
            && (s.load ==> SegmentLoaded(m'.frames, d, file, s))
            && Kept(m.frames, m'.frames, w.lay, d, [s])
  {
    hide Structure, FreeList, Counts, Private, At, AllocPages, StoreBytes, FirstPage, EndPage, Grown, Stored, Kept, SegmentLoaded, SlotsOf;
    if !s.load {
      w' := w;
      assert SlotsOfSegment(s) - Have(m.frames, d) == {};
      KeptNothing(m.frames, w.lay, d, [s]);
    } else {
      SegmentPages(s, file);
      w' := AllocPagesSpace(m, w, d, FirstPage(s.va), EndPage(s.va, s.memsz));
      var m1 := RegionAlloc(m, d, s.va, s.memsz);
      RegionBytes(m.frames, m1.frames, w.lay, d, file, s);
      StoreBytesSpace(m1, w', d, s.va, FileBytes(s, file));
      var m2 := StoreBytes(m1, d, s.va, FileBytes(s, file));
      StillLoaded(m1.frames, m2.frames, w'.lay, d, file, s);
      StoreBytesSpace(m2, w', d, s.va + s.filesz, Zeros(s));
      var m3 := StoreBytes(m2, d, s.va + s.filesz, Zeros(s));
      StoredSameRoots(m1.frames, m2.frames, w, w', d, s.va, FileBytes(s, file));
      StoredSameRoots(m2.frames, m3.frames, w, w', d, s.va + s.filesz, Zeros(s));
      SegmentSteps(m.frames, m1.frames, m2.frames, m3.frames, w.lay, d, file, s);
      StoredRow(m1.frames, m2.frames, w.lay, d, s.va, FileBytes(s, file));
      StoredRow(m2.frames, m3.frames, w.lay, d, s.va + s.filesz, Zeros(s));
    }
  }

  lemma StoredRow(f: seq<Frame>, f': seq<Frame>, l: Layout, d: nat, a: nat, bs: seq<Byte>)
    requires FramesShape(f) && FramesShape(f') && d < |f| && Stored(f, f', l, d, a, bs)
    ensures d < |f'| && Have(f', d) == Have(f, d)
  {
    hide At, ReadByte;
  }

  lemma KeptNothing(f: seq<Frame>, l: Layout, d: nat, segs: seq<Segment>)
    requires FramesShape(f)
    ensures Kept(f, f, l, d, segs)
  {
    hide At, ReadByte;
  }

  lemma RegionBytes(f: seq<Frame>, f1: seq<Frame>, l: Layout, d: nat, file: seq<Byte>, s: Segment)
    requires FramesShape(f) && FramesShape(f1) && SegmentOk(s, file)
    requires Grown(f, f1, l, d, FirstPage(s.va), EndPage(s.va, s.memsz))
    ensures forall b: nat :: s.va <= b < s.va + s.memsz ==> Loaded(f1, d, b / PGSIZE)
  {
    hide At, FirstPage, EndPage;
    SegmentPages(s, file);
  }

  lemma StillLoaded(f1: seq<Frame>, f2: seq<Frame>, l: Layout, d: nat, file: seq<Byte>, s: Segment)
    requires FramesShape(f1) && FramesShape(f2) && SegmentOk(s, file) && Root(l, d)
    requires forall b: nat :: s.va <= b < s.va + s.memsz ==> Loaded(f1, d, b / PGSIZE)
    requires Stored(f1, f2, l, d, s.va, FileBytes(s, file))
    ensures forall b: nat :: s.va <= b < s.va + s.memsz ==> Loaded(f2, d, b / PGSIZE)
  {
    hide At, ReadByte;
    forall b: nat | s.va <= b < s.va + s.memsz ensures Loaded(f2, d, b / PGSIZE) {
      assert Loaded(f1, d, b / PGSIZE);
    }
  }

  lemma StoredSameRoots(f: seq<Frame>, f': seq<Frame>, w: World, w': World, d: nat, a: nat, bs: seq<Byte>)
    requires FramesShape(f) && FramesShape(f') && SameRoots(w, w') && Stored(f, f', w'.lay, d, a, bs)
    ensures Stored(f, f', w.lay, d, a, bs)
  {
    hide At, ReadByte;
    assert forall d': nat :: Root(w.lay, d') <==> Root(w'.lay, d');
  }

  // ----------------------------------------------------------- load_icode

  ghost function TotalPages(segs: seq<Segment>): int {
    if segs == [] then 0 else PageCount(segs[0]) + TotalPages(segs[1..])
  }

  ghost function AllSlotsOf(segs: seq<Segment>): set<nat> {
    if segs == [] then {} else SlotsOfSegment(segs[0]) + AllSlotsOf(segs[1..])
  }

  /** The free pages loading takes: one for each page of each segment, and one for each page table to be made. */
  ghost function TotalNeed(have: set<nat>, segs: seq<Segment>): int { TotalPages(segs) + |AllSlotsOf(segs) - have| }

  lemma TotalNeedStep(have: set<nat>, segs: seq<Segment>)
    requires segs != []
    ensures TotalNeed(have, segs) ==
            SegmentNeed(have, segs[0]) + TotalNeed(have + SlotsOfSegment(segs[0]), segs[1..])
  {
    hide SlotsOfSegment, PageCount;
    var first, rest := SlotsOfSegment(segs[0]), AllSlotsOf(segs[1..]);
    assert AllSlotsOf(segs) - have == (first - have) + (rest - (have + first));
    assert (first - have) !! (rest - (have + first));
  }

  /** The assumptions load_icode's comment makes: sound segments, no two of which touch one page. */
  ghost predicate SegmentsOk(segs: seq<Segment>, file: seq<Byte>) {
    && (forall k :: 0 <= k < |segs| ==> InFile(segs[k], file) && (segs[k].load ==> SegmentOk(segs[k], file)))
    && (forall k, n, x: nat :: 0 <= k < n < |segs| && InPages(segs[k], x) ==> !InPages(segs[n], x))
  }

  ghost predicate AllLoaded(f: seq<Frame>, d: nat, file: seq<Byte>, segs: seq<Segment>)
    requires FramesShape(f) && SegmentsOk(segs, file)
  {
    forall k :: 0 <= k < |segs| && segs[k].load ==> SegmentLoaded(f, d, file, segs[k])
  }

  lemma InAnySplit(segs: seq<Segment>, x: nat)
    requires segs != []
    ensures InAny(segs, x) <==> InPages(segs[0], x) || InAny(segs[1..], x)
    ensures InAny([segs[0]], x) <==> InPages(segs[0], x)
  {
    hide InPages;
    if InAny(segs[1..], x) {
      var k :| 0 <= k < |segs[1..]| && InPages(segs[1..][k], x);
      assert InPages(segs[k + 1], x);
    }
    if InAny(segs, x) && !InPages(segs[0], x) {
      var k :| 0 <= k < |segs| && InPages(segs[k], x);
      assert InPages(segs[1..][k - 1], x);
    }
    if InPages(segs[0], x) {
      assert InPages([segs[0]][0], x);
    }
  }

  lemma KeptTwice(f: seq<Frame>, f1: seq<Frame>, f2: seq<Frame>, l: Layout, d: nat, segs: seq<Segment>)
    requires FramesShape(f) && FramesShape(f1) && FramesShape(f2) && segs != []
    requires Kept(f, f1, l, d, [segs[0]]) && Kept(f1, f2, l, d, segs[1..])
    ensures Kept(f, f2, l, d, segs)
  {
    hide At, ReadByte, InAny, InPages;
    forall x: nat ensures InAny(segs, x) <==> InAny([segs[0]], x) || InAny(segs[1..], x) {
      InAnySplit(segs, x);
    }
  }

  /** Pages of the first segment are untouched by the rest. */
  lemma FirstStaysLoaded(f1: seq<Frame>, f2: seq<Frame>, l: Layout, d: nat, file: seq<Byte>, s: Segment, rest: seq<Segment>)
    requires FramesShape(f1) && FramesShape(f2) && Root(l, d) && s.load && SegmentOk(s, file)
    requires SegmentLoaded(f1, d, file, s) && Kept(f1, f2, l, d, rest)
    requires forall x: nat :: InPages(s, x) ==> !InAny(rest, x)
    ensures SegmentLoaded(f2, d, file, s)
  {
    hide At, ReadByte, InAny, FirstPage, EndPage;
    SegmentPages(s, file);
    forall b: nat | s.va <= b < s.va + s.memsz
      ensures ReadByte(f2, d, b) == Some(if b < s.va + s.filesz then file[s.offset + (b - s.va)] else 0)
    {
      assert InPages(s, b / PGSIZE);
    }
    forall x: nat | InPages(s, x) ensures Loaded(f2, d, x) {
      assert Loaded(f1, d, x);
    }
  }

  lemma Disjoint(segs: seq<Segment>, file: seq<Byte>)
    requires SegmentsOk(segs, file) && segs != []
    ensures SegmentsOk(segs[1..], file)
    ensures forall x: nat :: InPages(segs[0], x) ==> !InAny(segs[1..], x)
  {
    hide InPages, SegmentOk;
    var rest := segs[1..];
    assert forall k :: 0 <= k < |rest| ==> rest[k] == segs[k + 1];
    forall x: nat | InPages(segs[0], x) ensures !InAny(rest, x) {
      forall k | 0 <= k < |rest| ensures !InPages(rest[k], x) {
        assert !InPages(segs[k + 1], x);
      }
    }
  }

  lemma PageCountPositive(s: Segment, file: seq<Byte>)
    requires s.load ==> SegmentOk(s, file)
    ensures PageCount(s) >= 0
  {
    if s.load {
      SegmentPages(s, file);
    }
  }

  lemma {:induction false} TotalPositive(segs: seq<Segment>, file: seq<Byte>)
    requires SegmentsOk(segs, file)
    ensures TotalPages(segs) >= 0
  {
    hide PageCount, SegmentOk, InPages;
    if segs != [] {
      PageCountPositive(segs[0], file);
      Disjoint(segs, file);
      TotalPositive(segs[1..], file);
    }
  }

  lemma NothingNeeded(have: set<nat>)
    ensures TotalNeed(have, []) == 0
  {
    assert AllSlotsOf([]) - have == {};
  }

  lemma NeedPositive(have: set<nat>, segs: seq<Segment>, file: seq<Byte>)
    requires SegmentsOk(segs, file)
    ensures TotalNeed(have, segs) >= 0
  {
    TotalPositive(segs, file);
  }

  lemma RestUnmapped(f: seq<Frame>, f1: seq<Frame>, w: World, d: nat, file: seq<Byte>, segs: seq<Segment>)
    requires FramesShape(f) && FramesShape(f1) && Root(w.lay, d) && d < |f| && SegmentsOk(segs, file) && segs != []
    requires forall x: nat :: x < USERPAGES && InAny(segs, x) ==> At(f, d, x).None?
    requires Kept(f, f1, w.lay, d, [segs[0]])
    ensures |f1| == |f| && forall x: nat :: x < USERPAGES && InAny(segs[1..], x) ==> At(f1, d, x).None?
  {
    hide At, ReadByte, InAny, InPages, SegmentOk;
    Disjoint(segs, file);
    forall x: nat | x < USERPAGES && InAny(segs[1..], x) ensures At(f1, d, x).None? {
      InAnySplit(segs, x);
      assert !InAny([segs[0]], x);
    }
  }

  lemma FirstUnmapped(f: seq<Frame>, d: nat, file: seq<Byte>, segs: seq<Segment>)
    requires FramesShape(f) && d < |f| && SegmentsOk(segs, file) && segs != []
    requires forall x: nat :: x < USERPAGES && InAny(segs, x) ==> At(f, d, x).None?
    ensures forall x: nat :: InPages(segs[0], x) ==> At(f, d, x).None?
  {
    hide At, InAny, FirstPage, EndPage, SegmentOk;
    forall x: nat | InPages(segs[0], x) ensures At(f, d, x).None? {
      SegmentPages(segs[0], file);
      InAnySplit(segs, x);
    }
  }

  lemma {:induction false} LoadSegmentsSpace(m: Phys, w: World, d: nat, file: seq<Byte>, segs: seq<Segment>) returns (w': World)
    requires Space(m, w, d) && d < |m.frames| && SegmentsOk(segs, file)
    requires |w.free| >= TotalNeed(Have(m.frames, d), segs)
    requires forall x: nat :: x < USERPAGES && InAny(segs, x) ==> At(m.frames, d, x).None?
    ensures var m' := LoadSegments(m, d, file, segs);
            && Space(m', w', d) && SameRoots(w, w') && |w'.free| == |w.free| - TotalNeed(Have(m.frames, d), segs)
            && Have(m'.frames, d) == Have(m.frames, d) + AllSlotsOf(segs)
            && AllLoaded(m'.frames, d, file, segs)
            && Kept(m.frames, m'.frames, w.lay, d, segs)
    decreases |segs|
  {
    hide Structure, FreeList, Counts, Private, At, LoadSegment, Kept, SegmentLoaded, InAny, InPages, SegmentOk, Have, TotalNeed,
         SegmentNeed, SlotsOfSegment;
    if segs == [] {
      NothingNeeded(Have(m.frames, d));
      w' := w;
      KeptNothing(m.frames, w.lay, d, segs);
    } else {
      var s, rest := segs[0], segs[1..];
      Disjoint(segs, file);
      TotalNeedStep(Have(m.frames, d), segs);
      NeedPositive(Have(m.frames, d) + SlotsOfSegment(s), rest, file);
      FirstUnmapped(m.frames, d, file, segs);
      var w1 := LoadSegmentSpace(m, w, d, file, s);
      var m1 := LoadSegment(m, d, file, s);
      RestUnmapped(m.frames, m1.frames, w, d, file, segs);
      w' := LoadSegmentsSpace(m1, w1, d, file, rest);
      var m2 := LoadSegments(m1, d, file, rest);
      KeptSameRoots(m1.frames, m2.frames, w, w1, d, rest);
      KeptTwice(m.frames, m1.frames, m2.frames, w.lay, d, segs);
      if s.load {
        FirstStaysLoaded(m1.frames, m2.frames, w.lay, d, file, s, rest);
      }
      assert forall k :: 0 < k < |segs| ==> segs[k] == rest[k - 1];
    }
  }

  lemma KeptSameRoots(f: seq<Frame>, f': seq<Frame>, w: World, w1: World, d: nat, segs: seq<Segment>)
    requires FramesShape(f) && FramesShape(f') && SameRoots(w, w1) && Kept(f, f', w1.lay, d, segs)
    ensures Kept(f, f', w.lay, d, segs)
  {
    hide At, ReadByte, InAny;
    assert forall d': nat :: Root(w.lay, d') <==> Root(w1.lay, d');
  }

  const STACKPAGE: nat := USTACKTOP / PGSIZE - 1

  /** The one page region_alloc maps for the stack, seen as a segment of which nothing is stored. */
  const STACK: Segment := Segment(true, USTACKTOP - PGSIZE, 0, 0, PGSIZE)

  lemma StackPages(x: nat)
    ensures InPages(STACK, x) <==> x == STACKPAGE
    ensures FirstPage(USTACKTOP - PGSIZE) == STACKPAGE && EndPage(USTACKTOP - PGSIZE, PGSIZE) == STACKPAGE + 1
    ensures STACKPAGE < USERPAGES
  {
  }

  lemma GrownIsKept(f: seq<Frame>, f': seq<Frame>, l: Layout, d: nat)
    requires FramesShape(f) && FramesShape(f') && |f| == |f'| && Grown(f, f', l, d, STACKPAGE, STACKPAGE + 1)
    ensures Kept(f, f', l, d, [STACK])
  {
    hide At, ReadByte, InPages;
    forall x: nat ensures InAny([STACK], x) <==> x == STACKPAGE {
      InAnySplit([STACK], x);
      StackPages(x);
    }
    forall d': nat, b: nat | Root(l, d') && d' < |f| && b < UTOP && !(d' == d && InAny([STACK], b / PGSIZE))
      ensures ReadByte(f', d', b) == ReadByte(f, d', b)
    {
      assert SamePage(f, f', d', b / PGSIZE);
      SamePageSameByte(f, f', d', b);
    }
    forall d': nat, x: nat | Root(l, d') && d' < |f| && x < USERPAGES && !(d' == d && InAny([STACK], x))
      ensures At(f', d', x) == At(f, d', x)
    {
      assert SamePage(f, f', d', x);
    }
  }

  const STACKSLOT: nat := STACKPAGE / NPTENTRIES

  /** What the stack page takes once the segments are loaded. */
  ghost function StackNeed(have: set<nat>, segs: seq<Segment>): nat {
    1 + if STACKSLOT in have + AllSlotsOf(segs) then 0 else 1
  }

  /**
   load_icode into a fresh environment with enough free memory, for segments as its comment assumes them,
   none touching the stack page: it does not panic, keeps the global invariant, every segment reads back
   as its file bytes followed by zeros, the stack page is user-writable, and nothing else below UTOP
   changes, in this address space or any other.
   */
  lemma LoadIcodeReadsBack(m: Phys, w: World, d: nat, file: seq<Byte>, segs: seq<Segment>) returns (w': World)
    requires Inv(m, w) && d in w.lay.dirs && d < |m.frames| && UserMap(m.frames, d) == map[]
    requires SegmentsOk(segs, file) && !InAny(segs, STACKPAGE)
    requires |w.free| >= TotalNeed(Have(m.frames, d), segs) + StackNeed(Have(m.frames, d), segs)
    ensures var m' := LoadIcode(m, d, file, segs);
            && Space(m', w', d) && SameRoots(w, w')
            && AllLoaded(m'.frames, d, file, segs)
            && Loaded(m'.frames, d, STACKPAGE)
            && (forall x: nat :: x < USERPAGES && !InAny(segs, x) && x != STACKPAGE ==> At(m'.frames, d, x).None?)
            && (forall d': nat, b: nat :: Root(w.lay, d') && d' != d && d' < |m.frames| && b < UTOP ==>
                  ReadByte(m'.frames, d', b) == ReadByte(m.frames, d', b))
  {
    hide Structure, FreeList, Counts, At, ReadByte, LoadSegments, AllocPages, SegmentLoaded, InAny, InPages, SegmentOk, Refs, Have, SlotsOf, TotalNeed, Need, AllSlotsOf;
    FreshUnmapped(m.frames, d);
    StackNeeds(Have(m.frames, d) + AllSlotsOf(segs));
    var w1 := LoadSegmentsSpace(m, w, d, file, segs);
    var m1 := LoadSegments(m, d, file, segs);
    StackPages(STACKPAGE);
    w' := AllocPagesSpace(m1, w1, d, STACKPAGE, STACKPAGE + 1);
    var m' := LoadIcode(m, d, file, segs);
    assert Loaded(m'.frames, d, STACKPAGE);
    GrownSameRoots(m1.frames, m'.frames, w, w1, d, STACKPAGE, STACKPAGE + 1);
    GrownIsKept(m1.frames, m'.frames, w.lay, d);
    StackKeepsSegments(m1.frames, m'.frames, w.lay, d, file, segs);
    StackOnly();
  }

  lemma StackNeeds(have: set<nat>)
    ensures Need(have, STACKPAGE, STACKPAGE + 1) == 1 + if STACKSLOT in have then 0 else 1
  {
    NeedStep(have, STACKPAGE, STACKPAGE + 1);
    NeedNothing(have + {STACKSLOT}, STACKPAGE + 1);
  }

  lemma StackOnly()
    ensures forall x: nat :: InAny([STACK], x) <==> x == STACKPAGE
  {
    forall x: nat ensures InAny([STACK], x) <==> x == STACKPAGE {
      InAnySplit([STACK], x);
      StackPages(x);
    }
  }

  lemma FreshUnmapped(f: seq<Frame>, d: nat)
    requires FramesShape(f) && d < |f| && UserMap(f, d) == map[]
    ensures forall x: nat :: x < USERPAGES ==> At(f, d, x).None?
  {
    forall x: nat | x < USERPAGES ensures At(f, d, x).None? {
      var s: Slot := (x / NPTENTRIES % NPTENTRIES, x % NPTENTRIES);
      assert s in AllSlots(UTOPX) && s !in UserMap(f, d);
    }
  }

  lemma StackKeepsSegments(f: seq<Frame>, f': seq<Frame>, l: Layout, d: nat, file: seq<Byte>, segs: seq<Segment>)
    requires FramesShape(f) && FramesShape(f') && Root(l, d) && SegmentsOk(segs, file) && !InAny(segs, STACKPAGE)
    requires AllLoaded(f, d, file, segs) && Kept(f, f', l, d, [STACK])
    ensures AllLoaded(f', d, file, segs)
  {
    hide SegmentLoaded, Kept, SegmentOk, InPages;
    forall k | 0 <= k < |segs| && segs[k].load ensures SegmentLoaded(f', d, file, segs[k]) {
      StackOnly();
      assert !InPages(segs[k], STACKPAGE);
      FirstStaysLoaded(f, f', l, d, file, segs[k], [STACK]);
    }
  }
}
