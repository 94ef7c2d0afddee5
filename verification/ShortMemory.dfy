/**
 region_alloc and load_icode when memory runs out (kern/env.c:281-297).  page_alloc's failure panics; the
 failure of page_insert, whose result is ignored, does not, and costs the page.
 */
module ShortMemory {
  import opened Mmu
  import opened Pmap
  import opened Ownership
  import PrimitiveSteps
  import opened PageOps
  import opened Bytes
  import opened Loader

  /**
   One page left, and no page table for v: the page is taken off the list, page_insert finds none for the
   table, and the kernel goes on.  Page v stays unmapped, and the page taken is lost: off the list, with no
   reference, named by no entry.
   */
  lemma AllocPageSilent(m: Phys, w: World, d: nat, v: nat)
    requires Inv(m, w) && d in w.lay.dirs && v < USERPAGES && d < |m.frames|
    requires |w.free| == 1 && v / NPTENTRIES !in Have(m.frames, d)
    ensures var m', p := AllocPage(m, d, v), w.free[0];
            && m'.ok && m'.frames == m.frames && At(m'.frames, d, v).None? && m'.head.Null?
            && Inv(m', w.(free := [])) && m'.pages[p].ref == 0 && Refs(m'.frames, w.lay, p) == {}
  {
    hide Structure, Counts, PageInsert, PageAlloc, Refs;
    AllocArgs(m, w, d, v);
    var i, j := v / NPTENTRIES % NPTENTRIES, v % NPTENTRIES;
    var m1, w1 := PageAlloc(m, false).0, w.(free := w.free[1..]);
    assert i == v / NPTENTRIES < UTOPX && w1.free == [];
    InsertRefines(m1, w1, d, w.free[0], i, j, 6);
    assert w.free[0] in w.free;
    PrimitiveSteps.FreePageIsUnused(m, w, w.free[0]);
  }

  lemma AllocPagesEmpty(m: Phys, d: nat, v: nat, end: nat)
    requires Shape(m) && d < |m.pages| && v < end && (m.ok ==> m.head.Null?)
    ensures !AllocPages(m, d, v, end).ok
  {
    if m.ok {
      assert AllocPage(m, d, v) == Panic(m);
    }
  }

  /** Exactly one page is missing, and the last page of the range needs a page table of its own. */
  ghost predicate LeaksLast(have: set<nat>, free: nat, v: nat, end: nat) {
    v < end && free + 1 == Need(have, v, end) && (end - 1) / NPTENTRIES !in have + SlotsOf(v, end - 1)
  }

  lemma LeaksStep(have: set<nat>, free: nat, v: nat, end: nat)
    requires v + 1 < end && free >= 1 + TableCost(have, v)
    ensures LeaksLast(have, free, v, end) <==>
            LeaksLast(have + {v / NPTENTRIES}, free - 1 - TableCost(have, v), v + 1, end)
  {
    hide Need, SlotsOf;
    NeedStep(have, v, end);
    SlotsStep(v, end - 1);
  }

  lemma LeaksAtOnce(have: set<nat>, free: nat, v: nat, end: nat)
    requires v < end && free < 1 + TableCost(have, v)
    ensures free < Need(have, v, end)
    ensures LeaksLast(have, free, v, end) <==> free == 1 && v + 1 == end
  {
    hide SlotsOf;
    NeedStep(have, v, end);
    NeedNothing(have, v);
    assert SlotsOf(v, v) == {};
    if v + 1 == end {
      NeedNothing(have + {v / NPTENTRIES}, end);
    }
  }

  lemma {:induction false} AllocPagesShort(m: Phys, w: World, d: nat, v: nat, end: nat)
    requires Space(m, w, d) && v <= end <= USERPAGES && d < |m.frames| && |w.free| < Need(Have(m.frames, d), v, end)
    requires forall x: nat :: v <= x < end ==> At(m.frames, d, x).None?
    ensures var m' := AllocPages(m, d, v, end);
            && (m'.ok <==> LeaksLast(Have(m.frames, d), |w.free|, v, end))
            && (m'.ok ==> m'.head.Null? && v < end && At(m'.frames, d, end - 1).None?)
    decreases end - v
  {
    hide Structure, Counts, Refs, At, AllocPage, Private, Grown, Need, Have, SlotsOf, LeaksLast;
    var have := Have(m.frames, d);
    NeedNothing(have, v);
    if |w.free| >= 1 + TableCost(have, v) {
      NeedStep(have, v, end);
      var w1 := AllocSpace(m, w, d, v);
      var m1 := AllocPage(m, d, v);
      NeedNothing(have + {v / NPTENTRIES}, v + 1);
      StillUnmapped(m.frames, m1.frames, w.lay, d, v, end);
      AllocPagesShort(m1, w1, d, v + 1, end);
      LeaksStep(have, |w.free|, v, end);
    } else {
      LeaksAtOnce(have, |w.free|, v, end);
      if |w.free| == 1 {
        AllocPageSilent(m, w, d, v);
        if v + 1 < end {
          AllocPagesEmpty(AllocPage(m, d, v), d, v + 1, end);
        }
      } else {
        AllocPagesEmpty(m, d, v, end);
      }
    }
  }

  /**
   region_alloc maps all its pages if and only if there is a free page for each of them and for each page
   table to be made.  With less it panics, except that with one page too few, and the last page in need of
   a page table, it returns as if it had succeeded.
   */
  lemma AllocPagesExact(m: Phys, w: World, d: nat, v: nat, end: nat)
    requires Space(m, w, d) && v <= end <= USERPAGES && d < |m.frames|
    requires forall x: nat :: v <= x < end ==> At(m.frames, d, x).None?
    ensures var m', have := AllocPages(m, d, v, end), Have(m.frames, d);
            && (m'.ok && (forall x: nat :: v <= x < end ==> Loaded(m'.frames, d, x)) <==> |w.free| >= Need(have, v, end))
            && (m'.ok <==> |w.free| >= Need(have, v, end) || LeaksLast(have, |w.free|, v, end))
  {
    hide Structure, FreeList, Counts, Refs, At, AllocPages, Private, Need, Have, SlotsOf, LeaksLast;
    if |w.free| >= Need(Have(m.frames, d), v, end) {
      var w' := AllocPagesSpace(m, w, d, v, end);
    } else {
      AllocPagesShort(m, w, d, v, end);
      var m' := AllocPages(m, d, v, end);
      if m'.ok {
        assert !Loaded(m'.frames, d, end - 1);
      }
    }
  }

  // ----------------------------------------------------------- load_icode

  /** The kernel has panicked, or the free list is empty. */
  ghost predicate Exhausted(m: Phys) { m.ok ==> m.head.Null? }

  lemma {:induction false} StoresKeepHead(m: Phys, d: nat, a: nat, bs: seq<Byte>)
    requires Shape(m) && d < |m.pages| && Exhausted(m)
    ensures Exhausted(StoreBytes(m, d, a, bs))
    decreases |bs|
  {
    hide SetByte, At;
    if bs != [] && m.ok {
      StoresKeepHead(StoreByte(m, d, a % TWO32, bs[0]), d, a + 1, bs[1..]);
    }
  }

  lemma ExhaustedRegion(m: Phys, d: nat, v: nat, end: nat)
    requires Shape(m) && d < |m.pages| && Exhausted(m)
    ensures Exhausted(AllocPages(m, d, v, end))
  {
    if v < end {
      AllocPagesEmpty(m, d, v, end);
    }
  }

  lemma ExhaustedSegment(m: Phys, d: nat, file: seq<Byte>, s: Segment)
    requires Shape(m) && d < |m.pages| && InFile(s, file)
    requires Exhausted(m) || (s.load && Exhausted(RegionAlloc(m, d, s.va, s.memsz)))
    ensures Exhausted(LoadSegment(m, d, file, s))
  {
    hide AllocPages, StoreBytes, FirstPage, EndPage;
    if s.load {
      if Exhausted(m) {
        ExhaustedRegion(m, d, FirstPage(s.va), EndPage(s.va, s.memsz));
      }
      var m1 := RegionAlloc(m, d, s.va, s.memsz);
      StoresKeepHead(m1, d, s.va, FileBytes(s, file));
      StoresKeepHead(StoreBytes(m1, d, s.va, FileBytes(s, file)), d, s.va + s.filesz, Zeros(s));
    }
  }

  lemma {:induction false} ExhaustedRest(m: Phys, d: nat, file: seq<Byte>, segs: seq<Segment>)
    requires Shape(m) && d < |m.pages| && Exhausted(m) && forall s <- segs :: InFile(s, file)
    ensures Exhausted(LoadSegments(m, d, file, segs))
    decreases |segs|
  {
    hide LoadSegment;
    if segs != [] {
      ExhaustedSegment(m, d, file, segs[0]);
      ExhaustedRest(LoadSegment(m, d, file, segs[0]), d, file, segs[1..]);
    }
  }

  lemma ShortSegment(m: Phys, w: World, d: nat, file: seq<Byte>, s: Segment)
    requires Space(m, w, d) && d < |m.frames| && s.load && SegmentOk(s, file)
    requires |w.free| < SegmentNeed(Have(m.frames, d), s)
    requires forall x: nat :: InPages(s, x) ==> At(m.frames, d, x).None?
    ensures Exhausted(LoadSegment(m, d, file, s))
  {
    hide Structure, FreeList, Counts, Refs, At, AllocPages, Private, Have, SlotsOf, LoadSegment, FirstPage, EndPage, LeaksLast;
    SegmentPages(s, file);
    AllocPagesShort(m, w, d, FirstPage(s.va), EndPage(s.va, s.memsz));
    ExhaustedSegment(m, d, file, s);
  }

  lemma SkippedNeedsNothing(have: set<nat>, s: Segment)
    ensures !s.load ==> SegmentNeed(have, s) == 0
  {
    if !s.load {
      assert SlotsOfSegment(s) - have == {};
    }
  }

  lemma {:induction false} ShortSegments(m: Phys, w: World, d: nat, file: seq<Byte>, segs: seq<Segment>)
    requires Space(m, w, d) && d < |m.frames| && SegmentsOk(segs, file)
    requires |w.free| < TotalNeed(Have(m.frames, d), segs)
    requires forall x: nat :: x < USERPAGES && InAny(segs, x) ==> At(m.frames, d, x).None?
    ensures Exhausted(LoadSegments(m, d, file, segs))
    decreases |segs|
  {
    hide Structure, FreeList, Counts, Private, At, LoadSegment, Kept, SegmentLoaded, InAny, InPages, SegmentOk, Have, TotalNeed,
         SegmentNeed, SlotsOfSegment, Exhausted;
    NothingNeeded(Have(m.frames, d));
    var s, rest := segs[0], segs[1..];
    Disjoint(segs, file);
    TotalNeedStep(Have(m.frames, d), segs);
    FirstUnmapped(m.frames, d, file, segs);
    SkippedNeedsNothing(Have(m.frames, d), s);
    var m1 := LoadSegment(m, d, file, s);
    if |w.free| < SegmentNeed(Have(m.frames, d), s) {
      ShortSegment(m, w, d, file, s);
      ExhaustedRest(m1, d, file, rest);
    } else {
      var w1 := LoadSegmentSpace(m, w, d, file, s);
      RestUnmapped(m.frames, m1.frames, w, d, file, segs);
      ShortSegments(m1, w1, d, file, rest);
    }
  }

  /**
   load_icode with too little memory panics, with one exception: when exactly one page is missing and the
   stack page needs a page table of its own, it returns without a stack page.
   */
  lemma LoadIcodeExact(m: Phys, w: World, d: nat, file: seq<Byte>, segs: seq<Segment>)
    requires Inv(m, w) && d in w.lay.dirs && d < |m.frames| && UserMap(m.frames, d) == map[]
    requires SegmentsOk(segs, file) && !InAny(segs, STACKPAGE)
    ensures var m', have := LoadIcode(m, d, file, segs), Have(m.frames, d);
            var need := TotalNeed(have, segs) + StackNeed(have, segs);
            && (m'.ok <==> |w.free| >= need || (|w.free| == need - 1 && STACKSLOT !in have + AllSlotsOf(segs)))
            && (m'.ok && Loaded(m'.frames, d, STACKPAGE) <==> |w.free| >= need)
  {
    hide Structure, FreeList, Counts, At, LoadSegments, AllocPages, SegmentLoaded, InAny, InPages, SegmentOk, Refs, Have,
         TotalNeed, Need, SlotsOf, AllSlotsOf, Kept, AllLoaded, Exhausted;
    FreshUnmapped(m.frames, d);
    var have := Have(m.frames, d);
    var m1 := LoadSegments(m, d, file, segs);
    StackPages(STACKPAGE);
    if |w.free| < TotalNeed(have, segs) {
      ShortSegments(m, w, d, file, segs);
      NoStack(m1, d);
    } else {
      var w1 := LoadSegmentsSpace(m, w, d, file, segs);
      StackStillUnmapped(m.frames, m1.frames, w.lay, d, segs);
      StackNeeds(have + AllSlotsOf(segs));
      AllocPagesExact(m1, w1, d, STACKPAGE, STACKPAGE + 1);
      LeaksStack(have + AllSlotsOf(segs), |w1.free|);
    }
  }

  lemma NoStack(m: Phys, d: nat)
    requires Shape(m) && d < |m.pages| && Exhausted(m)
    ensures !RegionAlloc(m, d, USTACKTOP - PGSIZE, PGSIZE).ok
  {
    hide AllocPages;
    StackPages(STACKPAGE);
    AllocPagesEmpty(m, d, STACKPAGE, STACKPAGE + 1);
  }

  lemma StackStillUnmapped(f: seq<Frame>, f': seq<Frame>, l: Layout, d: nat, segs: seq<Segment>)
    requires FramesShape(f) && FramesShape(f') && Root(l, d) && d < |f| && Kept(f, f', l, d, segs)
    requires At(f, d, STACKPAGE).None? && !InAny(segs, STACKPAGE)
    ensures d < |f'| && At(f', d, STACKPAGE).None?
  {
    hide At, ReadByte, InAny;
    StackPages(STACKPAGE);
  }

  lemma LeaksStack(have: set<nat>, free: nat)
    ensures LeaksLast(have, free, STACKPAGE, STACKPAGE + 1) <==> free == 1 && STACKSLOT !in have
  {
    StackNeeds(have);
    NeedNothing(have, STACKPAGE);
  }
}
