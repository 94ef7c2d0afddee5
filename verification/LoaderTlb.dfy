/**
 region_alloc and load_icode as the TLB sees them (kern/env.c:281-380): CR3 moves to the new directory,
 pages are inserted and filled through it, CR3 moves back, and the stack page is inserted.
 */
module LoaderTlb {
  import opened Mmu
  import opened Pmap
  import opened Ownership
  import PrimitiveSteps
  import opened PageOps
  import opened Bytes
  import opened Loader
  import opened ShortMemory
  import opened Tlb

  // --------------------------------------------------------------- events

  ghost function AllocEvents(m: Phys, d: nat, v: nat, cur: Option<nat>): seq<Event>
    requires Shape(m) && d < |m.pages|
  {
    var (m1, p) := PageAlloc(m, false);
    if p.Null? then []
    else InsertEvents(m1, d, p.page, v / NPTENTRIES % NPTENTRIES, v % NPTENTRIES, PTE_W | PTE_U, cur)
  }

  ghost function RegionEvents(m: Phys, d: nat, v: nat, end: nat, cur: Option<nat>): seq<Event>
    requires Shape(m) && d < |m.pages|
    decreases end - v
  {
    if v >= end || !m.ok then [] else AllocEvents(m, d, v, cur) + RegionEvents(AllocPage(m, d, v), d, v + 1, end, cur)
  }

  ghost function StoreEvents(m: Phys, d: nat, a: nat, bs: seq<Byte>): seq<Event>
    requires Shape(m) && d < |m.pages|
    decreases |bs|
  {
    if bs == [] || !m.ok then []
    else
      var m1 := StoreByte(m, d, a % TWO32, bs[0]);
      [Mem(m1.frames)] + StoreEvents(m1, d, a + 1, bs[1..])
  }

  ghost function SegmentEvents(m: Phys, d: nat, file: seq<Byte>, s: Segment, cur: Option<nat>): seq<Event>
    requires Shape(m) && d < |m.pages| && InFile(s, file)
  {
    if !s.load then []
    else
      var m1 := RegionAlloc(m, d, s.va, s.memsz);
      var m2 := StoreBytes(m1, d, s.va, FileBytes(s, file));
      RegionEvents(m, d, FirstPage(s.va), EndPage(s.va, s.memsz), cur)
      + (StoreEvents(m1, d, s.va, FileBytes(s, file)) + StoreEvents(m2, d, s.va + s.filesz, Zeros(s)))
  }

  ghost function SegmentsEvents(m: Phys, d: nat, file: seq<Byte>, segs: seq<Segment>, cur: Option<nat>): seq<Event>
    requires Shape(m) && d < |m.pages| && forall s <- segs :: InFile(s, file)
    decreases |segs|
  {
    if segs == [] then []
    else
      SegmentEvents(m, d, file, segs[0], cur) + SegmentsEvents(LoadSegment(m, d, file, segs[0]), d, file, segs[1..], cur)
  }

  ghost function LoadIcodeEvents(m: Phys, d: nat, kern: nat, file: seq<Byte>, segs: seq<Segment>, cur: Option<nat>): seq<Event>
    requires Shape(m) && d < |m.pages| && forall s <- segs :: InFile(s, file)
  {
    ([LoadCr3(d)] + SegmentsEvents(m, d, file, segs, cur))
    + ([LoadCr3(kern)] + RegionEvents(LoadSegments(m, d, file, segs), d, STACKPAGE, STACKPAGE + 1, cur))
  }

  // ------------------------------------------------------ joining sequences

  /** The TLB is consistent after each event, not only after the last. */
  ghost predicate SafeAlong(f: seq<Frame>, c: Cpu, es: seq<Event>) {
    forall k :: 0 <= k <= |es| ==> Safe(f, c, es[..k])
  }

  /** The events are safe all along from memory f with CR3 at d, load no CR3, and leave memory g. */
  ghost predicate Leads(f: seq<Frame>, d: nat, es: seq<Event>, g: seq<Frame>) {
    && NoLoad(es) && Last(f, es) == g
    && forall c: Cpu :: c.cr3 == d && Consistent(f, c) ==> SafeAlong(f, c, es)
  }

  lemma LeadsJoin(f: seq<Frame>, g: seq<Frame>, h: seq<Frame>, d: nat, e1: seq<Event>, e2: seq<Event>)
    requires Leads(f, d, e1, g) && Leads(g, d, e2, h)
    ensures Leads(f, d, e1 + e2, h)
  {
    hide Safe, Consistent, SafeAlong;
    LastJoin(f, e1, e2);
    forall c: Cpu | c.cr3 == d && Consistent(f, c) ensures SafeAlong(f, c, e1 + e2) {
      JoinAlong(f, c, e1, e2);
    }
  }

  lemma JoinAlong(f: seq<Frame>, c: Cpu, e1: seq<Event>, e2: seq<Event>)
    requires SafeAlong(f, c, e1) && NoLoad(e1)
    requires forall mid: Cpu :: mid.cr3 == c.cr3 && Consistent(Last(f, e1), mid) ==> SafeAlong(Last(f, e1), mid, e2)
    ensures SafeAlong(f, c, e1 + e2)
  {
    hide Safe, Consistent, Last;
    WholeAlong(f, c, e1);
    forall k | 0 <= k <= |e1 + e2| ensures Safe(f, c, (e1 + e2)[..k]) {
      if k <= |e1| {
        assert (e1 + e2)[..k] == e1[..k];
      } else {
        var n := k - |e1|;
        assert (e1 + e2)[..k] == e1 + e2[..n];
        forall mid: Cpu | mid.cr3 == c.cr3 && Consistent(Last(f, e1), mid) ensures Safe(Last(f, e1), mid, e2[..n]) {
          assert SafeAlong(Last(f, e1), mid, e2);
        }
        SafeThen(f, c, e1, e2[..n]);
      }
    }
  }

  lemma WholeAlong(f: seq<Frame>, c: Cpu, es: seq<Event>)
    requires SafeAlong(f, c, es)
    ensures Safe(f, c, es)
  {
    assert es[..|es|] == es;
  }

  lemma LeadsNowhere(f: seq<Frame>, d: nat)
    requires FramesShape(f) && d < |f|
    ensures Leads(f, d, [], f)
  {
    hide Safe;
    forall c: Cpu | c.cr3 == d && Consistent(f, c) ensures SafeAlong(f, c, []) {
      NothingIsSafe(f, c);
      var none: seq<Event> := [];
      assert none[..0] == none;
    }
  }

  // --------------------------------------------------------- region_alloc

  /** Where nothing was mapped there is nothing to flush, so curenv does not matter. */
  lemma UnmappedEvents(m: Phys, w: World, d: nat, pp: nat, i: nat, j: nat, perm: bv12, cur: Option<nat>)
    requires InsertArgs(m, w, d, pp, i, j) && d in w.lay.dirs && Translate(m.frames, d, i, j).None?
    ensures d < |m.pages|
    ensures var (m1, pt) := PgdirWalk(m, d, i, true);
            InsertEvents(m, d, pp, i, j, perm, cur) ==
            if pt.Null? then [] else [Mem(m1.frames), Mem(PageInsert(m, d, pp, i, j, perm).0.frames)]
  {
    hide Structure, FreeList, Counts, PgdirWalk, PageInsert, Translate, PageLookup;
    RootInRange(m, w, d);
    WalkCreates(m, w, d, i);
    var (m1, pt) := PgdirWalk(m, d, i, true);
    if pt.Ptr? {
      TranslateAfterWalk(m, w, d, i, d, i, j);
      var w1 := WalkWorld(m, w, d, i);
      RemoveEventsSame(m1, w1, d, i, j, pp, cur);
      LookupIsTranslate(m1, w1, d, i, j);
    }
  }

  /** Inserting at an unmapped page keeps the TLB consistent at every step. */
  lemma InsertLeads(m: Phys, w: World, c: nat, d: nat, pp: nat, i: nat, j: nat, perm: bv12, cur: Option<nat>)
    requires InsertArgs(m, w, d, pp, i, j) && d in w.lay.dirs && Translate(m.frames, d, i, j).None? && Root(w.lay, c)
    ensures d < |m.pages| && Leads(m.frames, c, InsertEvents(m, d, pp, i, j, perm, cur), PageInsert(m, d, pp, i, j, perm).0.frames)
  {
    hide Structure, FreeList, Counts, PgdirWalk, PageInsert, Translate, InsertEvents, Safe, Consistent, Last;
    RootInRange(m, w, c);
    UnmappedEvents(m, w, d, pp, i, j, perm, cur);
    UnmappedEvents(m, w, d, pp, i, j, perm, None);
    InsertFrames(m, w, d, pp, i, j, perm);
    var (m1, pt) := PgdirWalk(m, d, i, true);
    var g := PageInsert(m, d, pp, i, j, perm).0.frames;
    if pt.Null? {
      LeadsNowhere(m.frames, c);
    } else {
      LastOfTwo(m.frames, m1.frames, g);
      WalkAgrees(m, w, d, i, c);
      forall k: Cpu | k.cr3 == c && Consistent(m.frames, k) ensures SafeAlong(m.frames, k, [Mem(m1.frames), Mem(g)]) {
        NothingIsSafe(m.frames, k);
        QuietStepIsSafe(m.frames, m1.frames, k);
        InsertIsSafe(m, w, k, None, d, pp, i, j, perm);
        TwoAlong(m.frames, k, m1.frames, g);
      }
    }
  }

  lemma TwoAlong(f: seq<Frame>, c: Cpu, g: seq<Frame>, h: seq<Frame>)
    requires Safe(f, c, []) && Safe(f, c, [Mem(g)]) && Safe(f, c, [Mem(g), Mem(h)])
    ensures SafeAlong(f, c, [Mem(g), Mem(h)])
  {
    hide Safe;
    var es := [Mem(g), Mem(h)];
    assert es[..0] == [] && es[..1] == [Mem(g)] && es[..2] == es;
  }

  lemma LastOfTwo(f: seq<Frame>, g: seq<Frame>, h: seq<Frame>)
    ensures Last(f, [Mem(g), Mem(h)]) == h
  {
    assert [Mem(g), Mem(h)][1..] == [Mem(h)];
    LastOfOne(g, h);
  }

  /** One round of region_alloc keeps the TLB consistent, with any directory in CR3 and any amount of memory. */
  lemma AllocLeads(m: Phys, w: World, c: nat, cur: Option<nat>, d: nat, v: nat)
    requires Inv(m, w) && d in w.lay.dirs && v < USERPAGES && d < |m.frames| && At(m.frames, d, v).None? && Root(w.lay, c)
    ensures Leads(m.frames, c, AllocEvents(m, d, v, cur), AllocPage(m, d, v).frames)
  {
    hide Structure, Counts, PageInsert, PageAlloc, Translate, InsertEvents, Refs, Leads;
    PrimitiveSteps.AllocStep(m, w, false);
    RootInRange(m, w, c);
    if w.free == [] {
      LeadsNowhere(m.frames, c);
    } else {
      AllocArgs(m, w, d, v);
      InsertLeads(PageAlloc(m, false).0, w.(free := w.free[1..]), c, d, w.free[0], v / NPTENTRIES % NPTENTRIES,
                  v % NPTENTRIES, 6, cur);
    }
  }

  lemma {:induction false} RegionLeads(m: Phys, w: World, c: nat, cur: Option<nat>, d: nat, v: nat, end: nat)
    requires Space(m, w, d) && v <= end <= USERPAGES && d < |m.frames| && |w.free| >= Need(Have(m.frames, d), v, end)
    requires (forall x: nat :: v <= x < end ==> At(m.frames, d, x).None?) && Root(w.lay, c)
    ensures Leads(m.frames, c, RegionEvents(m, d, v, end, cur), AllocPages(m, d, v, end).frames)
    decreases end - v
  {
    hide Structure, FreeList, Counts, Refs, At, AllocPage, Private, Grown, Need, Have, SlotsOf, AllocEvents, Leads;
    RootInRange(m, w, c);
    if v == end {
      LeadsNowhere(m.frames, c);
    } else {
      AllocLeads(m, w, c, cur, d, v);
      NeedStep(Have(m.frames, d), v, end);
      var w1 := AllocSpace(m, w, d, v);
      var m1 := AllocPage(m, d, v);
      StillUnmapped(m.frames, m1.frames, w.lay, d, v, end);
      RegionLeads(m1, w1, c, cur, d, v + 1, end);
      LeadsJoin(m.frames, m1.frames, AllocPages(m, d, v, end).frames, c, AllocEvents(m, d, v, cur),
                RegionEvents(m1, d, v + 1, end, cur));
    }
  }

  // --------------------------------------------------------------- stores

  lemma {:induction false} StoresLead(m: Phys, w: World, d: nat, a: nat, bs: seq<Byte>)
    requires Space(m, w, d) && d < |m.frames| && a + |bs| <= UTOP
    requires forall b: nat :: a <= b < a + |bs| ==> Loaded(m.frames, d, b / PGSIZE)
    ensures Leads(m.frames, d, StoreEvents(m, d, a, bs), StoreBytes(m, d, a, bs).frames)
    decreases |bs|
  {
    hide Structure, FreeList, Counts, At, StoreByte, Private, ReadByte, Leads;
    if bs == [] {
      LeadsNowhere(m.frames, d);
    } else {
      assert Loaded(m.frames, d, a / PGSIZE);
      StoreByteKeeps(m, w, d, a, bs[0]);
      var m1 := StoreByte(m, d, a, bs[0]);
      forall b: nat | a + 1 <= b < a + |bs| ensures Loaded(m1.frames, d, b / PGSIZE) {
        assert Loaded(m.frames, d, b / PGSIZE);
      }
      StoresLead(m1, w, d, a + 1, bs[1..]);
      QuietLeads(m.frames, m1.frames, w.lay, d);
      LeadsJoin(m.frames, m1.frames, StoreBytes(m, d, a, bs).frames, d, [Mem(m1.frames)], StoreEvents(m1, d, a + 1, bs[1..]));
    }
  }

  lemma QuietLeads(f: seq<Frame>, g: seq<Frame>, l: Layout, d: nat)
    requires FramesShape(f) && FramesShape(g) && Root(l, d) && d < |f| == |g|
    requires forall d': nat, x: nat :: Root(l, d') && d' < |f| && x < USERPAGES ==> At(g, d', x) == At(f, d', x)
    ensures Leads(f, d, [Mem(g)], g)
  {
    hide Safe, Translate;
    LastOfOne(f, g);
    assert Agree(f, g, d, {}) by {
      forall v: Slot | BelowUtop(v) ensures Translate(g, d, v.0, v.1) == Translate(f, d, v.0, v.1) {
        var x := v.0 * NPTENTRIES + v.1;
        assert x / NPTENTRIES % NPTENTRIES == v.0 && x % NPTENTRIES == v.1;
        assert At(g, d, x) == At(f, d, x);
      }
    }
    forall c: Cpu | c.cr3 == d && Consistent(f, c) ensures SafeAlong(f, c, [Mem(g)]) {
      NothingIsSafe(f, c);
      QuietStepIsSafe(f, g, c);
      assert [Mem(g)][..0] == [] && [Mem(g)][..1] == [Mem(g)];
    }
  }

  // ------------------------------------------------------------- segments

  /** Loading a segment through its own directory keeps the TLB consistent before and after every store. */
  lemma SegmentLeads(m: Phys, w: World, d: nat, file: seq<Byte>, s: Segment, cur: Option<nat>)
    requires Space(m, w, d) && d < |m.frames| && InFile(s, file) && (s.load ==> SegmentOk(s, file))
    requires |w.free| >= SegmentNeed(Have(m.frames, d), s)
    requires forall x: nat :: InPages(s, x) ==> At(m.frames, d, x).None?
    ensures Leads(m.frames, d, SegmentEvents(m, d, file, s, cur), LoadSegment(m, d, file, s).frames)
  {
    hide Structure, FreeList, Counts, Private, At, AllocPages, StoreBytes, FirstPage, EndPage, Grown, Stored, SlotsOf, Leads,
         RegionEvents, StoreEvents, Have;
    if !s.load {
      LeadsNowhere(m.frames, d);
    } else {
      SegmentPages(s, file);
      var v, end := FirstPage(s.va), EndPage(s.va, s.memsz);
      RegionLeads(m, w, d, cur, d, v, end);
      var w' := AllocPagesSpace(m, w, d, v, end);
      var m1 := RegionAlloc(m, d, s.va, s.memsz);
      RegionBytes(m.frames, m1.frames, w.lay, d, file, s);
      StoresLead(m1, w', d, s.va, FileBytes(s, file));
      StoreBytesSpace(m1, w', d, s.va, FileBytes(s, file));
      var m2 := StoreBytes(m1, d, s.va, FileBytes(s, file));
      StillLoaded(m1.frames, m2.frames, w'.lay, d, file, s);
      StoresLead(m2, w', d, s.va + s.filesz, Zeros(s));
      var m3 := StoreBytes(m2, d, s.va + s.filesz, Zeros(s));
      var e2, e3 := StoreEvents(m1, d, s.va, FileBytes(s, file)), StoreEvents(m2, d, s.va + s.filesz, Zeros(s));
      LeadsJoin(m1.frames, m2.frames, m3.frames, d, e2, e3);
      LeadsJoin(m.frames, m1.frames, m3.frames, d, RegionEvents(m, d, v, end, cur), e2 + e3);
    }
  }

  lemma {:induction false} SegmentsLead(m: Phys, w: World, d: nat, file: seq<Byte>, segs: seq<Segment>, cur: Option<nat>)
    requires Space(m, w, d) && d < |m.frames| && SegmentsOk(segs, file)
    requires |w.free| >= TotalNeed(Have(m.frames, d), segs)
    requires forall x: nat :: x < USERPAGES && InAny(segs, x) ==> At(m.frames, d, x).None?
    ensures Leads(m.frames, d, SegmentsEvents(m, d, file, segs, cur), LoadSegments(m, d, file, segs).frames)
    decreases |segs|
  {
    hide Structure, FreeList, Counts, Private, At, LoadSegment, Kept, SegmentLoaded, InAny, InPages, SegmentOk, Have, TotalNeed,
         SegmentNeed, SlotsOfSegment, Leads, SegmentEvents;
    if segs == [] {
      LeadsNowhere(m.frames, d);
    } else {
      var s, rest := segs[0], segs[1..];
      Disjoint(segs, file);
      TotalNeedStep(Have(m.frames, d), segs);
      NeedPositive(Have(m.frames, d) + SlotsOfSegment(s), rest, file);
      FirstUnmapped(m.frames, d, file, segs);
      SegmentLeads(m, w, d, file, s, cur);
      var w1 := LoadSegmentSpace(m, w, d, file, s);
      var m1 := LoadSegment(m, d, file, s);
      RestUnmapped(m.frames, m1.frames, w, d, file, segs);
      SegmentsLead(m1, w1, d, file, rest, cur);
      LeadsJoin(m.frames, m1.frames, LoadSegments(m1, d, file, rest).frames, d, SegmentEvents(m, d, file, s, cur),
                SegmentsEvents(m1, d, file, rest, cur));
    }
  }

  // ----------------------------------------------------------- load_icode

  /** Whatever the TLB held, loading CR3 and going on safely is safe. */
  lemma LoadThen(f: seq<Frame>, g: seq<Frame>, c: Cpu, d: nat, es: seq<Event>)
    requires NoLoad(es) && Last(f, es) == g && forall k: Cpu :: k.cr3 == d && Consistent(f, k) ==> Safe(f, k, es)
    ensures Safe(f, c, [LoadCr3(d)] + es) && Last(f, [LoadCr3(d)] + es) == g
    ensures forall c' :: Reaches(f, c, [LoadCr3(d)] + es, c') ==> c'.cr3 == d
  {
    hide Reaches, Last, Consistent;
    var load := [LoadCr3(d)];
    LoadIsSafe(f, c, d);
    LoadWritesNothing(f, d);
    LastJoin(f, load, es);
    forall c' | Reaches(f, c, load + es, c') ensures Consistent(g, c') && c'.cr3 == d {
      var mid := ReachesSplit(f, c, load, es, c');
      assert Safe(f, mid, es);
      assert es + [] == es;
      var last := ReachesSplit(f, mid, es, [], c');
      EmptyReach(Last(f, es), last, c');
    }
  }

  /** A second load of CR3 forgets the first part altogether. */
  lemma LoadAgain(f: seq<Frame>, g: seq<Frame>, h: seq<Frame>, c: Cpu, e1: seq<Event>, d: nat, es: seq<Event>)
    requires Last(f, e1) == g && NoLoad(es) && Last(g, es) == h
    requires forall k: Cpu :: k.cr3 == d && Consistent(g, k) ==> Safe(g, k, es)
    ensures Safe(f, c, e1 + ([LoadCr3(d)] + es)) && Last(f, e1 + ([LoadCr3(d)] + es)) == h
    ensures forall c' :: Reaches(f, c, e1 + ([LoadCr3(d)] + es), c') ==> c'.cr3 == d
  {
    hide Reaches, Last, Consistent;
    var tail := [LoadCr3(d)] + es;
    LastJoin(f, e1, tail);
    LoadThen(g, h, c, d, es);
    forall c' | Reaches(f, c, e1 + tail, c') ensures Consistent(h, c') && c'.cr3 == d {
      var mid := ReachesSplit(f, c, e1, tail, c');
      LoadThen(g, h, mid, d, es);
    }
  }

  lemma LeadsSafely(f: seq<Frame>, g: seq<Frame>, d: nat, es: seq<Event>)
    requires Leads(f, d, es, g)
    ensures NoLoad(es) && Last(f, es) == g && forall k: Cpu :: k.cr3 == d && Consistent(f, k) ==> Safe(f, k, es)
  {
    hide Safe, SafeAlong, Consistent;
    forall k: Cpu | k.cr3 == d && Consistent(f, k) ensures Safe(f, k, es) {
      WholeAlong(f, k, es);
    }
  }

  /** The loading proper, after the first load of CR3: safe after each of its events. */
  lemma LoadThenAlong(f: seq<Frame>, g: seq<Frame>, c: Cpu, d: nat, es: seq<Event>, k: nat)
    requires Leads(f, d, es, g) && k <= |es|
    ensures Safe(f, c, [LoadCr3(d)] + es[..k])
    ensures forall c' :: Reaches(f, c, [LoadCr3(d)] + es[..k], c') ==> c'.cr3 == d
  {
    hide Safe, Consistent, Last, Reaches;
    forall q: Cpu | q.cr3 == d && Consistent(f, q) ensures Safe(f, q, es[..k]) {
      assert SafeAlong(f, q, es);
    }
    LoadThen(f, Last(f, es[..k]), c, d, es[..k]);
  }

  /**
   Whenever load_icode returns: with the new directory in CR3 the TLB was consistent throughout the loading,
   so that every store went where the page tables say; and at the return, after CR3 has moved to kern_pgdir
   and the stack page has been inserted, the TLB is consistent again, whatever it held at the call.
   */
  lemma LoadIcodeIsSafe(m: Phys, w: World, c: Cpu, cur: Option<nat>, d: nat, file: seq<Byte>, segs: seq<Segment>)
    requires Inv(m, w) && d in w.lay.dirs && d < |m.frames| && UserMap(m.frames, d) == map[]
    requires SegmentsOk(segs, file) && !InAny(segs, STACKPAGE) && LoadIcode(m, d, file, segs).ok
    ensures forall k: nat :: 1 <= k <= |SegmentsEvents(m, d, file, segs, cur)| + 1 ==>
              var es := LoadIcodeEvents(m, d, w.lay.kern, file, segs, cur)[..k];
              Safe(m.frames, c, es) && forall c' :: Reaches(m.frames, c, es, c') ==> c'.cr3 == d
    ensures var es := LoadIcodeEvents(m, d, w.lay.kern, file, segs, cur);
            && Safe(m.frames, c, es) && Last(m.frames, es) == LoadIcode(m, d, file, segs).frames
            && forall c' :: Reaches(m.frames, c, es, c') ==> c'.cr3 == w.lay.kern
  {
    hide Structure, FreeList, Counts, At, LoadSegments, AllocPages, SegmentLoaded, InAny, InPages, SegmentOk, Refs, Have,
         TotalNeed, Need, SlotsOf, AllSlotsOf, Kept, AllLoaded, Safe, Reaches, Last, Leads, SegmentsEvents, RegionEvents, Private;
    FreshSpace(m, w, d);
    LoadIcodeExact(m, w, d, file, segs);
    SegmentsLead(m, w, d, file, segs, cur);
    var w1 := LoadSegmentsSpace(m, w, d, file, segs);
    var m1 := LoadSegments(m, d, file, segs);
    var first := SegmentsEvents(m, d, file, segs, cur);
    forall k: nat | 1 <= k <= |first| + 1
      ensures var es := LoadIcodeEvents(m, d, w.lay.kern, file, segs, cur)[..k];
              Safe(m.frames, c, es) && forall c' :: Reaches(m.frames, c, es, c') ==> c'.cr3 == d
    {
      LoadThenAlong(m.frames, m1.frames, c, d, first, k - 1);
      assert LoadIcodeEvents(m, d, w.lay.kern, file, segs, cur)[..k] == [LoadCr3(d)] + first[..k - 1];
    }
    LeadsSafely(m.frames, m1.frames, d, first);
    LoadWritesNothing(m.frames, d);
    LastJoin(m.frames, [LoadCr3(d)], first);
    StackPages(STACKPAGE);
    StackStillUnmapped(m.frames, m1.frames, w.lay, d, segs);
    StackLeads(m1, w1, w.lay.kern, cur, d);
    LeadsSafely(m1.frames, LoadIcode(m, d, file, segs).frames, w.lay.kern, RegionEvents(m1, d, STACKPAGE, STACKPAGE + 1, cur));
    LoadAgain(m.frames, m1.frames, LoadIcode(m, d, file, segs).frames, c, [LoadCr3(d)] + first, w.lay.kern,
              RegionEvents(m1, d, STACKPAGE, STACKPAGE + 1, cur));
  }

  lemma FreshSpace(m: Phys, w: World, d: nat)
    requires Inv(m, w) && d in w.lay.dirs && d < |m.frames| && UserMap(m.frames, d) == map[]
    ensures Space(m, w, d) && forall x: nat :: x < USERPAGES ==> At(m.frames, d, x).None?
  {
    hide Structure, FreeList, Counts, At;
    FreshUnmapped(m.frames, d);
  }

  lemma StackLeads(m: Phys, w: World, c: nat, cur: Option<nat>, d: nat)
    requires Inv(m, w) && d in w.lay.dirs && d < |m.frames| && At(m.frames, d, STACKPAGE).None? && Root(w.lay, c)
    ensures Leads(m.frames, c, RegionEvents(m, d, STACKPAGE, STACKPAGE + 1, cur),
                  AllocPages(m, d, STACKPAGE, STACKPAGE + 1).frames)
  {
    hide Structure, FreeList, Counts, Refs, At, AllocPage, AllocEvents, Leads;
    StackPages(STACKPAGE);
    AllocLeads(m, w, c, cur, d, STACKPAGE);
    var m1 := AllocPage(m, d, STACKPAGE);
    assert RegionEvents(m1, d, STACKPAGE + 1, STACKPAGE + 1, cur) == [];
    assert AllocEvents(m, d, STACKPAGE, cur) + [] == AllocEvents(m, d, STACKPAGE, cur);
    assert AllocPages(m1, d, STACKPAGE + 1, STACKPAGE + 1) == m1;
  }
}
