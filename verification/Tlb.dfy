/**
 The translation lookaside buffer of one CPU (Intel SDM volume 3A, section 4.10): the hardware may cache
 or drop translations between any two kernel instructions.  tlb_invalidate and the loads of CR3 keep the
 cached user translations equal to the tables whenever the kernel returns.
 */
module Tlb {
  import opened Mmu
  import opened Pmap
  import opened Ownership
  import opened PageOps
  import opened Teardown

  /** The directory in CR3 and the cached entries, by virtual page. */
  datatype Cpu = Cpu(cr3: nat, tlb: map<Slot, Word>)

  /** What kernel code does that the hardware can see: change memory, flush one page, or reload CR3. */
  datatype Event = Mem(frames: seq<Frame>) | Invlpg(page: Slot) | LoadCr3(dir: nat)

  ghost predicate Maps(f: seq<Frame>, d: nat, v: Slot, e: Word) {
    FramesShape(f) && d < |f| && v.0 < NPTENTRIES && v.1 < NPTENTRIES && Translate(f, d, v.0, v.1) == Some(e)
  }

  ghost predicate BelowUtop(v: Slot) { v.0 < UTOPX && v.1 < NPTENTRIES }

  /** Every cached user translation is the one the tables give. */
  ghost predicate Consistent(f: seq<Frame>, c: Cpu) { ConsistentBut(f, c, {}) }

  ghost predicate ConsistentBut(f: seq<Frame>, c: Cpu, stale: set<Slot>) {
    forall v :: v in c.tlb && BelowUtop(v) && v !in stale ==> Maps(f, c.cr3, v, c.tlb[v])
  }

  /** The hardware on its own: entries may vanish, and any present translation may be cached. */
  ghost predicate HardwareStep(f: seq<Frame>, c: Cpu, c': Cpu) {
    c'.cr3 == c.cr3 && forall v :: v in c'.tlb ==> (v in c.tlb && c'.tlb[v] == c.tlb[v]) || Maps(f, c.cr3, v, c'.tlb[v])
  }

  ghost function After(f: seq<Frame>, e: Event): seq<Frame> { if e.Mem? then e.frames else f }

  ghost function Apply(c: Cpu, e: Event): Cpu {
    match e
    case Mem(_) => c
    case Invlpg(v) => c.(tlb := c.tlb - {v})
    case LoadCr3(d) => Cpu(d, map[])
  }

  ghost function Last(f: seq<Frame>, es: seq<Event>): seq<Frame>
    decreases |es|
  {
    if es == [] then f else Last(After(f, es[0]), es[1..])
  }

  /** c' is a possible CPU state after the events, with the hardware acting before, between and after them. */
  ghost predicate Reaches(f: seq<Frame>, c: Cpu, es: seq<Event>, c': Cpu)
    decreases |es|
  {
    if es == [] then HardwareStep(f, c, c')
    else exists c1 :: HardwareStep(f, c, c1) && Reaches(After(f, es[0]), Apply(c1, es[0]), es[1..], c')
  }

  /** The events leave the TLB consistent, whatever the hardware does meanwhile. */
  ghost predicate Safe(f: seq<Frame>, c: Cpu, es: seq<Event>) {
    forall c' :: Reaches(f, c, es, c') ==> Consistent(Last(f, es), c')
  }

  /** At any moment the hardware may cache any translation the tables give, or forget all it has. */
  lemma HardwareMay(f: seq<Frame>, c: Cpu, v: Slot, e: Word)
    ensures Maps(f, c.cr3, v, e) ==> HardwareStep(f, c, c.(tlb := c.tlb[v := e]))
    ensures HardwareStep(f, c, c.(tlb := map[]))
  {
  }

  lemma HardwareKeeps(f: seq<Frame>, c: Cpu, c': Cpu, stale: set<Slot>)
    requires ConsistentBut(f, c, stale) && HardwareStep(f, c, c')
    ensures ConsistentBut(f, c', stale)
  {
  }

  /** The two tables agree on directory d's user pages, except perhaps on those in `but`. */
  ghost predicate Agree(f: seq<Frame>, g: seq<Frame>, d: nat, but: set<Slot>) {
    && FramesShape(f) && FramesShape(g) && d < |f| && d < |g|
    && forall v: Slot :: BelowUtop(v) && v !in but ==> Translate(g, d, v.0, v.1) == Translate(f, d, v.0, v.1)
  }

  /** Events that never reload CR3 and never change the current directory's user translations. */
  ghost predicate Quiet(f: seq<Frame>, d: nat, es: seq<Event>) {
    forall k :: 0 <= k < |es| ==> !es[k].LoadCr3? && (es[k].Mem? ==> Agree(f, es[k].frames, d, {}))
  }

  lemma {:induction false} QuietIsSafe(f0: seq<Frame>, f: seq<Frame>, c: Cpu, es: seq<Event>)
    requires Consistent(f, c) && Agree(f0, f, c.cr3, {}) && Quiet(f0, c.cr3, es)
    ensures Safe(f, c, es)
    decreases |es|
  {
    forall c' | Reaches(f, c, es, c') ensures Consistent(Last(f, es), c') {
      if es == [] {
        HardwareKeeps(f, c, c', {});
      } else {
        var c1 :| HardwareStep(f, c, c1) && Reaches(After(f, es[0]), Apply(c1, es[0]), es[1..], c');
        HardwareKeeps(f, c, c1, {});
        QuietIsSafe(f0, After(f, es[0]), Apply(c1, es[0]), es[1..]);
      }
    }
  }

  // --------------------------------------------------------------- page_remove

  /** page_remove clears the entry, drops the reference, and flushes if tlb_invalidate's test passes. */
  ghost function RemoveEvents(m: Phys, d: nat, i: nat, j: nat, cur: Option<nat>): seq<Event>
    requires Shape(m) && d < |m.pages| && i < NPTENTRIES && j < NPTENTRIES
  {
    if !PageLookup(m, d, i, j).Mapped? then []
    else [Mem(PageRemove(m, d, i, j).frames)] + if cur == None || cur == Some(d) then [Invlpg((i, j))] else []
  }

  /** tlb_invalidate's test is right when CR3 holds d only if no environment, or d's own, is current. */
  ghost predicate Covered(c: Cpu, cur: Option<nat>, d: nat) { cur == None || cur == Some(d) || c.cr3 != d }

  lemma RemoveAgrees(m: Phys, w: World, d: nat, i: nat, j: nat, d': nat)
    requires UserArgs(m, w, d, i, j) && Root(w.lay, d')
    ensures Agree(m.frames, PageRemove(m, d, i, j).frames, d', if d' == d then {(i, j)} else {})
    ensures Translate(PageRemove(m, d, i, j).frames, d, i, j) == None
  {
    RemoveRefines(m, w, d, i, j);
  }

  /** One page of the current directory is being changed and will be flushed. */
  lemma FlushedIsSafe(f: seq<Frame>, g: seq<Frame>, c: Cpu, v: Slot)
    requires Consistent(f, c) && Agree(f, g, c.cr3, {v})
    ensures Safe(f, c, [Mem(g), Invlpg(v)])
  {
    var es := [Mem(g), Invlpg(v)];
    forall c' | Reaches(f, c, es, c') ensures Consistent(Last(f, es), c') {
      var c1 :| HardwareStep(f, c, c1) && Reaches(g, c1, es[1..], c');
      HardwareKeeps(f, c, c1, {});
      assert ConsistentBut(g, c1, {v});
      var c2 :| HardwareStep(g, c1, c2) && Reaches(g, Apply(c2, es[1..][0]), es[1..][1..], c');
      HardwareKeeps(g, c1, c2, {v});
      assert es[1..][1..] == [];
      HardwareKeeps(g, Apply(c2, Invlpg(v)), c', {});
      assert Last(g, es[1..]) == g;
    }
  }

  lemma RemoveIsSafe(m: Phys, w: World, c: Cpu, cur: Option<nat>, d: nat, i: nat, j: nat)
    requires UserArgs(m, w, d, i, j) && Root(w.lay, c.cr3) && Consistent(m.frames, c) && Covered(c, cur, d)
    ensures Safe(m.frames, c, RemoveEvents(m, d, i, j, cur))
  {
    hide Structure, FreeList, Counts, PageRemove, PageLookup, Agree, Safe, Consistent;
    RootInRange(m, w, c.cr3);
    RootInRange(m, w, d);
    var es := RemoveEvents(m, d, i, j, cur);
    RemoveAgrees(m, w, d, i, j, c.cr3);
    SelfAgrees(m.frames, c.cr3);
    if c.cr3 != d || es == [] {
      QuietIsSafe(m.frames, m.frames, c, es);
    } else {
      var g := PageRemove(m, d, i, j).frames;
      assert es == [Mem(g), Invlpg((i, j))];
      FlushedIsSafe(m.frames, g, c, (i, j));
    }
  }

  lemma SelfAgrees(f: seq<Frame>, d: nat)
    requires FramesShape(f) && d < |f|
    ensures Agree(f, f, d, {})
  {
  }

  /** Without the flush a cached translation of the removed page survives: the test is exactly what is needed. */
  lemma RemoveUncovered(m: Phys, w: World, c: Cpu, cur: Option<nat>, d: nat, i: nat, j: nat)
    requires UserArgs(m, w, d, i, j) && Root(w.lay, c.cr3) && Consistent(m.frames, c) && (i, j) in c.tlb
    ensures Safe(m.frames, c, RemoveEvents(m, d, i, j, cur)) <==> Covered(c, cur, d)
  {
    if Covered(c, cur, d) {
      RemoveIsSafe(m, w, c, cur, d, i, j);
    } else {
      RemoveAgrees(m, w, d, i, j, d);
      LookupIsTranslate(m, w, d, i, j);
      var g := PageRemove(m, d, i, j).frames;
      assert RemoveEvents(m, d, i, j, cur) == [Mem(g)];
      hide Structure, FreeList, Counts, PageRemove, RemoveEvents;
      StaleSurvives(m.frames, g, c, (i, j));
    }
  }

  /** A change of memory alone leaves what the TLB holds. */
  lemma StaleSurvives(f: seq<Frame>, g: seq<Frame>, c: Cpu, v: Slot)
    requires FramesShape(g) && c.cr3 < |g| && BelowUtop(v) && v in c.tlb && Translate(g, c.cr3, v.0, v.1) == None
    ensures !Safe(f, c, [Mem(g)])
  {
    hide Translate;
    var es := [Mem(g)];
    assert es[1..] == [];
    assert HardwareStep(f, c, c) && HardwareStep(g, c, c);
    assert Reaches(g, Apply(c, es[0]), es[1..], c);
    assert Reaches(f, c, es, c);
    assert Last(f, es) == g by { assert Last(g, []) == g; }
    assert !Consistent(g, c);
  }

  // ------------------------------------------------------ sequences of events

  ghost predicate NoLoad(es: seq<Event>) { forall k :: 0 <= k < |es| ==> !es[k].LoadCr3? }

  /** A run of es1 + es2 passes through a state between the two. */
  lemma {:induction false} ReachesSplit(f: seq<Frame>, c: Cpu, es1: seq<Event>, es2: seq<Event>, c': Cpu)
      returns (mid: Cpu)
    requires Reaches(f, c, es1 + es2, c')
    ensures Reaches(f, c, es1, mid) && Reaches(Last(f, es1), mid, es2, c')
    ensures NoLoad(es1) ==> mid.cr3 == c.cr3
    ensures Last(f, es1 + es2) == Last(Last(f, es1), es2)
    decreases |es1|
  {
    if es1 == [] {
      mid := c;
      assert es1 + es2 == es2;
    } else {
      var es := es1 + es2;
      assert es[0] == es1[0] && es[1..] == es1[1..] + es2;
      var c1 :| HardwareStep(f, c, c1) && Reaches(After(f, es[0]), Apply(c1, es[0]), es[1..], c');
      mid := ReachesSplit(After(f, es1[0]), Apply(c1, es1[0]), es1[1..], es2, c');
    }
  }

  /** A load of CR3 makes the TLB consistent whatever it held: env_run, load_icode and sched_halt. */
  lemma LoadIsSafe(f: seq<Frame>, c: Cpu, d: nat)
    ensures Safe(f, c, [LoadCr3(d)])
    ensures forall c' :: Reaches(f, c, [LoadCr3(d)], c') ==> c'.cr3 == d
  {
    var es := [LoadCr3(d)];
    assert es[1..] == [];
    forall c' | Reaches(f, c, es, c') ensures Consistent(Last(f, es), c') && c'.cr3 == d {
      var c1 :| HardwareStep(f, c, c1) && Reaches(f, Apply(c1, es[0]), es[1..], c');
      HardwareKeeps(f, Apply(c1, es[0]), c', {});
      assert Last(f, es) == f;
    }
  }

  lemma {:induction false} LastJoin(f: seq<Frame>, e1: seq<Event>, e2: seq<Event>)
    ensures Last(f, e1 + e2) == Last(Last(f, e1), e2)
    decreases |e1|
  {
    if e1 == [] {
      assert e1 + e2 == e2;
    } else {
      assert (e1 + e2)[0] == e1[0] && (e1 + e2)[1..] == e1[1..] + e2;
      LastJoin(After(f, e1[0]), e1[1..], e2);
    }
  }

  lemma LastOfOne(f: seq<Frame>, g: seq<Frame>)
    ensures Last(f, [Mem(g)]) == g
  {
    assert [Mem(g)][1..] == [];
    assert Last(g, []) == g;
  }

  // --------------------------------------------------------------- page_insert

  ghost function InsertEvents(m: Phys, d: nat, pp: nat, i: nat, j: nat, perm: bv12, cur: Option<nat>): seq<Event>
    requires Shape(m) && d < |m.pages| && pp < |m.pages| && i < NPTENTRIES && j < NPTENTRIES
  {
    var (m1, pt) := PgdirWalk(m, d, i, true);
    if pt.Null? then []
    else [Mem(m1.frames)] + RemoveEvents(IncRef(m1, pp), d, i, j, cur) + [Mem(PageInsert(m, d, pp, i, j, perm).0.frames)]
  }

  lemma WalkAgrees(m: Phys, w: World, d: nat, i: nat, d': nat)
    requires Inv(m, w) && Root(w.lay, d) && i < UTOPX && Root(w.lay, d')
    ensures Agree(m.frames, PgdirWalk(m, d, i, true).0.frames, d', {})
  {
    var g := PgdirWalk(m, d, i, true).0.frames;
    WalkCreates(m, w, d, i);
    hide PgdirWalk;
    forall v: Slot | BelowUtop(v) ensures Translate(g, d', v.0, v.1) == Translate(m.frames, d', v.0, v.1) {
      TranslateAfterWalk(m, w, d, i, d', v.0, v.1);
    }
  }

  /** The count does not matter to the events of page_remove. */
  lemma RemoveEventsSame(m: Phys, w: World, d: nat, i: nat, j: nat, pp: nat, cur: Option<nat>)
    requires UserArgs(m, w, d, i, j) && pp < |m.pages| && Present(m.frames[d][i])
    ensures RemoveEvents(IncRef(m, pp), d, i, j, cur) == RemoveEvents(m, d, i, j, cur)
  {
    LookupIsTranslate(m, w, d, i, j);
    assert PageLookup(IncRef(m, pp), d, i, j) == PageLookup(m, d, i, j);
    if PageLookup(m, d, i, j).Mapped? {
      var t := m.frames[d][i].pfn;
      MappedIsNotFree(m, w, t, j);
      RemoveFrames(m, d, i, j, m.frames[t][j].pfn, t);
      RemoveFrames(IncRef(m, pp), d, i, j, m.frames[t][j].pfn, t);
    }
  }

  /** An entry that is absent cannot be cached, so filling it needs no flush. */
  lemma FillIsSafe(f: seq<Frame>, g: seq<Frame>, c: Cpu, d: nat, v: Slot)
    requires Consistent(f, c) && BelowUtop(v)
    requires Agree(f, g, c.cr3, if c.cr3 == d then {v} else {}) && (c.cr3 == d ==> Translate(f, d, v.0, v.1) == None)
    ensures Safe(f, c, [Mem(g)])
  {
    var es := [Mem(g)];
    assert es[1..] == [];
    forall c' | Reaches(f, c, es, c') ensures Consistent(Last(f, es), c') {
      var c1 :| HardwareStep(f, c, c1) && Reaches(g, Apply(c1, es[0]), es[1..], c');
      HardwareKeeps(f, c, c1, {});
      assert Consistent(g, c1);
      HardwareKeeps(g, c1, c', {});
      assert Last(f, es) == g;
    }
  }

  lemma SafeThen(f: seq<Frame>, c: Cpu, e1: seq<Event>, e2: seq<Event>)
    requires Safe(f, c, e1) && NoLoad(e1)
    requires forall mid: Cpu :: mid.cr3 == c.cr3 && Consistent(Last(f, e1), mid) ==> Safe(Last(f, e1), mid, e2)
    ensures Safe(f, c, e1 + e2)
  {
    forall c' | Reaches(f, c, e1 + e2, c') ensures Consistent(Last(f, e1 + e2), c') {
      var mid := ReachesSplit(f, c, e1, e2, c');
    }
  }

  lemma AgreeCompose(f: seq<Frame>, g: seq<Frame>, h: seq<Frame>, d: nat, but: set<Slot>)
    requires Agree(f, g, d, but) && Agree(f, h, d, but)
    ensures Agree(g, h, d, but)
  {
  }

  lemma AgreeThrough(f: seq<Frame>, g: seq<Frame>, h: seq<Frame>, d: nat, but: set<Slot>)
    requires Agree(f, g, d, {}) && Agree(g, h, d, but)
    ensures Agree(f, h, d, but)
  {
  }

  lemma InsertAgrees(m: Phys, w: World, d: nat, pp: nat, i: nat, j: nat, perm: bv12, d': nat)
    requires InsertArgs(m, w, d, pp, i, j) && PageInsert(m, d, pp, i, j, perm).1 == 0 && Root(w.lay, d')
    ensures Agree(m.frames, PageInsert(m, d, pp, i, j, perm).0.frames, d', if d' == d then {(i, j)} else {})
  {
    InsertRefines(m, w, d, pp, i, j, perm);
    var g := PageInsert(m, d, pp, i, j, perm).0.frames;
    hide Structure, FreeList, Counts, PgdirWalk, PageInsert;
    assert d' < |m.frames| by { RootInRange(m, w, d'); }
  }

  /** After the removal, writing the new entry leaves the TLB consistent. */
  lemma RemoveThenFill(m: Phys, w: World, c: Cpu, d: nat, pp: nat, i: nat, j: nat, perm: bv12)
    requires InsertArgs(m, w, d, pp, i, j) && PageInsert(m, d, pp, i, j, perm).1 == 0 && Root(w.lay, c.cr3)
    requires UserArgs(PgdirWalk(m, d, i, true).0, WalkWorld(m, w, d, i), d, i, j)
    requires Consistent(PageRemove(PgdirWalk(m, d, i, true).0, d, i, j).frames, c)
    ensures Safe(PageRemove(PgdirWalk(m, d, i, true).0, d, i, j).frames, c, [Mem(PageInsert(m, d, pp, i, j, perm).0.frames)])
  {
    var m1, w1 := PgdirWalk(m, d, i, true).0, WalkWorld(m, w, d, i);
    var f, g := PageRemove(m1, d, i, j).frames, PageInsert(m, d, pp, i, j, perm).0.frames;
    var but: set<Slot> := if c.cr3 == d then {(i, j)} else {};
    assert Root(w1.lay, c.cr3);
    hide Structure, FreeList, Counts, PgdirWalk, PageInsert, PageRemove, WalkWorld, Agree;
    RemoveAgrees(m1, w1, d, i, j, c.cr3);
    WalkAgrees(m, w, d, i, c.cr3);
    AgreeThrough(m.frames, m1.frames, f, c.cr3, but);
    InsertAgrees(m, w, d, pp, i, j, perm, c.cr3);
    AgreeCompose(m.frames, f, g, c.cr3, but);
    FillIsSafe(f, g, c, d, (i, j));
  }

  lemma RemoveNoLoad(m: Phys, d: nat, i: nat, j: nat, cur: Option<nat>)
    requires Shape(m) && d < |m.pages| && i < NPTENTRIES && j < NPTENTRIES
    ensures NoLoad(RemoveEvents(m, d, i, j, cur))
  {
  }

  lemma WalkKeepsRoots(m: Phys, w: World, d: nat, i: nat, d': nat)
    requires Shape(m) && d < |m.frames| && i < NPTENTRIES && Root(w.lay, d')
    ensures Root(WalkWorld(m, w, d, i).lay, d')
  {
  }

  /** The part of page_insert after pgdir_walk. */
  lemma InsertTailIsSafe(m: Phys, w: World, c: Cpu, cur: Option<nat>, d: nat, pp: nat, i: nat, j: nat, perm: bv12)
    requires InsertArgs(m, w, d, pp, i, j) && PageInsert(m, d, pp, i, j, perm).1 == 0
    requires UserArgs(PgdirWalk(m, d, i, true).0, WalkWorld(m, w, d, i), d, i, j)
    requires Root(w.lay, c.cr3) && Consistent(PgdirWalk(m, d, i, true).0.frames, c) && Covered(c, cur, d)
    ensures Safe(PgdirWalk(m, d, i, true).0.frames, c,
                 RemoveEvents(PgdirWalk(m, d, i, true).0, d, i, j, cur) + [Mem(PageInsert(m, d, pp, i, j, perm).0.frames)])
  {
    RootInRange(m, w, d);
    hide Structure, FreeList, Counts, PgdirWalk, PageInsert, PageRemove, RemoveEvents, WalkWorld, Agree, Reaches, Safe, Last;
    var m1, w1 := PgdirWalk(m, d, i, true).0, WalkWorld(m, w, d, i);
    var e2, e3 := RemoveEvents(m1, d, i, j, cur), [Mem(PageInsert(m, d, pp, i, j, perm).0.frames)];
    RemoveNoLoad(m1, d, i, j, cur);
    WalkKeepsRoots(m, w, d, i, c.cr3);
    LastOfRemove(m1, w1, d, i, j, cur);
    RemoveIsSafe(m1, w1, c, cur, d, i, j);
    forall mid: Cpu | mid.cr3 == c.cr3 && Consistent(Last(m1.frames, e2), mid)
      ensures Safe(Last(m1.frames, e2), mid, e3)
    {
      RemoveThenFill(m, w, mid, d, pp, i, j, perm);
    }
    SafeThen(m1.frames, c, e2, e3);
  }

  /** page_insert keeps the TLB consistent, whatever the hardware caches while it runs. */
  lemma InsertIsSafe(m: Phys, w: World, c: Cpu, cur: Option<nat>, d: nat, pp: nat, i: nat, j: nat, perm: bv12)
    requires InsertArgs(m, w, d, pp, i, j) && Root(w.lay, c.cr3) && Consistent(m.frames, c) && Covered(c, cur, d)
    ensures Safe(m.frames, c, InsertEvents(m, d, pp, i, j, perm, cur))
    ensures Last(m.frames, InsertEvents(m, d, pp, i, j, perm, cur)) == PageInsert(m, d, pp, i, j, perm).0.frames
  {
    hide Structure, FreeList, Counts, PgdirWalk, FillEntry, RemoveEvents, Reaches, Safe, Last, Agree, Quiet;
    LastOfInsert(m, w, d, pp, i, j, perm, cur);
    RootInRange(m, w, c.cr3);
    RootInRange(m, w, d);
    WalkCreates(m, w, d, i);
    var (m1, pt) := PgdirWalk(m, d, i, true);
    var es := InsertEvents(m, d, pp, i, j, perm, cur);
    if pt.Null? {
      NothingIsSafe(m.frames, c);
    } else {
      WalkAgrees(m, w, d, i, c.cr3);
      RemoveEventsSame(m1, WalkWorld(m, w, d, i), d, i, j, pp, cur);
      var rest := RemoveEvents(m1, d, i, j, cur) + [Mem(PageInsert(m, d, pp, i, j, perm).0.frames)];
      assert es == [Mem(m1.frames)] + rest;
      QuietStepIsSafe(m.frames, m1.frames, c);
      forall mid: Cpu | mid.cr3 == c.cr3 && Consistent(m1.frames, mid) ensures Safe(m1.frames, mid, rest) {
        InsertTailIsSafe(m, w, mid, cur, d, pp, i, j, perm);
      }
      SafeThen(m.frames, c, [Mem(m1.frames)], rest);
    }
  }

  lemma NothingIsSafe(f: seq<Frame>, c: Cpu)
    requires Consistent(f, c) && FramesShape(f) && c.cr3 < |f|
    ensures Safe(f, c, [])
  {
    QuietIsSafe(f, f, c, []);
  }

  lemma QuietStepIsSafe(f: seq<Frame>, g: seq<Frame>, c: Cpu)
    requires Consistent(f, c) && Agree(f, g, c.cr3, {})
    ensures Safe(f, c, [Mem(g)]) && Last(f, [Mem(g)]) == g && NoLoad([Mem(g)])
  {
    QuietIsSafe(f, f, c, [Mem(g)]);
    assert [Mem(g)][1..] == [];
  }

  lemma LastOfRemove(m: Phys, w: World, d: nat, i: nat, j: nat, cur: Option<nat>)
    requires UserArgs(m, w, d, i, j)
    ensures Last(m.frames, RemoveEvents(m, d, i, j, cur)) == PageRemove(m, d, i, j).frames
  {
    LookupIsTranslate(m, w, d, i, j);
    var g := PageRemove(m, d, i, j).frames;
    assert Last(g, []) == g;
    assert Last(g, [Invlpg((i, j))]) == g;
    assert ([Mem(g)] + [])[1..] == [];
    assert ([Mem(g)] + [Invlpg((i, j))])[1..] == [Invlpg((i, j))];
  }

  /** The events of page_insert end in the memory it leaves, whether or not it replaces a page. */
  lemma LastOfInsert(m: Phys, w: World, d: nat, pp: nat, i: nat, j: nat, perm: bv12, cur: Option<nat>)
    requires InsertArgs(m, w, d, pp, i, j)
    ensures d < |m.pages|
    ensures Last(m.frames, InsertEvents(m, d, pp, i, j, perm, cur)) == PageInsert(m, d, pp, i, j, perm).0.frames
  {
    hide Structure, FreeList, Counts, PgdirWalk, PageInsert, RemoveEvents;
    RootInRange(m, w, d);
    InsertFrames(m, w, d, pp, i, j, perm);
    var (m1, pt) := PgdirWalk(m, d, i, true);
    if pt.Ptr? {
      var g := PageInsert(m, d, pp, i, j, perm).0.frames;
      var e1 := [Mem(m1.frames)] + RemoveEvents(IncRef(m1, pp), d, i, j, cur);
      LastJoin(m.frames, e1, [Mem(g)]);
      LastOfOne(Last(m.frames, e1), g);
    }
  }

  // ------------------------------------------------------------------ env_free

  ghost function PteEvents(m: Phys, d: nat, i: nat, t: nat, j: nat, cur: Option<nat>): seq<Event>
    requires Shape(m) && d < |m.pages| && t < |m.pages| && i < NPTENTRIES && j <= NPTENTRIES
    decreases NPTENTRIES - j
  {
    if j == NPTENTRIES || !m.ok then []
    else if Present(m.frames[t][j]) then
      RemoveEvents(m, d, i, j, cur) + PteEvents(PageRemove(m, d, i, j), d, i, t, j + 1, cur)
    else PteEvents(m, d, i, t, j + 1, cur)
  }

  ghost function PdeEvents(m: Phys, d: nat, i: nat, cur: Option<nat>): seq<Event>
    requires Shape(m) && d < |m.pages| && i < NPTENTRIES
  {
    var pde := m.frames[d][i];
    if !Present(pde) || pde.pfn >= |m.pages| then []
    else PteEvents(m, d, i, pde.pfn, 0, cur) + [Mem(FreePde(m, d, i).frames)]
  }

  ghost function PdesEvents(m: Phys, d: nat, i: nat, cur: Option<nat>): seq<Event>
    requires Shape(m) && d < |m.pages| && i <= UTOPX
    decreases UTOPX - i
  {
    if i == UTOPX || !m.ok then [] else PdeEvents(m, d, i, cur) + PdesEvents(FreePde(m, d, i), d, i + 1, cur)
  }

  /** env_free: CR3 moves to kern_pgdir first if the environment is the current one. */
  ghost function EnvFreeEvents(m: Phys, d: nat, kern: nat, cur: Option<nat>): seq<Event>
    requires Shape(m) && d < |m.pages|
  {
    (if cur == Some(d) then [LoadCr3(kern)] else []) + PdesEvents(m, d, 0, cur)
  }

  lemma {:induction false} PteEventsQuiet(f: seq<Frame>, m: Phys, w: World, d: nat, i: nat, t: nat, j: nat,
                                          cur: Option<nat>, d': nat)
    requires Inv(m, w) && d in w.lay.dirs && i < UTOPX && j <= NPTENTRIES
    requires t in w.lay.tables && w.lay.tables[t] == (d, i) && Root(w.lay, d') && d' != d
    requires Agree(f, m.frames, d', {})
    ensures Quiet(f, d', PteEvents(m, d, i, t, j, cur))
    decreases NPTENTRIES - j
  {
    hide TablesExact, DataTargets, KernelHalf, FreeList, Counts, Agree;
    if j < NPTENTRIES {
      if Present(m.frames[t][j]) {
        RemoveSummary(m, w, d, i, j, t);
        RemoveAgrees(m, w, d, i, j, d');
        AgreeThrough(f, m.frames, PageRemove(m, d, i, j).frames, d', {});
        PteEventsQuiet(f, PageRemove(m, d, i, j), RemoveWorld(m, w, d, i, j), d, i, t, j + 1, cur, d');
      } else {
        PteEventsQuiet(f, m, w, d, i, t, j + 1, cur, d');
      }
    }
  }

  /** Emptying one table of directory d is invisible to every other directory. */
  lemma RoundAgrees(f: seq<Frame>, g: seq<Frame>, l: Layout, d: nat, i: nat, t: nat, d': nat)
    requires Structure(f, l) && FramesShape(g) && RoundZeroed(f, g, d, i, t)
    requires t in l.tables && l.tables[t] == (d, i) && Root(l, d') && d' != d && d in l.dirs
    ensures Agree(f, g, d', {})
  {
    forall v: Slot | BelowUtop(v) ensures Translate(g, d', v.0, v.1) == Translate(f, d', v.0, v.1) {
      assert d' != t && g[d'] == f[d'];
      if Present(f[d'][v.0]) {
        assert CountedPde(l, d', v.0);
        assert f[d'][v.0].pfn != t && f[d'][v.0].pfn != d;
      }
    }
  }

  lemma {:induction false} PdesEventsQuiet(f: seq<Frame>, m: Phys, w: World, d: nat, i: nat, cur: Option<nat>, d': nat)
    requires Inv(m, w) && d in w.lay.dirs && i <= UTOPX && Root(w.lay, d') && d' != d && Agree(f, m.frames, d', {})
    ensures Quiet(f, d', PdesEvents(m, d, i, cur))
    decreases UTOPX - i
  {
    hide Structure, FreeList, Counts, Agree, Quiet, PdeEvents, FreePde, RoundZeroed, Limbo;
    RootInRange(m, w, d);
    if i == UTOPX {
      QuietNothing(f, d');
    } else {
      PdeEventsQuiet(f, m, w, d, i, cur, d');
      var m1 := FreePde(m, d, i);
      if Present(m.frames[d][i]) {
        var w1 := FreePdeInv(m, w, d, i);
        PdesEventsQuiet(f, m1, w1, d, i + 1, cur, d');
      } else {
        AbsentPde(m, d, i);
        PdesEventsQuiet(f, m, w, d, i + 1, cur, d');
      }
      QuietJoin(f, d', PdeEvents(m, d, i, cur), PdesEvents(m1, d, i + 1, cur));
    }
  }

  lemma AbsentPde(m: Phys, d: nat, i: nat)
    requires Shape(m) && d < |m.pages| && i < UTOPX && !Present(m.frames[d][i])
    ensures FreePde(m, d, i) == m
  {
  }

  lemma QuietNothing(f: seq<Frame>, d: nat)
    ensures Quiet(f, d, [])
  {
  }

  lemma QuietJoin(f: seq<Frame>, d: nat, e1: seq<Event>, e2: seq<Event>)
    requires Quiet(f, d, e1) && Quiet(f, d, e2)
    ensures Quiet(f, d, e1 + e2)
  {
    hide Agree;
  }

  /** One round of env_free's outer loop changes nothing that another directory d' can see. */
  lemma PdeEventsQuiet(f: seq<Frame>, m: Phys, w: World, d: nat, i: nat, cur: Option<nat>, d': nat)
    requires Inv(m, w) && d in w.lay.dirs && i < UTOPX && Root(w.lay, d') && d' != d && Agree(f, m.frames, d', {})
    ensures d < |m.pages| && Quiet(f, d', PdeEvents(m, d, i, cur)) && Agree(f, FreePde(m, d, i).frames, d', {})
  {
    hide TablesExact, DataTargets, KernelHalf, FreeList, Counts, Agree, Quiet, PteEvents, FreePde, Limbo;
    if Present(m.frames[d][i]) {
      var w1 := FreePdeInv(m, w, d, i);
      var t, g := m.frames[d][i].pfn, FreePde(m, d, i).frames;
      PteEventsQuiet(f, m, w, d, i, t, 0, cur, d');
      RoundAgrees(m.frames, g, w.lay, d, i, t, d');
      AgreeThrough(f, m.frames, g, d', {});
      QuietOne(f, d', g);
      QuietJoin(f, d', PteEvents(m, d, i, t, 0, cur), [Mem(g)]);
    } else {
      AbsentPde(m, d, i);
      QuietNothing(f, d');
    }
  }

  lemma QuietOne(f: seq<Frame>, d: nat, g: seq<Frame>)
    requires Agree(f, g, d, {})
    ensures Quiet(f, d, [Mem(g)])
  {
  }

  // -------------------------------------------- what the events leave behind

  /** Every memory event stores one word. */
  ghost predicate WordByWord(f: seq<Frame>, es: seq<Event>)
    decreases |es|
  {
    es != [] ==>
      && (es[0].Mem? ==> OneWord(f, es[0].frames))
      && WordByWord(After(f, es[0]), es[1..])
  }

  ghost predicate OneWord(f: seq<Frame>, g: seq<Frame>) {
    exists q: nat, j: nat, e: Word :: FramesShape(f) && q < |f| && j < NPTENTRIES && g == Put(f, q, j, e)
  }

  lemma {:induction false} WordsJoin(f: seq<Frame>, e1: seq<Event>, e2: seq<Event>)
    requires WordByWord(f, e1) && WordByWord(Last(f, e1), e2)
    ensures WordByWord(f, e1 + e2)
    decreases |e1|
  {
    if e1 == [] {
      assert e1 + e2 == e2;
    } else {
      assert (e1 + e2)[0] == e1[0] && (e1 + e2)[1..] == e1[1..] + e2;
      WordsJoin(After(f, e1[0]), e1[1..], e2);
    }
  }

  lemma WordsOfRemove(m: Phys, w: World, d: nat, i: nat, j: nat, cur: Option<nat>)
    requires UserArgs(m, w, d, i, j)
    ensures d < |m.pages| && WordByWord(m.frames, RemoveEvents(m, d, i, j, cur))
  {
    RootInRange(m, w, d);
    hide KernelHalf, DataTargets, FreeList, Counts;
    LookupIsTranslate(m, w, d, i, j);
    if Translate(m.frames, d, i, j).Some? {
      var t, g := m.frames[d][i].pfn, PageRemove(m, d, i, j).frames;
      MappedIsNotFree(m, w, t, j);
      RemoveFrames(m, d, i, j, m.frames[t][j].pfn, t);
      assert OneWord(m.frames, g);
      var flush: seq<Event> := if cur == None || cur == Some(d) then [Invlpg((i, j))] else [];
      assert RemoveEvents(m, d, i, j, cur) == [Mem(g)] + flush;
      hide Structure, PageRemove, RemoveEvents;
      assert ([Mem(g)] + flush)[1..] == flush;
      assert WordByWord(g, flush) by { assert [Invlpg((i, j))][1..] == []; }
    }
  }

  /** The events of the inner loop end in its memory, one word at a time. */
  lemma {:induction false} PteEventsLast(m: Phys, w: World, d: nat, i: nat, t: nat, j: nat, cur: Option<nat>)
    requires Inv(m, w) && d in w.lay.dirs && i < UTOPX && j <= NPTENTRIES
    requires d < |m.pages| && t < |m.pages| && t in w.lay.tables && w.lay.tables[t] == (d, i)
    ensures Last(m.frames, PteEvents(m, d, i, t, j, cur)) == FreePtes(m, d, i, t, j).frames
    ensures WordByWord(m.frames, PteEvents(m, d, i, t, j, cur))
    decreases NPTENTRIES - j
  {
    hide Structure, FreeList, Counts, PageRemove, RemoveEvents, WordByWord, Limbo;
    if j == NPTENTRIES {
      NoWords(m.frames);
    } else if Present(m.frames[t][j]) {
      PresentIsMapped(m, w, d, i, t, j);
      RemoveSummary(m, w, d, i, j, t);
      LastOfRemove(m, w, d, i, j, cur);
      WordsOfRemove(m, w, d, i, j, cur);
      var m1 := PageRemove(m, d, i, j);
      PteEventsLast(m1, RemoveWorld(m, w, d, i, j), d, i, t, j + 1, cur);
      LastJoin(m.frames, RemoveEvents(m, d, i, j, cur), PteEvents(m1, d, i, t, j + 1, cur));
      WordsJoin(m.frames, RemoveEvents(m, d, i, j, cur), PteEvents(m1, d, i, t, j + 1, cur));
    } else {
      PteEventsLast(m, w, d, i, t, j + 1, cur);
    }
  }

  lemma NoWords(f: seq<Frame>)
    ensures WordByWord(f, []) && Last(f, []) == f
  {
  }

  lemma PresentIsMapped(m: Phys, w: World, d: nat, i: nat, t: nat, j: nat)
    requires Inv(m, w) && d in w.lay.dirs && i < UTOPX && j < NPTENTRIES
    requires t in w.lay.tables && w.lay.tables[t] == (d, i) && t < |m.frames| && Present(m.frames[t][j])
    ensures UserArgs(m, w, d, i, j) && d < |m.frames| && Present(m.frames[d][i]) && m.frames[d][i].pfn == t
  {
    assert OwnerNames(m.frames, w.lay, t, d, i);
  }

  lemma PdeEventsLast(m: Phys, w: World, d: nat, i: nat, cur: Option<nat>)
    requires Inv(m, w) && d in w.lay.dirs && i < UTOPX
    ensures d < |m.pages| && Last(m.frames, PdeEvents(m, d, i, cur)) == FreePde(m, d, i).frames
    ensures WordByWord(m.frames, PdeEvents(m, d, i, cur))
  {
    hide Structure, FreeList, Counts, PteEvents, FreePtes, WordByWord, Last, Limbo, PageDecref;
    RootInRange(m, w, d);
    if Present(m.frames[d][i]) {
      WalkPresent(m, w, d, i, false);
      var t := m.frames[d][i].pfn;
      TableBound(m, w, t);
      PteEventsLast(m, w, d, i, t, 0, cur);
      var w1 := FreePtesInv(m, w, d, i, t, 0);
      var m1 := FreePtes(m, d, i, t, 0);
      var g := Put(m1.frames, d, i, ZERO_WORD);
      DecrefFrames(Write(m1, d, i, ZERO_WORD), t);
      assert FreePde(m, d, i).frames == g;
      LastJoin(m.frames, PteEvents(m, d, i, t, 0, cur), [Mem(g)]);
      LastOfOne(m1.frames, g);
      OneWordEvent(m1.frames, d, i, ZERO_WORD);
      WordsJoin(m.frames, PteEvents(m, d, i, t, 0, cur), [Mem(g)]);
    } else {
      AbsentPde(m, d, i);
      NoWords(m.frames);
    }
  }

  lemma OneWordEvent(f: seq<Frame>, q: nat, j: nat, e: Word)
    requires FramesShape(f) && q < |f| && j < NPTENTRIES
    ensures WordByWord(f, [Mem(Put(f, q, j, e))])
  {
    assert OneWord(f, Put(f, q, j, e));
    assert [Mem(Put(f, q, j, e))][1..] == [];
  }

  lemma {:induction false} PdesEventsLast(m: Phys, w: World, d: nat, i: nat, cur: Option<nat>)
    requires Inv(m, w) && d in w.lay.dirs && i <= UTOPX
    ensures d < |m.pages| && Last(m.frames, PdesEvents(m, d, i, cur)) == FreePdes(m, d, i).frames
    ensures WordByWord(m.frames, PdesEvents(m, d, i, cur))
    decreases UTOPX - i
  {
    hide Structure, FreeList, Counts, PdeEvents, FreePde, WordByWord, RoundZeroed, Limbo;
    RootInRange(m, w, d);
    if i == UTOPX {
      NoWords(m.frames);
    } else {
      PdeEventsLast(m, w, d, i, cur);
      var m1 := FreePde(m, d, i);
      if Present(m.frames[d][i]) {
        var w1 := FreePdeInv(m, w, d, i);
        PdesEventsLast(m1, w1, d, i + 1, cur);
      } else {
        AbsentPde(m, d, i);
        PdesEventsLast(m, w, d, i + 1, cur);
      }
      LastJoin(m.frames, PdeEvents(m, d, i, cur), PdesEvents(m1, d, i + 1, cur));
      WordsJoin(m.frames, PdeEvents(m, d, i, cur), PdesEvents(m1, d, i + 1, cur));
    }
  }

  /** The events of env_free end in the memory it leaves, and store one word at a time. */
  lemma EnvFreeEventsLast(m: Phys, w: World, d: nat, cur: Option<nat>)
    requires Inv(m, w) && d in w.lay.dirs
    ensures d < |m.pages| && Last(m.frames, EnvFreeEvents(m, d, w.lay.kern, cur)) == EnvFreeVm(m, d).frames
    ensures WordByWord(m.frames, EnvFreeEvents(m, d, w.lay.kern, cur))
  {
    hide Structure, FreeList, Counts, PdesEvents, FreePdes, WordByWord, PageDecref, Last;
    RootInRange(m, w, d);
    PdesEventsLast(m, w, d, 0, cur);
    DecrefFrames(FreePdes(m, d, 0), d);
    var loops := PdesEvents(m, d, 0, cur);
    if cur == Some(d) {
      var load := [LoadCr3(w.lay.kern)];
      LoadWritesNothing(m.frames, w.lay.kern);
      LastJoin(m.frames, load, loops);
      WordsJoin(m.frames, load, loops);
    } else {
      assert [] + loops == loops;
    }
  }

  lemma LoadWritesNothing(f: seq<Frame>, d: nat)
    ensures Last(f, [LoadCr3(d)]) == f && WordByWord(f, [LoadCr3(d)])
  {
    assert [LoadCr3(d)][1..] == [];
    NoWords(f);
  }

  /**
   env_free, taken one store at a time, keeps the TLB consistent, and CR3 never holds the freed directory
   afterwards, provided CR3 held it before only as the current environment's.
   */
  lemma EnvFreeIsSafe(m: Phys, w: World, c: Cpu, cur: Option<nat>, d: nat)
    requires Inv(m, w) && d in w.lay.dirs && Root(w.lay, c.cr3) && Consistent(m.frames, c)
    requires c.cr3 == d ==> cur == Some(d)
    ensures Safe(m.frames, c, EnvFreeEvents(m, d, w.lay.kern, cur))
    ensures Last(m.frames, EnvFreeEvents(m, d, w.lay.kern, cur)) == EnvFreeVm(m, d).frames
    ensures WordByWord(m.frames, EnvFreeEvents(m, d, w.lay.kern, cur))
    ensures forall c' :: Reaches(m.frames, c, EnvFreeEvents(m, d, w.lay.kern, cur), c') ==> c'.cr3 != d
  {
    hide Structure, FreeList, Counts, Reaches, PdesEvents, Agree, Quiet, Last, EnvFreeVm, WordByWord;
    var kern := w.lay.kern;
    EnvFreeEventsLast(m, w, d, cur);
    RootInRange(m, w, d);
    KernelIsNotEnv(m, w, d);
    var loops := PdesEvents(m, d, 0, cur);
    var first: seq<Event> := if cur == Some(d) then [LoadCr3(kern)] else [];
    assert EnvFreeEvents(m, d, kern, cur) == first + loops;
    forall c' | Reaches(m.frames, c, first + loops, c') ensures Consistent(Last(m.frames, first + loops), c') && c'.cr3 != d {
      var mid := ReachesSplit(m.frames, c, first, loops, c');
      FirstStep(m.frames, c, mid, kern, cur == Some(d));
      LoopsAreSafe(m, w, mid, cur, d, c');
    }
  }

  lemma LoopsAreSafe(m: Phys, w: World, c: Cpu, cur: Option<nat>, d: nat, c': Cpu)
    requires Inv(m, w) && d in w.lay.dirs && Root(w.lay, c.cr3) && c.cr3 != d && Consistent(m.frames, c)
    requires d < |m.pages| && Reaches(m.frames, c, PdesEvents(m, d, 0, cur), c')
    ensures Consistent(Last(m.frames, PdesEvents(m, d, 0, cur)), c') && c'.cr3 == c.cr3
  {
    hide Structure, FreeList, Counts, Reaches, PdesEvents, Last;
    RootInRange(m, w, c.cr3);
    var loops := PdesEvents(m, d, 0, cur);
    PdesEventsQuiet(m.frames, m, w, d, 0, cur, c.cr3);
    QuietIsSafe(m.frames, m.frames, c, loops);
    assert loops + [] == loops;
    var last := ReachesSplit(m.frames, c, loops, [], c');
    EmptyReach(Last(m.frames, loops), last, c');
  }

  lemma KernelIsNotEnv(m: Phys, w: World, d: nat)
    requires Inv(m, w) && d in w.lay.dirs
    ensures d != w.lay.kern
  {
  }

  lemma EmptyReach(f: seq<Frame>, c: Cpu, c': Cpu)
    requires Reaches(f, c, [], c')
    ensures HardwareStep(f, c, c') && c'.cr3 == c.cr3
  {
  }

  lemma FirstStep(f: seq<Frame>, c: Cpu, mid: Cpu, kern: nat, load: bool)
    requires Consistent(f, c) && Reaches(f, c, if load then [LoadCr3(kern)] else [], mid)
    ensures Last(f, if load then [LoadCr3(kern)] else []) == f
    ensures Consistent(f, mid) && mid.cr3 == if load then kern else c.cr3
  {
    assert Last(f, [LoadCr3(kern)]) == f by { assert [LoadCr3(kern)][1..] == []; }
    if load {
      LoadIsSafe(f, c, kern);
    } else {
      HardwareKeeps(f, c, mid, {});
    }
  }
}
