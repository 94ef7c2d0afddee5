/** pgdir_walk, page_insert, page_remove and page_lookup against the invariant and against a finite map. */
module PageOps {
  import opened Mmu
  import opened Pmap
  import opened Ownership
  import opened PrimitiveSteps

  /** Arguments every caller passes: a live directory and a page below UTOP. */
  ghost predicate UserArgs(m: Phys, w: World, d: nat, i: nat, j: nat) {
    Inv(m, w) && Root(w.lay, d) && i < UTOPX && j < NPTENTRIES
  }

  lemma RootsInRange(m: Phys, w: World)
    requires Inv(m, w)
    ensures forall d: nat :: Root(w.lay, d) ==> d < |m.frames|
  {
  }

  lemma RootInRange(m: Phys, w: World, d: nat)
    requires Inv(m, w) && Root(w.lay, d)
    ensures d < |m.frames|
  {
  }

  // ---------------------------------------------------------------- pgdir_walk

  ghost function WalkWorld(m: Phys, w: World, d: nat, i: nat): World
    requires Shape(m) && d < |m.frames| && i < NPTENTRIES
  {
    if Present(m.frames[d][i]) || w.free == [] then w
    else World(AddTable(w.lay, w.free[0], (d, i)), w.free[1..], w.held)
  }

  /** With a present directory entry pgdir_walk changes nothing and finds the owned table. */
  lemma WalkPresent(m: Phys, w: World, d: nat, i: nat, create: bool)
    requires Inv(m, w) && Root(w.lay, d) && i < NPTENTRIES && CountedPde(w.lay, d, i)
    requires Present(m.frames[d][i])
    ensures PgdirWalk(m, d, i, create) == (m, Ptr(m.frames[d][i].pfn))
    ensures m.frames[d][i].pfn in w.lay.tables && w.lay.tables[m.frames[d][i].pfn] == (d, i)
  {
  }

  /**
   pgdir_walk(create) returns the table owned by the slot, NULL and an unchanged state
   exactly when it needs a page and none is free, and never panics.
   */
  lemma WalkCreates(m: Phys, w: World, d: nat, i: nat)
    requires Inv(m, w) && Root(w.lay, d) && i < NPTENTRIES && CountedPde(w.lay, d, i)
    requires i < UTOPX || w.lay.dirs == {}
    ensures var (m', pt) := PgdirWalk(m, d, i, true);
            var w' := WalkWorld(m, w, d, i);
            && Inv(m', w')
            && (pt.Null? <==> !Present(m.frames[d][i]) && w.free == [])
            && (pt.Null? ==> m' == m)
            && (pt.Ptr? ==> pt.page in w'.lay.tables && w'.lay.tables[pt.page] == (d, i)
                            && m'.frames[d][i].pfn == pt.page && Present(m'.frames[d][i]))
  {
    hide TablesExact, DataTargets, KernelHalf, FreeList, Counts;
    if Present(m.frames[d][i]) {
      WalkPresent(m, w, d, i, true);
    } else {
      AllocStep(m, w, true);
      if w.free != [] {
        var t := w.free[0];
        var m1 := PageAlloc(m, true).0;
        var w1 := w.(free := w.free[1..]);
        FreePageIsUnused(m, w, t);
        IncRefStep(m1, w1, t);
        AttachStep(IncRef(m1, t), Hold(w1, t), d, i, t);
        assert Release(Hold(w1, t), t).held == w.held;
        assert Release(Hold(w1, t), t).(lay := AddTable(w.lay, t, (d, i))) == WalkWorld(m, w, d, i);
      }
    }
  }

  // --------------------------------------------------------------- page_remove

  /** page_lookup agrees with the reference translation, and never panics. */
  lemma LookupIsTranslate(m: Phys, w: World, d: nat, i: nat, j: nat)
    requires UserArgs(m, w, d, i, j)
    ensures match Translate(m.frames, d, i, j)
            case None => PageLookup(m, d, i, j) == NotMapped
            case Some(e) => PageLookup(m, d, i, j) == Mapped(e.pfn, m.frames[d][i].pfn)
                            && UserTable(w.lay, m.frames[d][i].pfn) && w.lay.tables[m.frames[d][i].pfn] == (d, i)
                            && DataPage(|m.pages|, w.lay, e.pfn)
  {
  }

  ghost function RemoveWorld(m: Phys, w: World, d: nat, i: nat, j: nat): World
    requires UserArgs(m, w, d, i, j)
  {
    match Translate(m.frames, d, i, j)
    case None => w
    case Some(e) =>
      LookupIsTranslate(m, w, d, i, j);
      if m.pages[e.pfn].ref == 1 then w.(free := [e.pfn] + w.free) else w
  }

  lemma RemoveInv(m: Phys, w: World, d: nat, i: nat, j: nat)
    requires UserArgs(m, w, d, i, j)
    ensures Inv(PageRemove(m, d, i, j), RemoveWorld(m, w, d, i, j))
  {
    LookupIsTranslate(m, w, d, i, j);
    match Translate(m.frames, d, i, j)
    case None =>
    case Some(e) =>
      var t := m.frames[d][i].pfn;
      ClearPteStep(m, w, t, j);
      var m1, w1 := Write(m, t, j, ZERO_WORD), Hold(w, e.pfn);
      DecrefStep(m1, w1, e.pfn);
      assert AfterDecref(m1, w1, e.pfn).held == w.held;
      assert AfterDecref(m1, w1, e.pfn) == RemoveWorld(m, w, d, i, j);
  }

  // ------------------------------------------------------- translation framing

  /** A user page table is reached through one directory slot only. */
  lemma TableReachedOnce(f: seq<Frame>, l: Layout, t: nat, d: nat, i: nat)
    requires Structure(f, l) && UserTable(l, t) && Root(l, d) && i < NPTENTRIES
    requires Present(f[d][i]) && f[d][i].pfn == t
    ensures l.tables[t] == (d, i)
  {
    if d in l.dirs && i >= UTOPX && i != UVPTX {
      assert f[d][i] == f[l.kern][i];
      assert CountedPde(l, l.kern, i) && Root(l, l.kern);
    }
  }

  lemma TranslateAfterPutPte(f: seq<Frame>, l: Layout, t: nat, j: nat, e: Word, d: nat, i: nat, k: nat)
    requires Structure(f, l) && UserTable(l, t) && j < NPTENTRIES
    requires Root(l, d) && i < NPTENTRIES && k < NPTENTRIES
    ensures Translate(Put(f, t, j, e), d, i, k) ==
            if l.tables[t] == (d, i) && k == j then (if Present(e) then Some(e) else None)
            else Translate(f, d, i, k)
  {
    assert OwnerNames(f, l, t, l.tables[t].0, l.tables[t].1);
    assert Put(f, t, j, e)[d] == f[d];
    if Present(f[d][i]) && f[d][i].pfn == t {
      TableReachedOnce(f, l, t, d, i);
    }
  }

  /** Neither a free page nor a data page is reached as a table by any directory. */
  lemma TableIsTableOrRoot(f: seq<Frame>, l: Layout, d: nat, i: nat)
    requires Structure(f, l) && Root(l, d) && i < NPTENTRIES && Present(f[d][i])
    ensures f[d][i].pfn in l.tables || (i == UVPTX && f[d][i].pfn == d)
  {
    if d in l.dirs && i >= UTOPX && i != UVPTX {
      assert f[d][i] == f[l.kern][i];
      assert CountedPde(l, l.kern, i) && Root(l, l.kern);
    }
  }

  lemma TranslateAfterWalk(m: Phys, w: World, d: nat, i: nat, d': nat, i': nat, k: nat)
    requires Inv(m, w) && Root(w.lay, d) && i < NPTENTRIES && CountedPde(w.lay, d, i)
    requires i < UTOPX || w.lay.dirs == {}
    requires Root(w.lay, d') && i' < NPTENTRIES && k < NPTENTRIES && !(d' == d && i' == UVPTX)
    ensures Translate(PgdirWalk(m, d, i, true).0.frames, d', i', k) == Translate(m.frames, d', i', k)
  {
    hide KernelHalf, DataTargets, Counts;
    var m' := PgdirWalk(m, d, i, true).0;
    if Present(m.frames[d][i]) {
      WalkPresent(m, w, d, i, true);
    } else if w.free != [] {
      var t := w.free[0];
      assert t in w.free && m.head == Ptr(t);
      FreePageIsUnused(m, w, t);
      if Present(m.frames[d'][i']) {
        TableIsTableOrRoot(m.frames, w.lay, d', i');
      }
      assert m'.frames == Put(m.frames[t := ZeroFrame()], d, i, Word(t, 7));
    }
  }

  // --------------------------------------------------------------- page_insert

  ghost predicate InsertArgs(m: Phys, w: World, d: nat, pp: nat, i: nat, j: nat) {
    UserArgs(m, w, d, i, j) && DataPage(|m.pages|, w.lay, pp) && pp !in w.free
  }

  /** page_remove on memory alone: it depends on pages[] only for the decrement. */
  lemma RemoveFrames(m: Phys, d: nat, i: nat, j: nat, q: nat, t: nat)
    requires Shape(m) && d < |m.pages| && i < NPTENTRIES && j < NPTENTRIES && m.ok
    requires PageLookup(m, d, i, j) == Mapped(q, t) && m.pages[q].link == Null
    ensures PageRemove(m, d, i, j).ok && PageRemove(m, d, i, j).frames == Put(m.frames, t, j, ZERO_WORD)
  {
  }

  lemma PutTwice(f: seq<Frame>, t: nat, j: nat, e: Word, e': Word)
    requires FramesShape(f) && t < |f| && j < NPTENTRIES
    ensures Put(Put(f, t, j, e), t, j, e') == Put(f, t, j, e')
  {
    assert f[t][j := e][j := e'] == f[t][j := e'];
    assert Put(Put(f, t, j, e), t, j, e') == Put(f, t, j, e');
  }

  /** Memory after a successful page_insert: whatever pgdir_walk set up, with one entry overwritten. */
  lemma InsertFrames(m: Phys, w: World, d: nat, pp: nat, i: nat, j: nat, perm: bv12)
    requires InsertArgs(m, w, d, pp, i, j)
    ensures var (m1, pt) := PgdirWalk(m, d, i, true);
            var (m', r) := PageInsert(m, d, pp, i, j, perm);
            && m'.ok
            && (r == -E_NO_MEM <==> pt.Null?) && (r == 0 <==> pt.Ptr?)
            && (pt.Null? ==> m' == m)
            && (pt.Ptr? ==> m'.frames == Put(m1.frames, pt.page, j, Word(pp, perm | PTE_P)))
  {
    WalkCreates(m, w, d, i);
    var (m1, pt) := PgdirWalk(m, d, i, true);
    if pt.Ptr? {
      FillFrames(m1, WalkWorld(m, w, d, i), d, pp, i, j, perm);
    }
  }

  lemma FillFrames(m: Phys, w: World, d: nat, pp: nat, i: nat, j: nat, perm: bv12)
    requires UserArgs(m, w, d, i, j) && pp < |m.pages| && Present(m.frames[d][i])
    ensures var t := m.frames[d][i].pfn; var m' := FillEntry(m, d, pp, i, j, t, perm);
            m'.ok && m'.frames == Put(m.frames, t, j, Word(pp, perm | PTE_P))
  {
    var t := m.frames[d][i].pfn;
    var m1 := IncRef(m, pp);
    if Present(m.frames[t][j]) {
      LookupIsTranslate(m, w, d, i, j);
      MappedIsNotFree(m, w, t, j);
      RemoveFrames(m1, d, i, j, m.frames[t][j].pfn, t);
      PutTwice(m.frames, t, j, ZERO_WORD, Word(pp, perm | PTE_P));
    }
  }

  lemma MappedIsNotFree(m: Phys, w: World, t: nat, j: nat)
    requires Inv(m, w) && UserTable(w.lay, t) && j < NPTENTRIES && Present(m.frames[t][j])
    ensures m.frames[t][j].pfn !in w.free && m.pages[m.frames[t][j].pfn].link == Null
    ensures m.pages[m.frames[t][j].pfn].ref >= 1
  {
    assert (t, j) in Refs(m.frames, w.lay, m.frames[t][j].pfn);
    assert |Refs(m.frames, w.lay, m.frames[t][j].pfn)| >= 1;
  }

  /** The user part of an address space as a finite map from virtual page to entry. */
  ghost function UserMap(f: seq<Frame>, d: nat): map<Slot, Word>
    requires FramesShape(f) && d < |f|
  {
    map s | s in AllSlots(UTOPX) && Translate(f, d, s.0, s.1).Some? :: Translate(f, d, s.0, s.1).value
  }

  /**
   page_insert refines map update.  It fails with -E_NO_MEM exactly when a page table is needed and
   no page is free, and then changes nothing at all; otherwise only the named entry of the named
   directory changes.  In directory d's own UVPT window the new page table, if any, also becomes visible.
   */
  lemma InsertRefines(m: Phys, w: World, d: nat, pp: nat, i: nat, j: nat, perm: bv12)
    requires InsertArgs(m, w, d, pp, i, j)
    ensures var (m', r) := PageInsert(m, d, pp, i, j, perm);
            && (r == 0 || r == -E_NO_MEM)
            && (r == -E_NO_MEM <==> !Present(m.frames[d][i]) && w.free == [])
            && (r == -E_NO_MEM ==> m' == m)
            && (r == 0 ==>
                  && UserMap(m'.frames, d) == UserMap(m.frames, d)[(i, j) := Word(pp, perm | PTE_P)]
                  && (forall d' :: Root(w.lay, d') && d' != d ==> UserMap(m'.frames, d') == UserMap(m.frames, d'))
                  && (forall d': nat, i': nat, k: nat | Root(w.lay, d') && i' < NPTENTRIES && k < NPTENTRIES ::
                        (d', i', k) != (d, i, j) && (d' != d || i' != UVPTX) ==>
                        Translate(m'.frames, d', i', k) == Translate(m.frames, d', i', k)))
  {
    hide Structure, FreeList, Counts, PgdirWalk, PageInsert, UserMap, Translate;
    RootsInRange(m, w);
    WalkCreates(m, w, d, i);
    InsertFrames(m, w, d, pp, i, j, perm);
    var (m', r) := PageInsert(m, d, pp, i, j, perm);
    if r == 0 {
      forall d': nat, i': nat, k: nat | Root(w.lay, d') && i' < NPTENTRIES && k < NPTENTRIES && (d' != d || i' != UVPTX)
        ensures Translate(m'.frames, d', i', k) ==
                if (d', i', k) == (d, i, j) then Some(Word(pp, perm | PTE_P)) else Translate(m.frames, d', i', k)
      {
        InsertTranslate(m, w, d, pp, i, j, perm, d', i', k);
      }
      UserMapUpdate(m.frames, m'.frames, d, i, j, Some(Word(pp, perm | PTE_P)));
      forall d' | Root(w.lay, d') && d' != d ensures UserMap(m'.frames, d') == UserMap(m.frames, d') {
        UserMapSame(m.frames, m'.frames, d');
      }
    }
  }

  lemma InsertTranslate(m: Phys, w: World, d: nat, pp: nat, i: nat, j: nat, perm: bv12, d': nat, i': nat, k: nat)
    requires InsertArgs(m, w, d, pp, i, j) && PageInsert(m, d, pp, i, j, perm).1 == 0
    requires Root(w.lay, d') && i' < NPTENTRIES && k < NPTENTRIES && (d' != d || i' != UVPTX)
    ensures Translate(PageInsert(m, d, pp, i, j, perm).0.frames, d', i', k) ==
            if (d', i', k) == (d, i, j) then Some(Word(pp, perm | PTE_P)) else Translate(m.frames, d', i', k)
  {
    InsertFrames(m, w, d, pp, i, j, perm);
    WalkCreates(m, w, d, i);
    var (m1, pt) := PgdirWalk(m, d, i, true);
    TranslateAfterWalk(m, w, d, i, d', i', k);
    TranslateAfterPutPte(m1.frames, WalkWorld(m, w, d, i).lay, pt.page, j, Word(pp, perm | PTE_P), d', i', k);
  }

  lemma UserMapSame(f: seq<Frame>, f': seq<Frame>, d: nat)
    requires FramesShape(f) && FramesShape(f') && d < |f| && d < |f'|
    requires forall i: nat, k: nat :: i < UTOPX && k < NPTENTRIES ==> Translate(f', d, i, k) == Translate(f, d, i, k)
    ensures UserMap(f', d) == UserMap(f, d)
  {
    assert forall s: Slot :: s in AllSlots(UTOPX) ==> Translate(f', d, s.0, s.1) == Translate(f, d, s.0, s.1);
  }

  lemma UserMapUpdate(f: seq<Frame>, f': seq<Frame>, d: nat, i: nat, j: nat, e: Option<Word>)
    requires FramesShape(f) && FramesShape(f') && d < |f| && d < |f'| && i < UTOPX && j < NPTENTRIES
    requires forall i': nat, k: nat :: i' < UTOPX && k < NPTENTRIES ==>
               Translate(f', d, i', k) == if (i', k) == (i, j) then e else Translate(f, d, i', k)
    ensures UserMap(f', d) == if e.Some? then UserMap(f, d)[(i, j) := e.value] else UserMap(f, d) - {(i, j)}
  {
    assert forall s: Slot :: s in AllSlots(UTOPX) ==>
             Translate(f', d, s.0, s.1) == if s == (i, j) then e else Translate(f, d, s.0, s.1);
  }

  lemma RemoveTranslate(m: Phys, w: World, d: nat, i: nat, j: nat, d': nat, i': nat, k: nat)
    requires UserArgs(m, w, d, i, j) && Root(w.lay, d') && i' < NPTENTRIES && k < NPTENTRIES
    ensures d < |m.frames| && d' < |m.frames| == |PageRemove(m, d, i, j).frames|
    ensures Translate(PageRemove(m, d, i, j).frames, d', i', k) ==
            if (d', i', k) == (d, i, j) then None else Translate(m.frames, d', i', k)
  {
    hide KernelHalf, DataTargets, FreeList, Counts;
    LookupIsTranslate(m, w, d, i, j);
    if Translate(m.frames, d, i, j).Some? {
      var t := m.frames[d][i].pfn;
      MappedIsNotFree(m, w, t, j);
      RemoveFrames(m, d, i, j, m.frames[t][j].pfn, t);
      TranslateAfterPutPte(m.frames, w.lay, t, j, ZERO_WORD, d', i', k);
    }
  }

  /** page_remove refines removal from the map: nothing but the named entry of the named directory changes. */
  lemma RemoveRefines(m: Phys, w: World, d: nat, i: nat, j: nat)
    requires UserArgs(m, w, d, i, j)
    ensures var m' := PageRemove(m, d, i, j);
            && UserMap(m'.frames, d) == UserMap(m.frames, d) - {(i, j)}
            && (forall d' :: Root(w.lay, d') && d' != d ==> UserMap(m'.frames, d') == UserMap(m.frames, d'))
            && (forall d': nat, i': nat, k: nat | Root(w.lay, d') && i' < NPTENTRIES && k < NPTENTRIES ::
                  Translate(m'.frames, d', i', k) ==
                  if (d', i', k) == (d, i, j) then None else Translate(m.frames, d', i', k))
  {
    hide Structure, FreeList, Counts, PageRemove, UserMap, Translate;
    RootsInRange(m, w);
    var m' := PageRemove(m, d, i, j);
    forall d': nat, i': nat, k: nat | Root(w.lay, d') && i' < NPTENTRIES && k < NPTENTRIES
      ensures |m'.frames| == |m.frames| && Translate(m'.frames, d', i', k) ==
              if (d', i', k) == (d, i, j) then None else Translate(m.frames, d', i', k)
    {
      RemoveTranslate(m, w, d, i, j, d', i', k);
    }
    UserMapUpdate(m.frames, m'.frames, d, i, j, None);
    forall d' | Root(w.lay, d') && d' != d ensures UserMap(m'.frames, d') == UserMap(m.frames, d') {
      UserMapSame(m.frames, m'.frames, d');
    }
  }

  // ---------------------------------------------- counts kept by page_insert

  ghost predicate NamesAlready(m: Phys, d: nat, pp: nat, i: nat, j: nat)
    requires Shape(m) && d < |m.frames| && i < NPTENTRIES && j < NPTENTRIES
  {
    Translate(m.frames, d, i, j).Some? && Translate(m.frames, d, i, j).value.pfn == pp
  }

  ghost function InsertWorld(m: Phys, w: World, d: nat, pp: nat, i: nat, j: nat): World
    requires InsertArgs(m, w, d, pp, i, j)
  {
    WalkCreates(m, w, d, i);
    var m1 := PgdirWalk(m, d, i, true).0;
    var w1 := WalkWorld(m, w, d, i);
    if NamesAlready(m1, d, pp, i, j) then w1 else RemoveWorld(m1, w1, d, i, j)
  }

  /** The increment and the decrement cancel even when the 16-bit count wraps in between. */
  lemma ReinsertPages(m: Phys, d: nat, pp: nat, i: nat, j: nat, t: nat)
    requires Shape(m) && d < |m.pages| && pp < |m.pages| && i < NPTENTRIES && j < NPTENTRIES
    requires PageLookup(m, d, i, j) == Mapped(pp, t) && m.pages[pp].ref >= 1
    ensures PageRemove(IncRef(m, pp), d, i, j) == Write(m, t, j, ZERO_WORD)
  {
    assert PageLookup(IncRef(m, pp), d, i, j) == Mapped(pp, t);
  }

  /** Overwriting an entry that names pp by another that names pp leaves every reference set alone. */
  lemma RenameInv(m: Phys, w: World, t: nat, j: nat, e: Word)
    requires Inv(m, w) && UserTable(w.lay, t) && j < NPTENTRIES
    requires Present(m.frames[t][j]) && Present(e) && m.frames[t][j].pfn == e.pfn
    ensures Inv(Write(m, t, j, e), w)
  {
    assert DataPage(|m.frames|, w.lay, e.pfn);
    PutPteStructure(m.frames, w.lay, t, j, e);
    RenameRefs(m.frames, w.lay, t, j, e);
    assert Counts(m.pages, Put(m.frames, t, j, e), w);
  }

  lemma RenameRefs(f: seq<Frame>, l: Layout, t: nat, j: nat, e: Word)
    requires FramesShape(f) && t < |f| && UserTable(l, t) && j < NPTENTRIES
    requires Present(f[t][j]) && Present(e) && f[t][j].pfn == e.pfn
    ensures forall x :: Refs(Put(f, t, j, e), l, x) == Refs(f, l, x)
  {
    forall x ensures Refs(Put(f, t, j, e), l, x) == Refs(f, l, x) {
      RefsAfterPut(f, l, t, j, e, x);
      assert (t, j) in Refs(f, l, x) <==> x == e.pfn;
    }
  }

  /** Re-inserting the page already mapped there only rewrites the entry: no count moves and nothing is freed. */
  lemma ReinsertKeepsCounts(m: Phys, w: World, d: nat, pp: nat, i: nat, j: nat, perm: bv12)
    requires InsertArgs(m, w, d, pp, i, j) && NamesAlready(m, d, pp, i, j)
    ensures PageInsert(m, d, pp, i, j, perm) == (Write(m, m.frames[d][i].pfn, j, Word(pp, perm | PTE_P)), 0)
    ensures Inv(PageInsert(m, d, pp, i, j, perm).0, w)
  {
    LookupIsTranslate(m, w, d, i, j);
    WalkPresent(m, w, d, i, true);
    var t := m.frames[d][i].pfn;
    MappedIsNotFree(m, w, t, j);
    ReinsertPages(m, d, pp, i, j, t);
    PutTwice(m.frames, t, j, ZERO_WORD, Word(pp, perm | PTE_P));
    assert FillEntry(m, d, pp, i, j, t, perm) == Write(m, t, j, Word(pp, perm | PTE_P));
    RenameInv(m, w, t, j, Word(pp, perm | PTE_P));
  }

  /** A page mapped for the first time at (i, j) gains one reference and the page it displaces loses one. */
  lemma FillCounts(m: Phys, w: World, d: nat, pp: nat, i: nat, j: nat, perm: bv12)
    requires InsertArgs(m, w, d, pp, i, j) && Present(m.frames[d][i])
    requires m.pages[pp].ref < REF_LIMIT - 1 && !NamesAlready(m, d, pp, i, j)
    ensures Inv(FillEntry(m, d, pp, i, j, m.frames[d][i].pfn, perm), RemoveWorld(m, w, d, i, j))
  {
    hide TablesExact, DataTargets, KernelHalf, FreeList, Counts;
    var t := m.frames[d][i].pfn;
    WalkPresent(m, w, d, i, true);
    IncRefStep(m, w, pp);
    var m1, w1 := IncRef(m, pp), Hold(w, pp);
    var m2, w2 := PageRemove(m1, d, i, j), RemoveWorld(m1, w1, d, i, j);
    RemoveInv(m1, w1, d, i, j);
    RemovedSlot(m1, w1, d, i, j);
    LookupIsTranslate(m, w, d, i, j);
    SetPteStep(m2, w2, t, j, Word(pp, perm | PTE_P));
    assert Release(w2, pp).held == w.held;
    assert Release(w2, pp) == RemoveWorld(m, w, d, i, j);
  }

  lemma RemovedSlot(m: Phys, w: World, d: nat, i: nat, j: nat)
    requires UserArgs(m, w, d, i, j) && Present(m.frames[d][i])
    ensures m.frames[d][i].pfn < |m.frames|
    ensures !Present(PageRemove(m, d, i, j).frames[m.frames[d][i].pfn][j])
    ensures !Present(m.frames[m.frames[d][i].pfn][j]) ==> PageRemove(m, d, i, j) == m
  {
    LookupIsTranslate(m, w, d, i, j);
    var t := m.frames[d][i].pfn;
    if Present(m.frames[t][j]) {
      MappedIsNotFree(m, w, t, j);
      RemoveFrames(m, d, i, j, m.frames[t][j].pfn, t);
    }
  }

  /**
   page_insert keeps every reference count exact if and only if the count does not overflow its
   sixteen bits: it is below 65535, or the page is already mapped at that address.
   */
  lemma InsertKeepsInvariant(m: Phys, w: World, d: nat, pp: nat, i: nat, j: nat, perm: bv12)
    requires InsertArgs(m, w, d, pp, i, j)
    requires Present(m.frames[d][i]) || w.free != []
    ensures Inv(PageInsert(m, d, pp, i, j, perm).0, InsertWorld(m, w, d, pp, i, j)) <==>
            m.pages[pp].ref < REF_LIMIT - 1 || NamesAlready(m, d, pp, i, j)
  {
    WalkCreates(m, w, d, i);
    var (m1, pt) := PgdirWalk(m, d, i, true);
    var w1 := WalkWorld(m, w, d, i);
    TranslateAfterWalk(m, w, d, i, d, i, j);
    WalkKeepsPage(m, w, d, i, pp);
    if NamesAlready(m, d, pp, i, j) {
      LookupIsTranslate(m, w, d, i, j);
      ReinsertKeepsCounts(m, w, d, pp, i, j, perm);
    } else if m.pages[pp].ref < REF_LIMIT - 1 {
      FillCounts(m1, w1, d, pp, i, j, perm);
    } else {
      FillOverflow(m1, w1, d, pp, i, j, perm);
    }
  }

  lemma WalkKeepsPage(m: Phys, w: World, d: nat, i: nat, pp: nat)
    requires Inv(m, w) && Root(w.lay, d) && i < UTOPX && DataPage(|m.pages|, w.lay, pp) && pp !in w.free
    ensures PgdirWalk(m, d, i, true).0.pages[pp] == m.pages[pp]
    ensures DataPage(|m.pages|, WalkWorld(m, w, d, i).lay, pp) && pp !in WalkWorld(m, w, d, i).free
  {
    if Present(m.frames[d][i]) {
      WalkPresent(m, w, d, i, true);
    } else if w.free != [] {
      assert w.free[0] in w.free && m.head == Ptr(w.free[0]);
    }
  }

  /** At 65535 references the count wraps to zero although the new entry names the page. */
  lemma FillOverflow(m: Phys, w: World, d: nat, pp: nat, i: nat, j: nat, perm: bv12)
    requires InsertArgs(m, w, d, pp, i, j) && Present(m.frames[d][i])
    requires m.pages[pp].ref == REF_LIMIT - 1 && !NamesAlready(m, d, pp, i, j)
    ensures var m' := FillEntry(m, d, pp, i, j, m.frames[d][i].pfn, perm);
            m'.pages[pp].ref == 0 && forall w': World :: w'.lay == w.lay ==> !Inv(m', w')
  {
    hide Structure, FreeList, Counts, Refs;
    RootsInRange(m, w);
    var t := m.frames[d][i].pfn;
    WalkPresent(m, w, d, i, true);
    var m' := FillEntry(m, d, pp, i, j, t, perm);
    FillFrames(m, w, d, pp, i, j, perm);
    LookupIsTranslate(m, w, d, i, j);
    assert PageLookup(IncRef(m, pp), d, i, j) == PageLookup(m, d, i, j);
    assert m'.pages[pp].ref == 0;
    forall w': World | w'.lay == w.lay ensures !Inv(m', w') {
      NamedIsCounted(m', w', t, j, pp);
    }
  }

  /** A page that a user entry names cannot have count zero. */
  lemma NamedIsCounted(m: Phys, w: World, t: nat, j: nat, p: nat)
    requires Shape(m) && UserTable(w.lay, t) && t < |m.frames| && j < NPTENTRIES && p < |m.pages|
    requires Present(m.frames[t][j]) && m.frames[t][j].pfn == p && m.pages[p].ref == 0
    ensures !Inv(m, w)
  {
    hide Structure, FreeList;
    assert (t, j) in Refs(m.frames, w.lay, p);
    assert CountOf(m.frames, w, p) >= 1;
  }
}
