/** Creating an environment's address space: env_setup_vm (kern/env.c:165-200). */
module AddressSpace {
  import opened Mmu
  import opened Pmap
  import opened Ownership
  import opened PrimitiveSteps
  import opened PageOps

  function EnvSetupVm(m: Phys, kern: nat): (r: (Phys, Link))
    requires Shape(m) && kern < |m.pages|
    ensures Shape(r.0) && LinkIn(r.1, |m.pages|) && |r.0.pages| == |m.pages|
  {
    var (m1, pp) := PageAlloc(m, true);
    if pp.Null? then (m, Null)
    else
      var m2 := IncRef(m1, pp.page);
      var m3 := m2.(frames := m2.frames[pp.page := m2.frames[kern]]);
      (Write(m3, pp.page, UVPTX, Word(pp.page, PTE_P | PTE_U)), pp)
  }

  ghost function AddDir(l: Layout, p: nat): Layout { l.(dirs := l.dirs + {p}) }

  ghost predicate KernelUserPartEmpty(f: seq<Frame>, l: Layout)
    requires FramesShape(f) && Roles(|f|, l)
  {
    forall i :: 0 <= i < UTOPX ==> !Present(f[l.kern][i])
  }

  ghost function NewDir(f: seq<Frame>, l: Layout, p: nat): seq<Frame>
    requires FramesShape(f) && Roles(|f|, l) && p < |f|
  {
    f[p := f[l.kern][UVPTX := Word(p, PTE_P | PTE_U)]]
  }

  ghost predicate CanAddDir(f: seq<Frame>, l: Layout, p: nat) {
    && Structure(f, l) && KernelUserPartEmpty(f, l)
    && DataPage(|f|, l, p) && !Owned(l, p) && Refs(f, l, p) == {}
  }

  lemma AddDirRefs(f: seq<Frame>, l: Layout, p: nat)
    requires CanAddDir(f, l, p)
    ensures forall x :: Refs(NewDir(f, l, p), AddDir(l, p), x) == Refs(f, l, x)
  {
    var f', l' := NewDir(f, l, p), AddDir(l, p);
    forall x ensures Refs(f', l', x) == Refs(f, l, x) {
      assert forall s: Slot :: s.0 == p && s.1 < NPTENTRIES && Counted(l', s) ==> !Present(f'[s.0][s.1]);
    }
  }

  lemma AddDirData(f: seq<Frame>, l: Layout, p: nat)
    requires CanAddDir(f, l, p)
    ensures Roles(|f|, AddDir(l, p)) && DataTargets(NewDir(f, l, p), AddDir(l, p))
  {
    var f', l' := NewDir(f, l, p), AddDir(l, p);
    forall t: nat, j: nat | UserTable(l', t) && j < NPTENTRIES && Present(f'[t][j])
      ensures DataPage(|f'|, l', f'[t][j].pfn)
    {
      assert (t, j) in Refs(f, l, f[t][j].pfn);
    }
  }

  lemma AddDirTables(f: seq<Frame>, l: Layout, p: nat)
    requires CanAddDir(f, l, p) && Roles(|f|, AddDir(l, p))
    ensures TablesExact(NewDir(f, l, p), AddDir(l, p))
  {
    hide DataTargets, Refs;
    var f', l' := NewDir(f, l, p), AddDir(l, p);
    forall r: nat, k: nat | Root(l', r) && k < NPTENTRIES && CountedPde(l', r, k) && Present(f'[r][k])
      ensures f'[r][k].pfn in l'.tables && l'.tables[f'[r][k].pfn] == (r, k) && UserWritable(f'[r][k])
    {
      assert r != p && f'[r] == f[r];
      assert Root(l, r) && CountedPde(l, r, k);
    }
    forall t | t in l'.tables ensures OwnerNames(f', l', t, l'.tables[t].0, l'.tables[t].1) {
      assert OwnerNames(f, l, t, l.tables[t].0, l.tables[t].1);
    }
  }

  lemma AddDirStructure(f: seq<Frame>, l: Layout, p: nat)
    requires CanAddDir(f, l, p)
    ensures Structure(NewDir(f, l, p), AddDir(l, p))
  {
    hide TablesExact, DataTargets;
    AddDirData(f, l, p);
    AddDirTables(f, l, p);
    assert KernelHalf(NewDir(f, l, p), AddDir(l, p));
  }

  ghost function SetupWorld(w: World): World
  {
    if w.free == [] then w else World(AddDir(w.lay, w.free[0]), w.free[1..], w.held)
  }

  /**
   env_setup_vm fails with an unchanged state exactly when no page is free; otherwise the new directory
   is counted once, maps nothing below UTOP, agrees with kern_pgdir above it and maps itself at UVPT,
   and no other translation changes.
   */
  lemma SetupVm(m: Phys, w: World)
    requires Inv(m, w) && KernelUserPartEmpty(m.frames, w.lay)
    ensures var (m', pp) := EnvSetupVm(m, w.lay.kern);
            && pp == NextOf(w.free, 0)
            && (pp.Null? ==> m' == m)
            && Inv(m', SetupWorld(w))
            && (pp.Ptr? ==>
                  && UserMap(m'.frames, pp.page) == map[]
                  && (forall d: nat, i: nat, k: nat | Root(w.lay, d) && i < NPTENTRIES && k < NPTENTRIES ::
                        Translate(m'.frames, d, i, k) == Translate(m.frames, d, i, k))
                  && (forall i: nat, k: nat | UTOPX <= i < NPTENTRIES && i != UVPTX && k < NPTENTRIES ::
                        Translate(m'.frames, pp.page, i, k) == Translate(m.frames, w.lay.kern, i, k)))
  {
    AllocStep(m, w, true);
    if w.free != [] {
      var p := w.free[0];
      assert p in w.free;
      FreePageIsUnused(m, w, p);
      SetupInv(m, w, p);
      var m' := EnvSetupVm(m, w.lay.kern).0;
      assert m'.frames == NewDir(m.frames, w.lay, p);
      forall d: nat, i: nat, k: nat | Root(w.lay, d) && i < NPTENTRIES && k < NPTENTRIES
        ensures Translate(m'.frames, d, i, k) == Translate(m.frames, d, i, k)
        ensures d == w.lay.kern && UTOPX <= i && i != UVPTX ==>
                  Translate(m'.frames, p, i, k) == Translate(m.frames, d, i, k)
      {
        NewDirTranslate(m.frames, w.lay, p, d, i, k);
      }
    }
  }

  lemma NewDirTranslate(f: seq<Frame>, l: Layout, p: nat, d: nat, i: nat, k: nat)
    requires Structure(f, l) && DataPage(|f|, l, p) && Root(l, d) && i < NPTENTRIES && k < NPTENTRIES
    ensures Translate(NewDir(f, l, p), d, i, k) == Translate(f, d, i, k)
    ensures d == l.kern && i != UVPTX ==> Translate(NewDir(f, l, p), p, i, k) == Translate(f, d, i, k)
  {
    if Present(f[d][i]) {
      TableIsTableOrRoot(f, l, d, i);
    }
  }

  lemma SetupInv(m: Phys, w: World, p: nat)
    requires Inv(m, w) && KernelUserPartEmpty(m.frames, w.lay) && w.free != [] && p == w.free[0]
    ensures Inv(EnvSetupVm(m, w.lay.kern).0, SetupWorld(w))
  {
    AllocStep(m, w, true);
    assert p in w.free;
    FreePageIsUnused(m, w, p);
    var m1 := PageAlloc(m, true).0;
    var w1 := w.(free := w.free[1..]);
    IncRefStep(m1, w1, p);
    var m2 := IncRef(m1, p);
    AddDirStructure(m2.frames, w1.lay, p);
    AddDirRefs(m2.frames, w1.lay, p);
    var m' := EnvSetupVm(m, w.lay.kern).0;
    assert m'.frames == NewDir(m2.frames, w1.lay, p);
    assert Counts(m'.pages, m'.frames, SetupWorld(w));
  }
}
