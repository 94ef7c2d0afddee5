/**
 What each operation of the memory system brings about, in terms of the free list and of the address spaces as
 finite maps: the abstract machine that MemoryRuns.Exec refines.
 */
module MemoryEffects {
  import opened Mmu
  import opened Pmap
  import opened Ownership
  import opened PrimitiveSteps
  import opened PageOps
  import opened AddressSpace
  import opened Teardown
  import opened KernelMappings
  import opened Hardware
  import opened MemoryRuns

  ghost function FreeOf(s: System): seq<nat>
    requires Good(s)
  {
    WorldOf(s).free
  }

  ghost function MapOf(s: System, d: nat): map<Slot, Word>
    requires FramesShape(s.mem.frames) && d < |s.mem.frames|
  {
    UserMap(s.mem.frames, d)
  }

  /** Every directory but d keeps its map. */
  ghost predicate OthersKept(s: System, s': System, d: nat) {
    && FramesShape(s.mem.frames) && FramesShape(s'.mem.frames) && |s'.mem.frames| == |s.mem.frames|
    && forall x: nat :: (x in s.dirs || x == s.kern) && x != d && x < |s.mem.frames| ==> MapOf(s', x) == MapOf(s, x)
  }

  lemma Described(s: System, w: World)
    requires Describes(s, w)
    ensures Good(s) && WorldOf(s) == w && FreeOf(s) == w.free && FramesShape(s.mem.frames)
    ensures forall d: nat :: d in s.dirs || d == s.kern ==> d < |s.mem.frames| && Root(w.lay, d)
  {
    assert Good(s);
    WorldUnique(s, w, WorldOf(s));
    RootsInRange(s.mem, w);
    hide Inv, Good;
    assert forall d: nat :: Root(w.lay, d) <==> d in s.dirs || d == s.kern;
  }

  /** page_alloc takes the first free page, cleared if asked, and page_free puts a page first. */
  lemma AllocEffect(s: System, zero: bool)
    requires Good(s)
    ensures Shape(s.mem) && s.kern < |s.mem.pages|
    ensures var s', free := Exec(s, Alloc(zero)), FreeOf(s);
            && Good(s') && FreeOf(s') == (if free == [] then [] else free[1..])
            && s'.mem.frames == (if free != [] && zero && free[0] < |s.mem.frames| then s.mem.frames[free[0] := ZeroFrame()] else s.mem.frames)
            && s' == s.(mem := s'.mem)
  {
    var w := WorldOf(s);
    AllocStep(s.mem, w, zero);
    var s' := Exec(s, Alloc(zero));
    assert w.free != [] ==> w.free[0] in w.free && s.mem.head == Ptr(w.free[0]);
    var w' := if w.free == [] then w else w.(free := w.free[1..]);
    assert Describes(s', w');
    Described(s', w');
  }

  lemma FreeEffect(s: System, pp: nat)
    requires Good(s) && Legal(s, Free(pp))
    ensures var s' := Exec(s, Free(pp));
            Good(s') && FreeOf(s') == [pp] + FreeOf(s) && s'.mem.frames == s.mem.frames && s' == s.(mem := s'.mem)
  {
    var w := WorldOf(s);
    FreeStep(s.mem, w, pp);
    var s', w' := Exec(s, Free(pp)), w.(free := [pp] + w.free);
    assert Describes(s', w');
    Described(s', w');
  }

  /** page_insert updates one map, or changes nothing for want of a page table. */
  lemma InsertEffect(s: System, d: nat, pp: nat, i: nat, j: nat, perm: bv12)
    requires Good(s) && Legal(s, Insert(d, pp, i, j, perm))
    ensures var s' := Exec(s, Insert(d, pp, i, j, perm));
            && s' == s.(mem := s'.mem) && FramesShape(s.mem.frames) && FramesShape(s'.mem.frames)
            && d < |s.mem.frames| == |s'.mem.frames|
            && (if !Present(s.mem.frames[d][i]) && FreeOf(s) == [] then s' == s
                else MapOf(s', d) == MapOf(s, d)[(i, j) := Word(pp, perm | PTE_P)] && OthersKept(s, s', d))
  {
    hide Structure, FreeList, Counts, PageInsert, UserMap;
    var w := WorldOf(s);
    Described(s, w);
    InsertRefines(s.mem, w, d, pp, i, j, perm);
  }

  lemma RemoveEffect(s: System, d: nat, i: nat, j: nat)
    requires Good(s) && Legal(s, Remove(d, i, j))
    ensures var s' := Exec(s, Remove(d, i, j));
            && s' == s.(mem := s'.mem) && FramesShape(s.mem.frames) && FramesShape(s'.mem.frames)
            && d < |s.mem.frames| == |s'.mem.frames|
            && MapOf(s', d) == MapOf(s, d) - {(i, j)} && OthersKept(s, s', d)
  {
    hide Structure, FreeList, Counts, PageRemove, UserMap;
    var w := WorldOf(s);
    Described(s, w);
    RemoveRefines(s.mem, w, d, i, j);
  }

  /** A new page table makes no page visible, and is there afterwards unless memory is exhausted. */
  lemma WalkEffect(s: System, d: nat, i: nat)
    requires Good(s) && Legal(s, Walk(d, i))
    ensures var s' := Exec(s, Walk(d, i));
            && s' == s.(mem := s'.mem) && FramesShape(s.mem.frames) && FramesShape(s'.mem.frames)
            && d < |s.mem.frames| == |s'.mem.frames|
            && (Present(s'.mem.frames[d][i]) <==> Present(s.mem.frames[d][i]) || FreeOf(s) != [])
            && MapOf(s', d) == MapOf(s, d) && OthersKept(s, s', d)
  {
    hide Structure, FreeList, Counts, PgdirWalk, UserMap, Translate;
    var w := WorldOf(s);
    Described(s, w);
    WalkCreates(s.mem, w, d, i);
    var s' := Exec(s, Walk(d, i));
    forall x: nat | x in s.dirs || x == s.kern ensures MapOf(s', x) == MapOf(s, x) {
      forall a: nat, b: nat | a < UTOPX && b < NPTENTRIES
        ensures Translate(s'.mem.frames, x, a, b) == Translate(s.mem.frames, x, a, b)
      {
        TranslateAfterWalk(s.mem, w, d, i, x, a, b);
      }
      UserMapSame(s.mem.frames, s'.mem.frames, x);
    }
  }

  /** A new environment gets the first free page for a directory, with nothing mapped. */
  lemma CreateEffect(s: System)
    requires Good(s) && Legal(s, EnvCreate)
    ensures FramesShape(s.mem.frames)
    ensures var s', free := Exec(s, EnvCreate), FreeOf(s);
            if free == [] then s' == s
            else
              && s'.dirs == s.dirs + {free[0]} && free[0] !in s.dirs && s'.kern == s.kern && s'.pins == s.pins
              && Good(s') && FreeOf(s') == free[1..] && FramesShape(s'.mem.frames) && free[0] < |s'.mem.frames|
              && MapOf(s', free[0]) == map[] && OthersKept(s, s', free[0])
  {
    hide Structure, FreeList, Counts, EnvSetupVm, UserMap, Translate, KernelUserPartEmpty;
    var w := WorldOf(s);
    Described(s, w);
    SetupVm(s.mem, w);
    var s' := Exec(s, EnvCreate);
    if w.free != [] {
      assert Describes(s', SetupWorld(w));
      Described(s', SetupWorld(w));
      assert w.free[0] in w.free;
      FreePageIsUnused(s.mem, w, w.free[0]);
      forall x: nat | x in s.dirs || x == s.kern ensures MapOf(s', x) == MapOf(s, x) {
        UserMapSame(s.mem.frames, s'.mem.frames, x);
      }
    }
  }

  /** A destroyed environment's directory is gone, all its slots are empty, and the other maps are unchanged. */
  lemma DestroyEffect(s: System, d: nat)
    requires Good(s) && Legal(s, EnvDestroy(d))
    ensures var s' := Exec(s, EnvDestroy(d));
            && s'.dirs == s.dirs - {d} && s'.kern == s.kern && s'.pins == s.pins && OthersKept(s, s', d)
            && d < |s'.mem.frames| && forall i: nat :: i < UTOPX ==> !Present(s'.mem.frames[d][i])
  {
    hide FreeList, Counts, EnvFreeVm, UserMap, Translate, DataTargets, KernelHalf, Limbo;
    var w := WorldOf(s);
    Described(s, w);
    var s' := Exec(s, EnvDestroy(d));
    var w' := EnvFreeConserves(s.mem, w, d);
    var w'' := EnvFreeVmInv(s.mem, w, d);
    EmptiedAfterLoop(s.mem.frames, s'.mem.frames, w.lay, d);
    hide Structure;
    forall x: nat | (x in s.dirs || x == s.kern) && x != d ensures MapOf(s', x) == MapOf(s, x) {
      UserMapSame(s.mem.frames, s'.mem.frames, x);
    }
  }

  /** A user store that the hardware lets through changes the word it names, and nothing else. */
  lemma StoreEffect(s: System, d: nat, i: nat, j: nat, k: nat, e: Word)
    requires Good(s) && Legal(s, Store(d, i, j, k, e))
    ensures Shape(s.mem) && d < |s.mem.frames|
    ensures var s' := Exec(s, Store(d, i, j, k, e));
            && s' == s.(mem := s.mem.(frames := s'.mem.frames))
            && (if UserMayWrite(s.mem.frames, d, i, j) then
                  var q := s.mem.frames[s.mem.frames[d][i].pfn][j].pfn;
                  q < |s.mem.frames| && s'.mem.frames == Put(s.mem.frames, q, k, e)
                else s' == s)
  {
    var w := WorldOf(s);
    Described(s, w);
    if UserMayWrite(s.mem.frames, d, i, j) {
      UserWritesDataOnly(s.mem, w, d, i, j);
    }
  }

  /** boot_map_region maps the requested pages of kern_pgdir. */
  lemma BootMapEffect(s: System, v: nat, count: nat, pfn: nat, perm: bv12)
    requires Good(s) && Legal(s, BootMap(v, count, pfn, perm))
    ensures var s' := Exec(s, BootMap(v, count, pfn, perm));
            && s' == s.(mem := s'.mem) && FramesShape(s.mem.frames) && FramesShape(s'.mem.frames)
            && s.kern < |s.mem.frames| && s.kern < |s'.mem.frames|
            && MapsRange(s.mem.frames, s'.mem.frames, s.kern, v, count, pfn, perm | PTE_P)
  {
    hide Structure, FreeList, Counts, BootMapRegion, MapsRange, TablesNeeded;
    var w := WorldOf(s);
    Described(s, w);
    var w' := BootMapRegionMaps(s.mem, w, v, count, pfn, perm);
  }
}
