/**
 Environments, memory and several CPUs together: env_alloc, env_free, env_destroy, env_run, sched_halt and
 the reap in trap(), as steps taken by one CPU at a time under the big kernel lock.
 */
module KernelRuns {
  import opened Mmu
  import opened Pmap
  import opened AddressSpace
  import opened Teardown
  import opened MemoryRuns
  import opened Environments
  import Boot

  /** `cur[c]` is curenv of CPU c; `inside` is the CPU that holds the kernel lock. */
  datatype Kernel = Kernel(t: Table, sys: System, cur: seq<Option<nat>>, inside: Option<nat>)

  datatype Step =
    | Enter(cpu: nat)
    | Create(cpu: nat, parent: int)
    | Destroy(cpu: nat, env: nat)
    | Resume(cpu: nat, env: nat)
    | Halt(cpu: nat)
    | Memory(op: Op)

  // ------------------------------------------------------------ what each step does

  /** env_free: memory, then the slot. */
  ghost function EnvFree(k: Kernel, e: nat): Kernel
    requires TableShape(k.t) && Shape(k.sys.mem) && e < NENV && LiveDir(k, e)
  {
    var d := k.t.envs[e].pgdir.page;
    k.(t := FreeSlot(k.t, e), sys := k.sys.(mem := EnvFreeVm(k.sys.mem, d), dirs := k.sys.dirs - {d}))
  }

  ghost predicate LiveDir(k: Kernel, e: nat)
    requires TableShape(k.t) && e < NENV
  {
    k.t.envs[e].pgdir.Ptr? && k.t.envs[e].pgdir.page < |k.sys.mem.pages|
  }

  function SetStatus(t: Table, e: nat, s: Status): (r: Table)
    requires TableShape(t) && e < NENV
    ensures TableShape(r)
  {
    t.(envs := t.envs[e := t.envs[e].(status := s)])
  }

  /** env_run: the previous environment goes back to RUNNABLE if it was RUNNING. */
  function EnvRun(k: Kernel, c: nat, e: nat): Kernel
    requires TableShape(k.t) && c < |k.cur| && e < NENV && (k.cur[c].Some? ==> k.cur[c].value < NENV)
  {
    var t1 := if k.cur[c].Some? && k.t.envs[k.cur[c].value].status == Running
              then SetStatus(k.t, k.cur[c].value, Runnable) else k.t;
    k.(t := SetStatus(t1, e, Running), cur := k.cur[c := Some(e)])
  }

  /** env_destroy as called on CPU c. */
  ghost function EnvDestroy(k: Kernel, c: nat, e: nat): Kernel
    requires TableShape(k.t) && Shape(k.sys.mem) && c < |k.cur| && e < NENV && LiveDir(k, e)
  {
    if k.t.envs[e].status == Running && k.cur[c] != Some(e) then k.(t := SetStatus(k.t, e, Dying))
    else
      var k1 := EnvFree(k, e);
      if k.cur[c] == Some(e) then k1.(cur := k.cur[c := None]) else k1
  }

  // ---------------------------------------------------------------- the invariant

  predicate OnCpu(s: Status) { s == Running || s == Dying }

  /**
   Every RUNNING or DYING environment is curenv of exactly one CPU, a CPU's curenv is RUNNING or DYING, and
   the CPU inside the kernel is not running a zombie.
   */
  ghost predicate Cpus(k: Kernel)
    requires TableShape(k.t)
  {
    && (forall c :: 0 <= c < |k.cur| && k.cur[c].Some? ==> k.cur[c].value < NENV && OnCpu(k.t.envs[k.cur[c].value].status))
    && (forall c, c' :: 0 <= c < c' < |k.cur| && k.cur[c].Some? ==> k.cur[c] != k.cur[c'])
    && (forall e: nat :: e < NENV && OnCpu(k.t.envs[e].status) ==> Some(e) in k.cur)
    && (k.inside.Some? ==> k.inside.value < |k.cur| && !Zombie(k, k.inside.value))
  }

  ghost predicate Zombie(k: Kernel, c: nat)
    requires TableShape(k.t) && c < |k.cur|
  {
    k.cur[c].Some? && k.cur[c].value < NENV && k.t.envs[k.cur[c].value].status == Dying
  }

  /** The live environments' directories are exactly the system's directories, one each. */
  ghost predicate Dirs(k: Kernel)
    requires TableShape(k.t)
  {
    && (forall e: nat :: e < NENV && Live(k.t, e) ==> k.t.envs[e].pgdir.Ptr? && k.t.envs[e].pgdir.page in k.sys.dirs)
    && (forall a: nat, b: nat :: a < b < NENV && Live(k.t, a) && Live(k.t, b) ==>
          k.t.envs[a].pgdir != k.t.envs[b].pgdir)
    && (forall d :: d in k.sys.dirs ==> exists e: nat :: e < NENV && Live(k.t, e) && k.t.envs[e].pgdir == Ptr(d))
  }

  ghost predicate KernelInv(k: Kernel, allocs: seq<nat>, free: seq<nat>) {
    TableShape(k.t) && TableInv(k.t, allocs, free) && Good(k.sys) && Dirs(k) && Cpus(k)
  }

  ghost predicate KernelGood(k: Kernel) { exists allocs, free :: KernelInv(k, allocs, free) }

  /** The same, with the number of times each slot has been allocated. */
  ghost predicate GoodWith(k: Kernel, allocs: seq<nat>) { exists free :: KernelInv(k, allocs, free) }

  // --------------------------------------------------------------------- the steps

  ghost predicate Enabled(k: Kernel, s: Step)
    requires KernelGood(k)
  {
    match s
    case Enter(c) => k.inside == None && c < |k.cur|
    case Create(c, parent) =>
      // the initial address space below UTOP is a copy of kern_pgdir's, which must be empty
      k.inside == Some(c) && KernelUserPartEmpty(k.sys.mem.frames, WorldOf(k.sys).lay)
    case Destroy(c, e) => k.inside == Some(c) && e < NENV && Live(k.t, e) && k.t.envs[e].status != Dying
    case Resume(c, e) =>
      k.inside == Some(c) && e < NENV &&
      (k.t.envs[e].status == Runnable || (k.cur[c] == Some(e) && k.t.envs[e].status == Running))
    case Halt(c) => k.inside == Some(c) && k.cur[c] == None
    case Memory(op) => !op.EnvCreate? && !op.EnvDestroy? && Legal(k.sys, op)
  }

  lemma LiveDirs(k: Kernel)
    requires KernelGood(k)
    ensures TableShape(k.t) && Shape(k.sys.mem) && k.sys.kern < |k.sys.mem.pages|
    ensures forall e: nat :: e < NENV && Live(k.t, e) ==> LiveDir(k, e)
    ensures forall e: nat :: e < NENV ==> 0 <= k.t.envs[e].id < 0x8000_0000
    ensures forall c :: 0 <= c < |k.cur| && k.cur[c].Some? ==> k.cur[c].value < NENV
    ensures k.inside.Some? ==> k.inside.value < |k.cur|
  {
    var allocs, free :| KernelInv(k, allocs, free);
    var w := WorldOf(k.sys);
  }

  /** Trap entry: a zombie is freed before anything else happens. */
  ghost function TrapEntry(k: Kernel, c: nat): Kernel
    requires TableShape(k.t) && Shape(k.sys.mem) && c < |k.cur| && (Zombie(k, c) ==> LiveDir(k, k.cur[c].value))
  {
    var k1 := k.(inside := Some(c));
    if Zombie(k, c) then EnvFree(k1, k.cur[c].value).(cur := k.cur[c := None]) else k1
  }

  /** env_alloc finds a slot and a page for the directory. */
  ghost predicate Succeeds(k: Kernel)
    requires Shape(k.sys.mem) && k.sys.kern < |k.sys.mem.pages|
  {
    k.t.head.Ptr? && EnvSetupVm(k.sys.mem, k.sys.kern).1.Ptr?
  }

  /** env_alloc: -E_NO_FREE_ENV and -E_NO_MEM change nothing. */
  ghost function EnvAlloc(k: Kernel, parent: int): Kernel
    requires TableShape(k.t) && Shape(k.sys.mem) && k.sys.kern < |k.sys.mem.pages|
    requires forall e: nat :: e < NENV ==> 0 <= k.t.envs[e].id < 0x8000_0000
  {
    var (m, pp) := EnvSetupVm(k.sys.mem, k.sys.kern);
    if !Succeeds(k) then k
    else k.(t := AllocSlot(k.t, parent, pp.page), sys := k.sys.(mem := m, dirs := k.sys.dirs + {pp.page}))
  }

  /** sched_halt: no environment is current any more, and the lock is released. */
  function SchedHalt(k: Kernel, c: nat): Kernel
    requires c < |k.cur|
  {
    k.(cur := k.cur[c := None], inside := None)
  }

  /** What the step functions need to be defined. */
  ghost predicate Ready(k: Kernel, s: Step) {
    && TableShape(k.t) && Shape(k.sys.mem) && k.sys.kern < |k.sys.mem.pages|
    && (forall e: nat :: e < NENV ==> 0 <= k.t.envs[e].id < 0x8000_0000)
    && match s
       case Enter(c) => c < |k.cur| && (Zombie(k, c) ==> LiveDir(k, k.cur[c].value))
       case Create(_, _) => true
       case Destroy(c, e) => c < |k.cur| && e < NENV && LiveDir(k, e)
       case Resume(c, e) => c < |k.cur| && e < NENV && (k.cur[c].Some? ==> k.cur[c].value < NENV)
       case Halt(c) => c < |k.cur|
       case Memory(op) => InRange(k.sys, op)
  }

  lemma EnabledIsReady(k: Kernel, s: Step)
    requires KernelGood(k) && Enabled(k, s)
    ensures Ready(k, s)
  {
    LiveDirs(k);
    hide KernelGood, Shape, Good, Allowed, KernelUserPartEmpty, InRange;
  }

  ghost function Do(k: Kernel, s: Step): Kernel
    requires Ready(k, s)
  {
    match s
    case Enter(c) => TrapEntry(k, c)
    case Create(c, parent) => EnvAlloc(k, parent)
    case Destroy(c, e) => EnvDestroy(k, c, e)
    case Resume(c, e) => EnvRun(k, c, e).(inside := None)
    case Halt(c) => SchedHalt(k, c)
    case Memory(op) => k.(sys := Exec(k.sys, op))
  }

  ghost function Take(k: Kernel, s: Step): Kernel
    requires KernelGood(k) && Enabled(k, s)
  {
    EnabledIsReady(k, s);
    Do(k, s)
  }

  // ------------------------------------------------- environments and their memory

  lemma FreeKeepsMemory(k: Kernel, allocs: seq<nat>, free: seq<nat>, e: nat)
    requires TableInv(k.t, allocs, free) && Good(k.sys) && Dirs(k) && e < NENV && Live(k.t, e)
    ensures Shape(k.sys.mem) && LiveDir(k, e)
    ensures TableInv(EnvFree(k, e).t, allocs, [e] + free) && Good(EnvFree(k, e).sys)
  {
    var w := WorldOf(k.sys);
    var d := k.t.envs[e].pgdir.page;
    FreeKeepsTable(k.t, allocs, free, e);
    assert Legal(k.sys, Op.EnvDestroy(d));
    StepKeepsGood(k.sys, Op.EnvDestroy(d));
  }

  lemma FreeKeepsDirs(k: Kernel, e: nat)
    requires TableShape(k.t) && Shape(k.sys.mem) && Dirs(k) && e < NENV && Live(k.t, e) && LiveDir(k, e)
    ensures Dirs(EnvFree(k, e))
  {
    var k' := EnvFree(k, e);
    var d := k.t.envs[e].pgdir.page;
    assert forall x: nat :: x < NENV && x != e ==> k'.t.envs[x] == k.t.envs[x];
    assert !Live(k'.t, e);
    forall d' | d' in k'.sys.dirs ensures exists x: nat :: x < NENV && Live(k'.t, x) && k'.t.envs[x].pgdir == Ptr(d') {
      var x: nat :| x < NENV && Live(k.t, x) && k.t.envs[x].pgdir == Ptr(d');
      assert x != e && Live(k'.t, x);
    }
    forall x: nat | x < NENV && Live(k'.t, x)
      ensures k'.t.envs[x].pgdir.Ptr? && k'.t.envs[x].pgdir.page in k'.sys.dirs
    {
      assert Live(k.t, x) && k.t.envs[x].pgdir != k.t.envs[e].pgdir;
    }
    assert forall a: nat :: a < NENV && Live(k'.t, a) ==> Live(k.t, a);
  }

  ghost function Advanced(allocs: seq<nat>, e: nat): seq<nat> {
    if e < |allocs| then allocs[e := allocs[e] + 1] else allocs
  }

  lemma CreateKeeps(k: Kernel, allocs: seq<nat>, free: seq<nat>, parent: int)
    requires KernelInv(k, allocs, free) && KernelUserPartEmpty(k.sys.mem.frames, WorldOf(k.sys).lay)
    requires k.t.head.Ptr? && Shape(k.sys.mem) && k.sys.kern < |k.sys.mem.pages|
    requires EnvSetupVm(k.sys.mem, k.sys.kern).1.Ptr? && 0 <= k.t.envs[k.t.head.page].id < 0x8000_0000
    ensures var (m, pp) := EnvSetupVm(k.sys.mem, k.sys.kern);
            var k' := k.(t := AllocSlot(k.t, parent, pp.page), sys := k.sys.(mem := m, dirs := k.sys.dirs + {pp.page}));
            free != [] && k.t.head == Ptr(free[0]) && KernelInv(k', Advanced(allocs, free[0]), free[1..])
  {
    hide Good, Dirs, Cpus, EnvSetupVm, KernelUserPartEmpty, Describes;
    var (m, pp) := EnvSetupVm(k.sys.mem, k.sys.kern);
    var e := k.t.head.page;
    var k' := k.(t := AllocSlot(k.t, parent, pp.page), sys := k.sys.(mem := m, dirs := k.sys.dirs + {pp.page}));
    AllocKeepsTable(k.t, allocs, free, parent, pp.page);
    CreateGood(k.sys);
    NewDirIsNew(k.sys);
    CreateKeepsDirs(k, k', e, pp.page);
    CreateKeepsCpus(k, k', e);
  }

  lemma CreateGood(s: System)
    requires Good(s) && Shape(s.mem) && s.kern < |s.mem.pages| && KernelUserPartEmpty(s.mem.frames, WorldOf(s).lay)
    requires EnvSetupVm(s.mem, s.kern).1.Ptr?
    ensures var (m, pp) := EnvSetupVm(s.mem, s.kern); Good(s.(mem := m, dirs := s.dirs + {pp.page}))
  {
    assert Legal(s, Op.EnvCreate);
    StepKeepsGood(s, Op.EnvCreate);
  }

  lemma NewDirIsNew(s: System)
    requires Good(s) && Shape(s.mem) && s.kern < |s.mem.pages| && EnvSetupVm(s.mem, s.kern).1.Ptr?
    requires KernelUserPartEmpty(s.mem.frames, WorldOf(s).lay)
    ensures EnvSetupVm(s.mem, s.kern).1.page !in s.dirs
  {
    var w := WorldOf(s);
    SetupVm(s.mem, w);
    GoodMeans(s);
    assert w.free[0] in w.free;
  }

  lemma CreateKeepsDirs(k: Kernel, k': Kernel, e: nat, d: nat)
    requires TableShape(k.t) && TableShape(k'.t) && Dirs(k) && e < NENV && !Live(k.t, e) && d !in k.sys.dirs
    requires k'.sys.dirs == k.sys.dirs + {d} && Live(k'.t, e) && k'.t.envs[e].pgdir == Ptr(d)
    requires forall x: nat :: x < NENV && x != e ==> k'.t.envs[x] == k.t.envs[x]
    ensures Dirs(k')
  {
    assert forall x: nat :: x < NENV && x != e ==> (Live(k'.t, x) <==> Live(k.t, x));
    forall d' | d' in k'.sys.dirs ensures exists x: nat :: x < NENV && Live(k'.t, x) && k'.t.envs[x].pgdir == Ptr(d') {
      if d' != d {
        var x: nat :| x < NENV && Live(k.t, x) && k.t.envs[x].pgdir == Ptr(d');
        assert x != e && Live(k'.t, x);
      }
    }
  }

  lemma CreateKeepsCpus(k: Kernel, k': Kernel, e: nat)
    requires TableShape(k.t) && TableShape(k'.t) && Cpus(k) && e < NENV && !Live(k.t, e)
    requires k'.cur == k.cur && k'.inside == k.inside && k'.t.envs[e].status == Runnable
    requires forall x: nat :: x < NENV && x != e ==> k'.t.envs[x] == k.t.envs[x]
    ensures Cpus(k')
  {
    assert forall c :: 0 <= c < |k.cur| && k.cur[c].Some? ==> k.cur[c].value != e;
  }

  // ------------------------------------------------------------------------- CPUs

  /** No CPU but `c` has environment e as curenv. */
  ghost predicate OnlyHere(k: Kernel, c: nat, e: nat) {
    forall c' :: 0 <= c' < |k.cur| && k.cur[c'] == Some(e) ==> c' == c
  }

  /** Freeing an environment that no other CPU has as curenv, and dropping it here, keeps the CPU invariant. */
  lemma FreeKeepsCpus(k: Kernel, k': Kernel, c: nat, e: nat)
    requires TableShape(k.t) && TableShape(k'.t) && Cpus(k) && c < |k.cur| && e < NENV && OnlyHere(k, c, e)
    requires !OnCpu(k'.t.envs[e].status)
    requires forall x: nat :: x < NENV && x != e ==> k'.t.envs[x] == k.t.envs[x]
    requires k'.cur == if k.cur[c] == Some(e) then k.cur[c := None] else k.cur
    requires k'.inside == Some(c)
    requires k.cur[c] != Some(e) ==> !Zombie(k, c)
    ensures Cpus(k')
  {
    forall x: nat | x < NENV && OnCpu(k'.t.envs[x].status) ensures Some(x) in k'.cur {
      var y :| 0 <= y < |k.cur| && k.cur[y] == Some(x);
      assert k'.cur[y] == Some(x);
    }
  }

  /** env_run keeps the CPU invariant if and only if it does not switch away from a zombie. */
  lemma EnvRunExact(k: Kernel, c: nat, e: nat)
    requires TableShape(k.t) && Cpus(k) && c < |k.cur| && e < NENV
    requires k.t.envs[e].status == Runnable || (k.cur[c] == Some(e) && k.t.envs[e].status == Running)
    ensures Cpus(EnvRun(k, c, e).(inside := None)) <==> !Zombie(k, c)
  {
    var k' := EnvRun(k, c, e).(inside := None);
    if Zombie(k, c) {
      var x := k.cur[c].value;
      assert k'.t.envs[x].status == Dying;
      assert forall y :: 0 <= y < |k.cur| && y != c ==> k'.cur[y] == k.cur[y] != Some(x);
      assert Some(x) !in k'.cur;
    } else {
      EnvRunKeepsCpus(k, c, e);
    }
  }

  lemma EnvRunKeepsCpus(k: Kernel, c: nat, e: nat)
    requires TableShape(k.t) && Cpus(k) && c < |k.cur| && e < NENV && !Zombie(k, c)
    requires k.t.envs[e].status == Runnable || (k.cur[c] == Some(e) && k.t.envs[e].status == Running)
    ensures Cpus(EnvRun(k, c, e).(inside := None))
  {
    var k' := EnvRun(k, c, e).(inside := None);
    assert k'.cur[c] == Some(e);
    assert forall y :: 0 <= y < |k.cur| && y != c ==> k'.cur[y] == k.cur[y] && k.cur[y] != Some(e);
    forall x: nat | x < NENV && OnCpu(k'.t.envs[x].status) ensures Some(x) in k'.cur {
      if x != e {
        var y :| 0 <= y < |k.cur| && k.cur[y] == Some(x);
        assert k'.cur[y] == Some(x);
      }
    }
    assert forall y :: 0 <= y < |k'.cur| && k'.cur[y].Some? ==> OnCpu(k'.t.envs[k'.cur[y].value].status);
  }

  /** sched_halt keeps the CPU invariant if and only if no environment is current on its CPU. */
  lemma HaltExact(k: Kernel, c: nat)
    requires TableShape(k.t) && Cpus(k) && k.inside == Some(c)
    ensures Cpus(SchedHalt(k, c)) <==> k.cur[c] == None
  {
    var k' := SchedHalt(k, c);
    if k.cur[c] == None {
      assert k'.cur == k.cur;
      SameCpus(k, k');
    } else {
      var e := k.cur[c].value;
      assert OnCpu(k'.t.envs[e].status) && Some(e) !in k'.cur;
    }
  }

  /** env_destroy on a live environment keeps the CPU invariant if and only if it is not already DYING. */
  lemma DestroyExact(k: Kernel, c: nat, e: nat)
    requires TableShape(k.t) && Shape(k.sys.mem) && Cpus(k) && k.inside == Some(c) && e < NENV && Live(k.t, e) && LiveDir(k, e)
    ensures Cpus(EnvDestroy(k, c, e)) <==> k.t.envs[e].status != Dying
  {
    hide EnvFreeVm, Shape;
    if k.t.envs[e].status == Dying {
      DestroyDying(k, c, e);
    } else if k.t.envs[e].status == Running && k.cur[c] != Some(e) {
      DestroyElsewhere(k, c, e);
    } else {
      assert OnlyHere(k, c, e);
      FreeKeepsCpus(k, EnvDestroy(k, c, e), c, e);
    }
  }

  lemma DestroyDying(k: Kernel, c: nat, e: nat)
    requires TableShape(k.t) && Shape(k.sys.mem) && Cpus(k) && k.inside == Some(c) && e < NENV && LiveDir(k, e)
    requires k.t.envs[e].status == Dying
    ensures !Cpus(EnvDestroy(k, c, e))
  {
    hide EnvFreeVm, Shape;
    var k' := EnvDestroy(k, c, e);
    var y :| 0 <= y < |k.cur| && k.cur[y] == Some(e);
    assert y != c && k'.cur[y] == Some(e) && k'.t.envs[e].status == Status.Free;
  }

  lemma DestroyElsewhere(k: Kernel, c: nat, e: nat)
    requires TableShape(k.t) && Shape(k.sys.mem) && Cpus(k) && k.inside == Some(c) && e < NENV && LiveDir(k, e)
    requires k.t.envs[e].status == Running && k.cur[c] != Some(e)
    ensures Cpus(EnvDestroy(k, c, e))
  {
    hide EnvFreeVm, Shape;
    var k' := EnvDestroy(k, c, e);
    assert forall x: nat :: x < NENV && x != e ==> k'.t.envs[x] == k.t.envs[x];
  }

  // ------------------------------------------------------------- every run is safe

  lemma ZombieEntryKeeps(k: Kernel, allocs: seq<nat>, free: seq<nat>, c: nat)
    requires KernelInv(k, allocs, free) && c < |k.cur| && Zombie(k, c)
    requires Shape(k.sys.mem) && LiveDir(k, k.cur[c].value)
    ensures GoodWith(TrapEntry(k, c), allocs)
  {
    hide Good, Dirs, TableInv, EnvFreeVm, Shape, KernelGood;
    var e := k.cur[c].value;
    var kf := FreeEverything(k, allocs, free, e);
    var k' := TrapEntry(k, c);
    FreeKeepsCpus(k, k', c, e);
    hide Cpus;
    SameDirs(kf, k');
    Witness(k', allocs, [e] + free);
  }

  lemma QuietEntryKeeps(k: Kernel, allocs: seq<nat>, free: seq<nat>, c: nat)
    requires KernelInv(k, allocs, free) && c < |k.cur| && !Zombie(k, c) && Shape(k.sys.mem)
    ensures GoodWith(TrapEntry(k, c), allocs)
  {
    hide Good, Dirs, TableInv, EnvFreeVm, Shape, KernelGood;
    EnterQuietly(k, c);
    hide Cpus;
    SameDirs(k, TrapEntry(k, c));
    Witness(TrapEntry(k, c), allocs, free);
  }

  lemma EnterQuietly(k: Kernel, c: nat)
    requires TableShape(k.t) && Cpus(k) && c < |k.cur| && !Zombie(k, c)
    ensures Cpus(k.(inside := Some(c)))
  {
    assert !Zombie(k.(inside := Some(c)), c);
  }

  lemma GoodShape(s: System)
    requires Good(s)
    ensures Shape(s.mem) && s.kern < |s.mem.pages|
  {
    var w := WorldOf(s);
  }

  lemma TableShaped(t: Table, allocs: seq<nat>, free: seq<nat>)
    requires TableInv(t, allocs, free)
    ensures TableShape(t)
    ensures t.head.Ptr? ==> !Live(t, t.head.page)
  {
    assert free != [] ==> free[0] in free;
  }

  /** env_free's effect on table, memory and directories together. */
  lemma FreeEverything(k: Kernel, allocs: seq<nat>, free: seq<nat>, e: nat) returns (k': Kernel)
    requires TableInv(k.t, allocs, free) && Good(k.sys) && Dirs(k) && e < NENV && Live(k.t, e)
    ensures Shape(k.sys.mem) && LiveDir(k, e) && k' == EnvFree(k, e)
    ensures TableInv(k'.t, allocs, [e] + free) && Good(k'.sys) && Dirs(k')
  {
    FreeKeepsMemory(k, allocs, free, e);
    FreeKeepsDirs(k, e);
    k' := EnvFree(k, e);
  }

  lemma DestroyKeeps(k: Kernel, allocs: seq<nat>, free: seq<nat>, c: nat, e: nat)
    requires KernelInv(k, allocs, free) && k.inside == Some(c) && e < NENV && Live(k.t, e) && k.t.envs[e].status != Dying
    requires Shape(k.sys.mem) && LiveDir(k, e) && c < |k.cur|
    ensures GoodWith(EnvDestroy(k, c, e), allocs)
  {
    hide Good, Dirs, TableInv, EnvFreeVm, Shape, KernelGood, Cpus;
    DestroyExact(k, c, e);
    var k' := EnvDestroy(k, c, e);
    if k.t.envs[e].status == Running && k.cur[c] != Some(e) {
      StatusKeepsTable(k, k', allocs, free);
    } else {
      var kf := FreeEverything(k, allocs, free, e);
      SameDirs(kf, k');
      Witness(k', allocs, [e] + free);
    }
  }

  /** Changing statuses among live ones touches neither the free list, the ids nor the directories. */
  lemma StatusKeepsTable(k: Kernel, k': Kernel, allocs: seq<nat>, free: seq<nat>)
    requires KernelInv(k, allocs, free) && TableShape(k'.t) && k'.sys == k.sys && k'.t.head == k.t.head && Cpus(k')
    requires forall x: nat :: x < NENV ==>
               && k'.t.envs[x] == k.t.envs[x].(status := k'.t.envs[x].status)
               && (Live(k'.t, x) <==> Live(k.t, x))
    ensures GoodWith(k', allocs)
  {
    forall i: nat | i < |free| ensures EnvLink(k'.t.envs, free, i) {
      assert EnvLink(k.t.envs, free, i);
    }
    assert TableInv(k'.t, allocs, free);
    forall d | d in k'.sys.dirs ensures exists x: nat :: x < NENV && Live(k'.t, x) && k'.t.envs[x].pgdir == Ptr(d) {
      var x: nat :| x < NENV && Live(k.t, x) && k.t.envs[x].pgdir == Ptr(d);
      assert Live(k'.t, x);
    }
    assert Dirs(k');
    assert KernelInv(k', allocs, free);
  }

  lemma MemoryKeeps(k: Kernel, allocs: seq<nat>, free: seq<nat>, op: Op)
    requires KernelInv(k, allocs, free) && !op.EnvCreate? && !op.EnvDestroy? && Legal(k.sys, op)
    ensures GoodWith(k.(sys := Exec(k.sys, op)), allocs)
  {
    GoodShape(k.sys);
    hide Good, Describes, Dirs, Cpus, Shape, Allowed, TableInv;
    StepKeepsGood(k.sys, op);
    var k' := k.(sys := Exec(k.sys, op));
    TableShaped(k.t, allocs, free);
    SameDirs(k, k');
    SameCpus(k, k');
    Witness(k', allocs, free);
  }

  lemma SameDirs(k: Kernel, k': Kernel)
    requires TableShape(k.t) && Dirs(k) && k'.t == k.t && k'.sys.dirs == k.sys.dirs
    ensures Dirs(k')
  {
    forall d | d in k'.sys.dirs ensures exists x: nat :: x < NENV && Live(k'.t, x) && k'.t.envs[x].pgdir == Ptr(d) {
      var x: nat :| x < NENV && Live(k.t, x) && k.t.envs[x].pgdir == Ptr(d);
      assert Live(k'.t, x);
    }
  }

  lemma SameCpus(k: Kernel, k': Kernel)
    requires TableShape(k.t) && Cpus(k) && k'.t == k.t && k'.cur == k.cur
    requires k'.inside == k.inside || k'.inside == None
    ensures Cpus(k')
  {
    assert forall c: nat :: c < |k.cur| ==> (Zombie(k', c) <==> Zombie(k, c));
  }

  lemma CreateStep(k: Kernel, allocs: seq<nat>, free: seq<nat>, parent: int)
    requires KernelInv(k, allocs, free) && KernelUserPartEmpty(k.sys.mem.frames, WorldOf(k.sys).lay)
    requires Shape(k.sys.mem) && k.sys.kern < |k.sys.mem.pages|
    requires forall e: nat :: e < NENV ==> 0 <= k.t.envs[e].id < 0x8000_0000
    ensures GoodWith(EnvAlloc(k, parent), if Succeeds(k) then Advanced(allocs, k.t.head.page) else allocs)
  {
    hide Good, Dirs, Cpus, TableInv, Shape, EnvSetupVm, KernelGood, KernelUserPartEmpty, Describes;
    if Succeeds(k) {
      CreateKeeps(k, allocs, free, parent);
      Witness(EnvAlloc(k, parent), Advanced(allocs, k.t.head.page), free[1..]);
    } else {
      Witness(k, allocs, free);
    }
  }

  lemma ResumeStep(k: Kernel, allocs: seq<nat>, free: seq<nat>, c: nat, e: nat)
    requires KernelInv(k, allocs, free) && k.inside == Some(c) && e < NENV
    requires k.t.envs[e].status == Runnable || (k.cur[c] == Some(e) && k.t.envs[e].status == Running)
    ensures GoodWith(EnvRun(k, c, e).(inside := None), allocs)
  {
    hide Good, Dirs, TableInv, KernelGood;
    EnvRunExact(k, c, e);
    StatusKeepsTable(k, EnvRun(k, c, e).(inside := None), allocs, free);
  }

  lemma HaltStep(k: Kernel, allocs: seq<nat>, free: seq<nat>, c: nat)
    requires KernelInv(k, allocs, free) && c < |k.cur| && k.cur[c] == None
    ensures GoodWith(SchedHalt(k, c), allocs)
  {
    hide Good, Dirs, TableInv, Cpus;
    assert k.cur[c := None] == k.cur;
    SameCpus(k, SchedHalt(k, c));
    SameDirs(k, SchedHalt(k, c));
    Witness(SchedHalt(k, c), allocs, free);
  }

  /** The slot a step allocates, if any. */
  ghost function Taken(k: Kernel, s: Step): Link
    requires KernelGood(k) && Enabled(k, s)
  {
    LiveDirs(k);
    if s.Create? && Succeeds(k) then k.t.head else Null
  }

  ghost function AllocsAfter(k: Kernel, s: Step, allocs: seq<nat>): seq<nat>
    requires KernelGood(k) && Enabled(k, s)
  {
    if Taken(k, s).Ptr? then Advanced(allocs, Taken(k, s).page) else allocs
  }

  lemma EnterCounts(k: Kernel, s: Step, allocs: seq<nat>, free: seq<nat>)
    requires KernelInv(k, allocs, free) && KernelGood(k) && Enabled(k, s) && s.Enter?
    ensures GoodWith(Take(k, s), AllocsAfter(k, s, allocs))
  {
    EnabledIsReady(k, s);
    assert Take(k, s) == TrapEntry(k, s.cpu) && AllocsAfter(k, s, allocs) == allocs;
    hide Good, Dirs, TableInv, Cpus, GoodWith, KernelGood, Take, AllocsAfter, TrapEntry, EnvFreeVm;
    if Zombie(k, s.cpu) {
      ZombieEntryKeeps(k, allocs, free, s.cpu);
    } else {
      QuietEntryKeeps(k, allocs, free, s.cpu);
    }
  }

  lemma CreateCounts(k: Kernel, s: Step, allocs: seq<nat>, free: seq<nat>)
    requires KernelInv(k, allocs, free) && KernelGood(k) && Enabled(k, s) && s.Create?
    ensures GoodWith(Take(k, s), AllocsAfter(k, s, allocs))
  {
    EnabledIsReady(k, s);
    var advanced := if Succeeds(k) then Advanced(allocs, k.t.head.page) else allocs;
    var empty := KernelUserPartEmpty(k.sys.mem.frames, WorldOf(k.sys).lay);
    assert empty && Take(k, s) == EnvAlloc(k, s.parent) && AllocsAfter(k, s, allocs) == advanced;
    hide Good, Dirs, TableInv, Cpus, GoodWith, KernelGood, Take, AllocsAfter, EnvAlloc, KernelUserPartEmpty;
    CreateStep(k, allocs, free, s.parent);
  }

  lemma DestroyCounts(k: Kernel, s: Step, allocs: seq<nat>, free: seq<nat>)
    requires KernelInv(k, allocs, free) && KernelGood(k) && Enabled(k, s) && s.Destroy?
    ensures GoodWith(Take(k, s), AllocsAfter(k, s, allocs))
  {
    EnabledIsReady(k, s);
    assert Take(k, s) == EnvDestroy(k, s.cpu, s.env) && AllocsAfter(k, s, allocs) == allocs && k.inside == Some(s.cpu);
    hide Good, Dirs, TableInv, Cpus, GoodWith, KernelGood, Take, AllocsAfter, EnvDestroy, EnvFreeVm;
    DestroyKeeps(k, allocs, free, s.cpu, s.env);
  }

  lemma ResumeCounts(k: Kernel, s: Step, allocs: seq<nat>, free: seq<nat>)
    requires KernelInv(k, allocs, free) && KernelGood(k) && Enabled(k, s) && s.Resume?
    ensures GoodWith(Take(k, s), AllocsAfter(k, s, allocs))
  {
    EnabledIsReady(k, s);
    assert Take(k, s) == EnvRun(k, s.cpu, s.env).(inside := None) && AllocsAfter(k, s, allocs) == allocs;
    hide Good, Dirs, TableInv, Cpus, GoodWith, KernelGood, Take, AllocsAfter, EnvRun;
    ResumeStep(k, allocs, free, s.cpu, s.env);
  }

  lemma HaltCounts(k: Kernel, s: Step, allocs: seq<nat>, free: seq<nat>)
    requires KernelInv(k, allocs, free) && KernelGood(k) && Enabled(k, s) && s.Halt?
    ensures GoodWith(Take(k, s), AllocsAfter(k, s, allocs))
  {
    EnabledIsReady(k, s);
    assert Take(k, s) == SchedHalt(k, s.cpu) && AllocsAfter(k, s, allocs) == allocs;
    hide Good, Dirs, TableInv, Cpus, GoodWith, KernelGood, Take, AllocsAfter, SchedHalt;
    HaltStep(k, allocs, free, s.cpu);
  }

  lemma MemoryCounts(k: Kernel, s: Step, allocs: seq<nat>, free: seq<nat>)
    requires KernelInv(k, allocs, free) && KernelGood(k) && Enabled(k, s) && s.Memory?
    ensures GoodWith(Take(k, s), AllocsAfter(k, s, allocs))
  {
    EnabledIsReady(k, s);
    assert Take(k, s) == k.(sys := Exec(k.sys, s.op)) && AllocsAfter(k, s, allocs) == allocs;
    hide Good, Dirs, TableInv, Cpus, GoodWith, KernelGood, Take, AllocsAfter, Exec;
    MemoryKeeps(k, allocs, free, s.op);
  }

  /** Every step keeps the invariant, and the allocation counts advance exactly by the slots taken. */
  lemma StepCounts(k: Kernel, s: Step, allocs: seq<nat>)
    requires GoodWith(k, allocs) && KernelGood(k) && Enabled(k, s)
    ensures GoodWith(Take(k, s), AllocsAfter(k, s, allocs))
  {
    var free :| KernelInv(k, allocs, free);
    hide KernelInv, GoodWith, KernelGood, Enabled, Take, AllocsAfter;
    match s
    case Enter(_) => EnterCounts(k, s, allocs, free);
    case Create(_, _) => CreateCounts(k, s, allocs, free);
    case Destroy(_, _) => DestroyCounts(k, s, allocs, free);
    case Resume(_, _) => ResumeCounts(k, s, allocs, free);
    case Halt(_) => HaltCounts(k, s, allocs, free);
    case Memory(_) => MemoryCounts(k, s, allocs, free);
  }

  lemma StepIsSafe(k: Kernel, s: Step)
    requires KernelGood(k) && Enabled(k, s)
    ensures KernelGood(Take(k, s))
  {
    var allocs, free :| KernelInv(k, allocs, free);
    hide KernelInv, Enabled, Take, AllocsAfter;
    Witness(k, allocs, free);
    StepCounts(k, s, allocs);
    WithIsGood(Take(k, s), AllocsAfter(k, s, allocs));
  }

  lemma Witness(k: Kernel, allocs: seq<nat>, free: seq<nat>)
    requires KernelInv(k, allocs, free)
    ensures GoodWith(k, allocs) && KernelGood(k)
  {
  }

  lemma WithIsGood(k: Kernel, allocs: seq<nat>)
    requires GoodWith(k, allocs)
    ensures KernelGood(k)
  {
  }

  /** Each step is enabled in the state it meets; that the state is good need not be assumed (EveryRunIsSafe). */
  ghost predicate EnabledRun(k: Kernel, ss: seq<Step>)
    decreases |ss|
  {
    ss == [] || (KernelGood(k) ==> Enabled(k, ss[0]) && EnabledRun(Take(k, ss[0]), ss[1..]))
  }

  ghost function TakeAll(k: Kernel, ss: seq<Step>): Kernel
    requires KernelGood(k) && EnabledRun(k, ss)
    decreases |ss|
  {
    if ss == [] then k
    else
      StepIsSafe(k, ss[0]);
      TakeAll(Take(k, ss[0]), ss[1..])
  }

  /**
   In every run of any number of CPUs: page counts stay exact, the page free list and the environment free
   list stay proper, live ids stay positive and distinct, directories stay unshared, and every RUNNING or DYING
   environment is curenv of exactly one CPU.
   */
  lemma {:induction false} EveryRunIsSafe(k: Kernel, ss: seq<Step>)
    requires KernelGood(k) && EnabledRun(k, ss)
    ensures KernelGood(TakeAll(k, ss))
    decreases |ss|
  {
    hide KernelGood, Take, Enabled;
    if ss != [] {
      StepIsSafe(k, ss[0]);
      EveryRunIsSafe(Take(k, ss[0]), ss[1..]);
    }
  }

  // ------------------------------------------------------------ ids over runs

  /** How often a run allocates slot e. */
  ghost function Creates(k: Kernel, ss: seq<Step>, e: nat): nat
    requires KernelGood(k) && EnabledRun(k, ss)
    decreases |ss|
  {
    if ss == [] then 0
    else
      StepIsSafe(k, ss[0]);
      (if Taken(k, ss[0]) == Ptr(e) then 1 else 0) + Creates(Take(k, ss[0]), ss[1..], e)
  }

  /** Over every run, a slot's allocation count grows by the number of creations that took it. */
  lemma {:induction false} RunCounts(k: Kernel, ss: seq<Step>, allocs: seq<nat>) returns (allocs': seq<nat>)
    requires GoodWith(k, allocs) && KernelGood(k) && EnabledRun(k, ss)
    ensures GoodWith(TakeAll(k, ss), allocs')
    ensures |allocs'| == |allocs| && forall e: nat :: e < |allocs| ==> allocs'[e] == allocs[e] + Creates(k, ss, e)
    decreases |ss|
  {
    hide KernelGood, GoodWith, Take, Enabled, Taken;
    if ss == [] {
      allocs' := allocs;
    } else {
      StepIsSafe(k, ss[0]);
      StepCounts(k, ss[0], allocs);
      allocs' := RunCounts(Take(k, ss[0]), ss[1..], AllocsAfter(k, ss[0], allocs));
    }
  }

  /**
   An id issued before a run is accepted after it if and only if its slot is live then and the run has
   allocated the slot a multiple of 2^19 - 1 times.
   */
  lemma IdOverRuns(k: Kernel, ss: seq<Step>, e: nat, cur: Option<nat>)
    requires KernelGood(k) && EnabledRun(k, ss) && TableShape(k.t) && e < NENV && Live(k.t, e)
    requires cur.Some? ==> cur.value < NENV
    ensures var k' := TakeAll(k, ss);
            && TableShape(k'.t)
            && EnvId2Env(k'.t, cur, k.t.envs[e].id, false) ==
               if Live(k'.t, e) && Creates(k, ss, e) % CYCLE == 0 then (0, Some(e)) else (-E_BAD_ENV, None)
  {
    var allocs, free :| KernelInv(k, allocs, free);
    hide KernelGood, EnabledRun, Good, Dirs, Cpus, EnvId2Env;
    Witness(k, allocs, free);
    var allocs' := RunCounts(k, ss, allocs);
    var k' := TakeAll(k, ss);
    var free' :| KernelInv(k', allocs', free');
    StaleIdRefused(k'.t, allocs', free', cur, e, allocs[e]);
  }

  // -------------------------------------------------------------------- zombies

  ghost predicate ZombieOn(k: Kernel, c: nat, e: nat) {
    TableShape(k.t) && c < |k.cur| && k.cur[c] == Some(e) && e < NENV && k.t.envs[e].status == Dying
  }

  /** After page_init and env_init, with nothing running anywhere. */
  ghost predicate FirstKernel(k: Kernel, free: seq<nat>, basemem: nat, bootEnd: nat) {
    && TableInv(k.t, seq(NENV, _ => 0), free) && Boot.FirstState(k.sys, basemem, bootEnd)
    && (forall c :: 0 <= c < |k.cur| ==> k.cur[c] == None) && (k.inside.Some? ==> k.inside.value < |k.cur|)
  }

  lemma FirstKernelIsGood(k: Kernel, free: seq<nat>, basemem: nat, bootEnd: nat)
    requires FirstKernel(k, free, basemem, bootEnd)
    ensures KernelGood(k)
  {
    hide Good, KernelGood;
    assert Good(k.sys) by { Boot.FirstStateIsGood(k.sys, basemem, bootEnd); }
    assert forall e: nat :: e < NENV ==> !Live(k.t, e);
    Witness(k, seq(NENV, _ => 0), free);
  }

  lemma EveryRunFromBoot(k: Kernel, free: seq<nat>, basemem: nat, bootEnd: nat, ss: seq<Step>)
    requires FirstKernel(k, free, basemem, bootEnd)
    ensures KernelGood(k) && (EnabledRun(k, ss) ==> KernelGood(TakeAll(k, ss)))
  {
    hide KernelGood, FirstKernel, EnabledRun, TakeAll;
    FirstKernelIsGood(k, free, basemem, bootEnd);
    if EnabledRun(k, ss) {
      EveryRunIsSafe(k, ss);
    }
  }

  /** Trap entry on one CPU leaves another CPU's zombie alone, and frees its own. */
  lemma ZombieEntry(k: Kernel, c': nat, c: nat, e: nat)
    requires TableShape(k.t) && Cpus(k) && Shape(k.sys.mem) && c' < |k.cur| && ZombieOn(k, c, e)
    requires Zombie(k, c') ==> LiveDir(k, k.cur[c'].value)
    ensures TableShape(TrapEntry(k, c').t) && c < |TrapEntry(k, c').cur|
    ensures c' == c ==> TrapEntry(k, c').t.envs[e].status == Status.Free && TrapEntry(k, c').cur[c] == None
    ensures c' != c ==> ZombieOn(TrapEntry(k, c'), c, e)
  {
    hide EnvFreeVm, Shape;
  }

  /** Destroying or running another environment on another CPU leaves a zombie alone. */
  lemma ZombieElsewhere(k: Kernel, c': nat, e': nat, c: nat, e: nat)
    requires TableShape(k.t) && Cpus(k) && Shape(k.sys.mem) && k.inside == Some(c') && ZombieOn(k, c, e)
    requires e' < NENV && e' != e && c' < |k.cur|
    ensures LiveDir(k, e') ==> ZombieOn(EnvDestroy(k, c', e'), c, e)
    ensures (k.cur[c'].Some? ==> k.cur[c'].value < NENV) && ZombieOn(EnvRun(k, c', e'), c, e)
  {
    hide EnvFreeVm, Shape;
    assert c' != c;
  }

  lemma ZombieBesideNew(k: Kernel, parent: int, c: nat, e: nat)
    requires TableShape(k.t) && Shape(k.sys.mem) && k.sys.kern < |k.sys.mem.pages| && ZombieOn(k, c, e)
    requires forall x: nat :: x < NENV ==> 0 <= k.t.envs[x].id < 0x8000_0000
    requires k.t.head.Ptr? ==> !Live(k.t, k.t.head.page)
    ensures ZombieOn(EnvAlloc(k, parent), c, e)
  {
  }

  /** A zombie stays as it is until its own CPU traps, and that trap frees it. */
  lemma ZombieStep(k: Kernel, s: Step, c: nat, e: nat)
    requires KernelGood(k) && Enabled(k, s) && ZombieOn(k, c, e)
    ensures TableShape(Take(k, s).t) && c < |Take(k, s).cur|
    ensures s == Enter(c) ==> Take(k, s).t.envs[e].status == Status.Free && Take(k, s).cur[c] == None
    ensures s != Enter(c) ==> ZombieOn(Take(k, s), c, e)
  {
    EnabledIsReady(k, s);
    var allocs, free :| KernelInv(k, allocs, free);
    TableShaped(k.t, allocs, free);
    assert Cpus(k);
    hide KernelGood, KernelInv, Good, Cpus;
    if s.Enter? {
      EnterZombie(k, s, c, e);
    } else {
      OtherZombie(k, s, c, e);
    }
  }

  lemma EnterZombie(k: Kernel, s: Step, c: nat, e: nat)
    requires Ready(k, s) && Cpus(k) && s.Enter? && ZombieOn(k, c, e)
    ensures TableShape(Do(k, s).t) && c < |Do(k, s).cur|
    ensures s == Enter(c) ==> Do(k, s).t.envs[e].status == Status.Free && Do(k, s).cur[c] == None
    ensures s != Enter(c) ==> ZombieOn(Do(k, s), c, e)
  {
    hide TrapEntry, Shape, Cpus, LiveDir;
    ZombieEntry(k, s.cpu, c, e);
  }

  lemma OtherZombie(k: Kernel, s: Step, c: nat, e: nat)
    requires KernelGood(k) && Enabled(k, s) && Ready(k, s) && Cpus(k) && !s.Enter? && ZombieOn(k, c, e)
    requires k.t.head.Ptr? ==> !Live(k.t, k.t.head.page)
    ensures ZombieOn(Do(k, s), c, e)
  {
    hide KernelGood, EnvDestroy, EnvRun, EnvAlloc, Cpus, LiveDir, Shape, KernelUserPartEmpty, InRange, Exec, Allowed;
    match s
    case Create(_, parent) => ZombieBesideNew(k, parent, c, e);
    case Destroy(c', e') => ZombieElsewhere(k, c', e', c, e);
    case Resume(c', e') => ZombieElsewhere(k, c', e', c, e);
    case Halt(c') => assert k.cur[c' := None] == k.cur;
    case Memory(_) =>
  }

  lemma {:induction false} ZombieWaitsForItsTrap(k: Kernel, ss: seq<Step>, c: nat, e: nat)
    requires KernelGood(k) && EnabledRun(k, ss) && ZombieOn(k, c, e)
    requires Enter(c) !in ss
    ensures ZombieOn(TakeAll(k, ss), c, e)
    decreases |ss|
  {
    if ss != [] {
      ZombieStep(k, ss[0], c, e);
      StepIsSafe(k, ss[0]);
      ZombieWaitsForItsTrap(Take(k, ss[0]), ss[1..], c, e);
    }
  }

  /** No step frees an environment that a CPU other than the one taking the step has as curenv. */
  lemma NeverFreedUnderAnotherCpu(k: Kernel, s: Step, c: nat, e: nat)
    requires KernelGood(k) && Enabled(k, s) && c < |k.cur| && k.cur[c] == Some(e) && !s.Memory? && s.cpu != c
    ensures TableShape(Take(k, s).t) && e < NENV && Live(Take(k, s).t, e)
  {
    var allocs, free :| KernelInv(k, allocs, free);
    TableShaped(k.t, allocs, free);
    EnabledIsReady(k, s);
    StepIsSafe(k, s);
    LiveDirs(Take(k, s));
    hide Good, Dirs, TableInv, EnvFreeVm, EnvSetupVm, Allowed, Shape, TrapEntry, EnvDestroy, EnvRun, Cpus, LiveDir,
         KernelUserPartEmpty, InRange, EnvAlloc, KernelGood, TableShape;
    CurrentIsLive(k, c, e);
    match s
    case Enter(c') => OtherStaysLive(k, c', c, e, e);
    case Create(_, parent) => CreateKeepsLive(k, parent, e);
    case Destroy(c', e') => OtherStaysLive(k, c', c, e, e');
    case Resume(c', e') => OtherStaysLive(k, c', c, e, e');
    case Halt(_) =>
  }

  lemma CreateKeepsLive(k: Kernel, parent: int, e: nat)
    requires TableShape(k.t) && Shape(k.sys.mem) && k.sys.kern < |k.sys.mem.pages| && e < NENV && Live(k.t, e)
    requires forall x: nat :: x < NENV ==> 0 <= k.t.envs[x].id < 0x8000_0000
    ensures TableShape(EnvAlloc(k, parent).t) && Live(EnvAlloc(k, parent).t, e)
  {
  }

  lemma CurrentIsLive(k: Kernel, c: nat, e: nat)
    requires TableShape(k.t) && Cpus(k) && c < |k.cur| && k.cur[c] == Some(e)
    ensures e < NENV && Live(k.t, e)
  {
  }

  lemma OtherStaysLive(k: Kernel, c': nat, c: nat, e: nat, e': nat)
    requires TableShape(k.t) && Cpus(k) && Shape(k.sys.mem) && c < |k.cur| && c' < |k.cur| && c' != c
    requires k.cur[c] == Some(e) && e' < NENV
    ensures (Zombie(k, c') ==> LiveDir(k, k.cur[c'].value)) ==> Live(TrapEntry(k, c').t, e)
    ensures LiveDir(k, e') && k.t.envs[e'].status != Dying ==> Live(EnvDestroy(k, c', e').t, e)
    ensures (k.cur[c'].Some? ==> k.cur[c'].value < NENV) && Live(EnvRun(k, c', e').t, e)
  {
    hide EnvFreeVm, Shape;
    assert k.cur[c'] != Some(e);
  }
}
