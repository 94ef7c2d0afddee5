/** What each kernel step leaves behind: statuses, slots, curenv and the lock. */
module KernelEffects {
  import opened Pmap
  import opened Environments
  import opened AddressSpace
  import opened Teardown
  import opened MemoryRuns
  import opened KernelRuns

  /** Slot e aside, the environment table is unchanged. */
  ghost predicate OthersSame(t: Table, t': Table, e: nat)
    requires TableShape(t) && TableShape(t')
  {
    forall x: nat :: x < NENV && x != e ==> t'.envs[x] == t.envs[x]
  }

  lemma CurrentRuns(k: Kernel, c: nat)
    requires KernelGood(k) && k.inside == Some(c)
    ensures TableShape(k.t) && c < |k.cur|
    ensures k.cur[c].Some? ==> k.cur[c].value < NENV && k.t.envs[k.cur[c].value].status == Running
    ensures forall c' :: 0 <= c' < |k.cur| && c' != c && k.cur[c].Some? ==> k.cur[c'] != k.cur[c]
  {
    var allocs, free :| KernelInv(k, allocs, free);
  }

  // ------------------------------------------------------------------- env_run

  /**
   env_run: the environment runs and is curenv, the one it displaces is RUNNABLE again, and nothing else changes.
   */
  lemma RunEffect(k: Kernel, c: nat, e: nat)
    requires KernelGood(k) && Enabled(k, Resume(c, e))
    ensures var k' := Take(k, Resume(c, e));
            && TableShape(k.t) && TableShape(k'.t) && c < |k.cur| && e < NENV
            && k'.cur == k.cur[c := Some(e)] && k'.inside == None && k'.sys == k.sys && k'.t.head == k.t.head
            && k'.t.envs[e] == k.t.envs[e].(status := Running)
            && (forall x: nat :: x < NENV && x != e ==>
                  k'.t.envs[x] == if k.cur[c] == Some(x) then k.t.envs[x].(status := Runnable) else k.t.envs[x])
  {
    CurrentRuns(k, c);
    EnabledIsReady(k, Resume(c, e));
    hide KernelGood, Good, Shape;
  }

  /** The environment that was switched away from can be resumed by any CPU that next enters the kernel. */
  lemma DisplacedCanResume(k: Kernel, c: nat, e: nat, p: nat, c': nat)
    requires KernelGood(k) && Enabled(k, Resume(c, e)) && TableShape(k.t)
    requires c < |k.cur| && k.cur[c] == Some(p) && p != e && c' < |k.cur|
    requires !Zombie(Take(k, Resume(c, e)), c')
    ensures var k1 := Take(k, Resume(c, e));
            && KernelGood(k1) && Enabled(k1, Enter(c'))
            && (var k2 := Take(k1, Enter(c')); KernelGood(k2) && Enabled(k2, Resume(c', p)))
  {
    RunEffect(k, c, e);
    CurrentRuns(k, c);
    StepIsSafe(k, Resume(c, e));
    hide Take, Enabled, KernelGood, Zombie, TableShape;
    EnterThenResume(Take(k, Resume(c, e)), c', p);
  }

  lemma EnterThenResume(k: Kernel, c: nat, p: nat)
    requires KernelGood(k) && TableShape(k.t) && k.inside == None && c < |k.cur| && !Zombie(k, c)
    requires p < NENV && k.t.envs[p].status == Runnable
    ensures Enabled(k, Enter(c))
    ensures var k' := Take(k, Enter(c)); KernelGood(k') && Enabled(k', Resume(c, p))
  {
    StepIsSafe(k, Enter(c));
    EnterEffect(k, c);
    hide Take, KernelGood, Zombie;
  }

  // ---------------------------------------------------------------- trap entry

  /** A trap takes the lock; without a zombie it changes nothing else. */
  lemma EnterEffect(k: Kernel, c: nat)
    requires KernelGood(k) && Enabled(k, Enter(c))
    ensures TableShape(k.t) && c < |k.cur|
    ensures var k' := Take(k, Enter(c));
            && k'.inside == Some(c)
            && (!Zombie(k, c) ==> k' == k.(inside := Some(c)))
            && (Zombie(k, c) ==>
                  var e := k.cur[c].value;
                  && TableShape(k'.t) && k'.cur == k.cur[c := None] && k'.t.head == Ptr(e) && OthersSame(k.t, k'.t, e)
                  && k'.t.envs[e] == k.t.envs[e].(status := Status.Free, link := k.t.head, pgdir := Null))
  {
    EnabledIsReady(k, Enter(c));
    hide KernelGood, Good, Shape, EnvFreeVm;
  }

  // --------------------------------------------------------------- env_destroy

  /**
   env_destroy: a target running on another CPU becomes DYING and nothing else changes; any other is FREE at
   once, its slot first on the list, its directory gone, and no CPU's curenv.
   */
  lemma DestroyEffect(k: Kernel, c: nat, e: nat)
    requires KernelGood(k) && Enabled(k, Destroy(c, e))
    ensures var k' := Take(k, Destroy(c, e));
            && TableShape(k.t) && TableShape(k'.t) && c < |k.cur| && e < NENV && OthersSame(k.t, k'.t, e)
            && (if k.t.envs[e].status == Running && k.cur[c] != Some(e) then
                  k' == k.(t := k'.t) && k'.t.head == k.t.head && k'.t.envs[e] == k.t.envs[e].(status := Dying)
                else
                  && k'.t.envs[e] == k.t.envs[e].(status := Status.Free, link := k.t.head, pgdir := Null) && k'.t.head == Ptr(e)
                  && k.t.envs[e].pgdir.Ptr? && k'.sys.dirs == k.sys.dirs - {k.t.envs[e].pgdir.page}
                  && k'.cur == (if k.cur[c] == Some(e) then k.cur[c := None] else k.cur) && k'.inside == k.inside)
  {
    EnabledIsReady(k, Destroy(c, e));
    hide KernelGood, Good, Shape, EnvFreeVm;
  }

  // ----------------------------------------------------------------- env_alloc

  /** env_alloc: the first slot becomes RUNNABLE with the given parent and a directory of its own, or nothing changes. */
  lemma CreateEffect(k: Kernel, c: nat, parent: int)
    requires KernelGood(k) && Enabled(k, Create(c, parent))
    ensures Shape(k.sys.mem) && k.sys.kern < |k.sys.mem.pages| && TableShape(k.t)
    ensures var k' := Take(k, Create(c, parent));
            && k'.cur == k.cur && k'.inside == k.inside
            && (!Succeeds(k) ==> k' == k)
            && (Succeeds(k) ==>
                  var e := k.t.head.page;
                  && TableShape(k'.t) && k'.t.envs[e].status == Runnable && k'.t.envs[e].parent == parent
                  && k'.t.envs[e].pgdir.Ptr? && k'.t.head == k.t.envs[e].link && OthersSame(k.t, k'.t, e))
  {
    EnabledIsReady(k, Create(c, parent));
    assert Take(k, Create(c, parent)) == EnvAlloc(k, parent);
    hide KernelGood, Good, EnvSetupVm, KernelUserPartEmpty, Shape, Take, Enabled, Ready;
  }

  /** Its directory is the one that the memory system's step provides. */
  lemma CreateMemory(k: Kernel, c: nat, parent: int)
    requires KernelGood(k) && Enabled(k, Create(c, parent))
    ensures Shape(k.sys.mem) && k.sys.kern < |k.sys.mem.pages|
    ensures Succeeds(k) ==> Take(k, Create(c, parent)).sys == Exec(k.sys, EnvCreate)
  {
    EnabledIsReady(k, Create(c, parent));
    assert Take(k, Create(c, parent)) == EnvAlloc(k, parent);
    hide KernelGood, Good, EnvSetupVm, KernelUserPartEmpty, Shape, Take, Enabled, EnvAlloc, Exec, Succeeds;
    AllocSystem(k, parent);
  }

  lemma AllocSystem(k: Kernel, parent: int)
    requires TableShape(k.t) && Shape(k.sys.mem) && k.sys.kern < |k.sys.mem.pages|
    requires forall e: nat :: e < NENV ==> 0 <= k.t.envs[e].id < 0x8000_0000
    ensures Succeeds(k) ==> EnvAlloc(k, parent).sys == Exec(k.sys, EnvCreate)
  {
    hide EnvSetupVm, Shape;
  }

  // -------------------------------------------------------- halting and memory

  lemma HaltEffect(k: Kernel, c: nat)
    requires KernelGood(k) && Enabled(k, Halt(c))
    ensures Take(k, Halt(c)) == k.(inside := None)
  {
    EnabledIsReady(k, Halt(c));
    hide KernelGood, Good, Shape;
    assert k.cur[c := None] == k.cur;
  }

  lemma MemoryEffect(k: Kernel, op: Op)
    requires KernelGood(k) && Enabled(k, Memory(op))
    ensures Shape(k.sys.mem) && InRange(k.sys, op) && Take(k, Memory(op)) == k.(sys := Exec(k.sys, op))
  {
    EnabledIsReady(k, Memory(op));
    hide KernelGood, Good, Exec, Allowed;
  }
}
