/**
 The spin lock of kern/spinlock.c as atomic steps of any number of CPUs.  Each read of lk->locked and
 lk->cpu, each write of lk->cpu and each xchg is one step, and any CPU may step next.
 */
module Spinlock {

  /** lk->cpu, a pointer into cpus[] or NULL. */
  datatype CpuPointer = Null | To(id: nat)

  /**
   The next instruction of a CPU.
   - Work: outside the lock code
   - Lock1, Lock2: reading lk->locked, then lk->cpu, in spin_lock's holding(); Spin: the xchg loop; Won: writing lk->cpu
   - Unlock1, Unlock2: the two reads in spin_unlock's holding(); Clear: writing lk->cpu = 0; Release: the releasing xchg
   - LockPanic, UnlockPanic: halted by a failed check
   */
  datatype Pc = Work | Lock1 | Lock2 | Spin | Won | Unlock1 | Unlock2 | Clear | Release | LockPanic | UnlockPanic

  /** `has` is true from the winning xchg to the releasing one; it is not read by the code. */
  datatype Cpu = Cpu(pc: Pc, has: bool)

  datatype Lock = Lock(locked: bool, cpu: CpuPointer, cpus: seq<Cpu>)

  /** Work is left by calling either routine, rightly or wrongly. */
  datatype Choice = CallLock | CallUnlock

  function SetCpu(s: Lock, c: nat, pc: Pc, has: bool): Lock
    requires c < |s.cpus|
  {
    s.(cpus := s.cpus[c := Cpu(pc, has)])
  }

  function Step(s: Lock, c: nat, choice: Choice): Lock
    requires c < |s.cpus|
  {
    var has := s.cpus[c].has;
    match s.cpus[c].pc
    case Work => SetCpu(s, c, if choice == CallLock then Lock1 else Unlock1, has)
    case Lock1 => SetCpu(s, c, if s.locked then Lock2 else Spin, has)
    case Lock2 => SetCpu(s, c, if s.cpu == To(c) then LockPanic else Spin, has)
    case Spin => if s.locked then s else SetCpu(s.(locked := true), c, Won, true)
    case Won => SetCpu(s.(cpu := To(c)), c, Work, has)
    case Unlock1 => SetCpu(s, c, if s.locked then Unlock2 else UnlockPanic, has)
    case Unlock2 => SetCpu(s, c, if s.cpu == To(c) then Clear else UnlockPanic, has)
    case Clear => SetCpu(s.(cpu := Null), c, Release, has)
    case Release => SetCpu(s.(locked := false), c, Work, false)
    case LockPanic => s
    case UnlockPanic => s
  }

  /** spin_initlock, with every CPU outside. */
  predicate Initial(s: Lock) {
    !s.locked && s.cpu == Null && forall c :: 0 <= c < |s.cpus| ==> s.cpus[c] == Cpu(Work, false)
  }

  ghost predicate Recorded(x: Cpu) { x.has && x.pc != Won && x.pc != Release }

  /** At most one CPU has the lock, and it is marked locked exactly while some CPU has it. */
  ghost predicate Exclusive(s: Lock) {
    && (forall a, b :: 0 <= a < b < |s.cpus| ==> !(s.cpus[a].has && s.cpus[b].has))
    && (forall c :: 0 <= c < |s.cpus| && s.cpus[c].has ==> s.locked)
    && (s.locked ==> exists c :: 0 <= c < |s.cpus| && s.cpus[c].has)
  }

  /** The record is NULL or names the holder. */
  ghost predicate RecordOk(s: Lock) {
    && (s.cpu.To? ==> s.cpu.id < |s.cpus|)
    && (forall c :: 0 <= c < |s.cpus| ==> (s.cpu == To(c) <==> Recorded(s.cpus[c])))
  }

  /** Where a CPU can be with and without the lock. */
  ghost predicate PlaceOk(x: Cpu) {
    match x.pc
    case Spin => !x.has
    case Won => x.has
    case Clear => x.has
    case Release => x.has
    case LockPanic => x.has
    case UnlockPanic => !x.has
    case _ => true
  }

  ghost predicate LockInv(s: Lock) {
    Exclusive(s) && RecordOk(s) && forall c :: 0 <= c < |s.cpus| ==> PlaceOk(s.cpus[c])
  }

  lemma InitialInv(s: Lock)
    requires Initial(s)
    ensures LockInv(s)
  {
  }

  lemma StepExclusive(s: Lock, c: nat, choice: Choice)
    requires Exclusive(s) && c < |s.cpus| && PlaceOk(s.cpus[c])
    ensures Exclusive(Step(s, c, choice))
  {
    var s' := Step(s, c, choice);
    assert forall x :: 0 <= x < |s.cpus| && x != c ==> s'.cpus[x] == s.cpus[x];
    if s.locked && s'.locked {
      var h :| 0 <= h < |s.cpus| && s.cpus[h].has;
      assert s'.cpus[h].has;
    } else if s'.locked {
      assert s'.cpus[c].has;
    }
  }

  lemma StepInv(s: Lock, c: nat, choice: Choice)
    requires LockInv(s) && c < |s.cpus|
    ensures LockInv(Step(s, c, choice))
  {
    var s' := Step(s, c, choice);
    StepExclusive(s, c, choice);
    assert forall x :: 0 <= x < |s.cpus| && x != c ==> s'.cpus[x] == s.cpus[x];
    assert RecordOk(s');
    assert PlaceOk(s'.cpus[c]);
  }

  function Run(s: Lock, schedule: seq<(nat, Choice)>): Lock
    requires forall k :: 0 <= k < |schedule| ==> schedule[k].0 < |s.cpus|
    decreases |schedule|
  {
    if schedule == [] then s else Run(Step(s, schedule[0].0, schedule[0].1), schedule[1..])
  }

  lemma {:induction false} RunInv(s: Lock, schedule: seq<(nat, Choice)>)
    requires LockInv(s) && forall k :: 0 <= k < |schedule| ==> schedule[k].0 < |s.cpus|
    ensures LockInv(Run(s, schedule))
    decreases |schedule|
  {
    if schedule != [] {
      StepInv(s, schedule[0].0, schedule[0].1);
      RunInv(Step(s, schedule[0].0, schedule[0].1), schedule[1..]);
    }
  }

  /** spin_lock's xchg takes a free lock at once, and leaves a taken one to its holder. */
  lemma SpinTakesFreeLock(s: Lock, c: nat, choice: Choice)
    requires LockInv(s) && c < |s.cpus| && s.cpus[c].pc == Spin
    ensures var s' := Step(s, c, choice);
            && (!s.locked ==> s'.locked && s'.cpus[c] == Cpu(Won, true))
            && (s.locked ==> s' == s && !s.cpus[c].has)
  {
  }

  /** Undisturbed, a CPU that finds the lock free acquires it and is recorded, and a whole unlock frees it again. */
  lemma LockThenUnlock(s: Lock, c: nat)
    requires LockInv(s) && c < |s.cpus| && s.cpus[c] == Cpu(Work, false) && !s.locked
    ensures var l, u := (c, CallLock), (c, CallUnlock);
            var s' := Run(s, [l, l, l, l]);
            && s' == Lock(true, To(c), s.cpus[c := Cpu(Work, true)])
            && Run(s', [u, u, u, u, u]) == s
  {
    hide Run, LockInv;
    FreeMeansNoRecord(s);
    LockAlone(s, c);
    var s' := Lock(true, To(c), s.cpus[c := Cpu(Work, true)]);
    UnlockAlone(s', c);
    assert s'.cpus[c := Cpu(Work, false)] == s.cpus;
  }

  lemma FreeMeansNoRecord(s: Lock)
    requires LockInv(s) && !s.locked
    ensures s.cpu == Null
  {
  }

  lemma LockAlone(s: Lock, c: nat)
    requires c < |s.cpus| && s.cpus[c] == Cpu(Work, false) && !s.locked
    ensures var l := (c, CallLock); Run(s, [l, l, l, l]) == Lock(true, To(c), s.cpus[c := Cpu(Work, true)])
  {
    var l := (c, CallLock);
    Runs(s, l, [l, l, l]);
    var s1 := Step(s, c, CallLock);
    Runs(s1, l, [l, l]);
    var s2 := Step(s1, c, CallLock);
    Runs(s2, l, [l]);
    var s3 := Step(s2, c, CallLock);
    Runs(s3, l, []);
    hide Run;
    assert s1.cpus[c].pc == Lock1 && s2.cpus[c].pc == Spin && s3.cpus[c].pc == Won;
    RunsNone(Step(s3, c, CallLock));
  }

  lemma UnlockAlone(s: Lock, c: nat)
    requires c < |s.cpus| && s.cpus[c] == Cpu(Work, true) && s.locked && s.cpu == To(c)
    ensures var u := (c, CallUnlock); Run(s, [u, u, u, u, u]) == Lock(false, Null, s.cpus[c := Cpu(Work, false)])
  {
    var u := (c, CallUnlock);
    Runs(s, u, [u, u, u, u]);
    var s1 := Step(s, c, CallUnlock);
    Runs(s1, u, [u, u, u]);
    var s2 := Step(s1, c, CallUnlock);
    Runs(s2, u, [u, u]);
    var s3 := Step(s2, c, CallUnlock);
    Runs(s3, u, [u]);
    var s4 := Step(s3, c, CallUnlock);
    Runs(s4, u, []);
    hide Run;
    assert s1.cpus[c].pc == Unlock1 && s2.cpus[c].pc == Unlock2 && s3.cpus[c].pc == Clear && s4.cpus[c].pc == Release;
    RunsNone(Step(s4, c, CallUnlock));
  }

  lemma RunsNone(s: Lock)
    ensures Run(s, []) == s
  {
  }

  lemma Runs(s: Lock, first: (nat, Choice), rest: seq<(nat, Choice)>)
    requires first.0 < |s.cpus| && forall k :: 0 <= k < |rest| ==> rest[k].0 < |s.cpus|
    ensures |Step(s, first.0, first.1).cpus| == |s.cpus|
    ensures Run(s, [first] + rest) == Run(Step(s, first.0, first.1), rest)
  {
    assert ([first] + rest)[1..] == rest;
  }

  /**
   In every interleaving from spin_initlock: at most one CPU is between its winning and its releasing xchg,
   lk->cpu is null or that CPU, and only that CPU reaches the release.
   */
  lemma MutualExclusion(s: Lock, schedule: seq<(nat, Choice)>, a: nat, b: nat)
    requires Initial(s) && a < |s.cpus| && b < |s.cpus|
    requires forall k :: 0 <= k < |schedule| ==> schedule[k].0 < |s.cpus|
    ensures var s' := Run(s, schedule);
            && |s'.cpus| == |s.cpus|
            && (s'.cpus[a].has && s'.cpus[b].has ==> a == b)
            && (s'.cpu.To? ==> s'.cpu.id < |s.cpus| && s'.cpus[s'.cpu.id].has)
            && (s'.cpus[a].pc == Clear || s'.cpus[a].pc == Release ==> s'.cpus[a].has)
  {
    InitialInv(s);
    RunInv(s, schedule);
    RunLength(s, schedule);
  }

  lemma {:induction false} RunLength(s: Lock, schedule: seq<(nat, Choice)>)
    requires forall k :: 0 <= k < |schedule| ==> schedule[k].0 < |s.cpus|
    ensures |Run(s, schedule).cpus| == |s.cpus|
    decreases |schedule|
  {
    if schedule != [] {
      RunLength(Step(s, schedule[0].0, schedule[0].1), schedule[1..]);
    }
  }

  /**
   Although holding() reads its two fields at different times, its answer is exact: wherever other CPUs step
   between the two reads, spin_lock panics if and only if the caller already holds the lock, and spin_unlock
   panics if and only if the caller does not hold it.
   */
  lemma HoldingIsExact(s: Lock, c: nat, choice: Choice, between: seq<(nat, Choice)>)
    requires LockInv(s) && c < |s.cpus| && (s.cpus[c].pc == Lock1 || s.cpus[c].pc == Unlock1)
    requires forall k :: 0 <= k < |between| ==> between[k].0 < |s.cpus| && between[k].0 != c
    ensures var s1 := Step(s, c, choice);
            var s2 := Run(s1, between);
            && |s2.cpus| == |s.cpus| && s2.cpus[c] == s1.cpus[c]
            && (s.cpus[c].pc == Lock1 ==>
                  if s.cpus[c].has then s1.cpus[c].pc == Lock2 && Step(s2, c, choice).cpus[c].pc == LockPanic
                  else s1.cpus[c].pc == Spin || Step(s2, c, choice).cpus[c].pc == Spin)
            && (s.cpus[c].pc == Unlock1 ==>
                  if s.cpus[c].has then s1.cpus[c].pc == Unlock2 && Step(s2, c, choice).cpus[c].pc == Clear
                  else s1.cpus[c].pc == UnlockPanic || Step(s2, c, choice).cpus[c].pc == UnlockPanic)
  {
    var s1 := Step(s, c, choice);
    StepInv(s, c, choice);
    RunInv(s1, between);
    OthersDoNotMoveMe(s1, c, between);
  }

  lemma {:induction false} OthersDoNotMoveMe(s: Lock, c: nat, between: seq<(nat, Choice)>)
    requires c < |s.cpus|
    requires forall k :: 0 <= k < |between| ==> between[k].0 < |s.cpus| && between[k].0 != c
    ensures |Run(s, between).cpus| == |s.cpus| && Run(s, between).cpus[c] == s.cpus[c]
    decreases |between|
  {
    if between != [] {
      OthersDoNotMoveMe(Step(s, between[0].0, between[0].1), c, between[1..]);
    }
  }
}
