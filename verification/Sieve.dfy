/**
 The concurrent prime sieve of user/primes.c: a generator and an unbounded chain of filter processes that
 exchange numbers by rendezvous, in any interleaving.
 */
module Sieve {

  /**
   Where a process is.  AtTop: receiving its prime at `top`.  Got: about to fork its right neighbour.
   Waiting: receiving in the filter loop.  Holding: blocked in ipc_send with a number its prime does not divide.
   */
  datatype Stage = AtTop | Got(prime: nat) | Waiting(prime: nat) | Holding(prime: nat, value: nat)

  /** umain is about to send `next`; stage k+1 is the right neighbour of stage k. */
  datatype Pipeline = Pipeline(next: nat, stages: seq<Stage>)

  const Start: Pipeline := Pipeline(2, [AtTop])

  datatype Step = Generate | Pass(from: nat) | Fork(stage: nat)

  predicate Receiving(s: Stage) { s.AtTop? || s.Waiting? }

  /** What a process does with a number it receives. */
  function Receive(s: Stage, v: nat): Stage
    requires Receiving(s) && (s.Waiting? ==> s.prime > 0)
  {
    if s.AtTop? then Got(v) else if !Divides(s.prime, v) then Holding(s.prime, v) else s
  }

  /** ipc_send completes only when its target is blocked in ipc_recv. */
  predicate Enabled(s: Pipeline, step: Step) {
    match step
    case Generate => |s.stages| > 0 && Receiving(s.stages[0]) && (s.stages[0].Waiting? ==> s.stages[0].prime > 0)
    case Pass(k) =>
      k + 1 < |s.stages| && s.stages[k].Holding? && Receiving(s.stages[k + 1])
      && (s.stages[k + 1].Waiting? ==> s.stages[k + 1].prime > 0)
    case Fork(k) => k < |s.stages| && s.stages[k].Got?
  }

  function Next(s: Pipeline, step: Step): Pipeline
    requires Enabled(s, step)
  {
    match step
    case Generate => Pipeline(s.next + 1, s.stages[0 := Receive(s.stages[0], s.next)])
    case Pass(k) =>
      var held := s.stages[k];
      s.(stages := s.stages[k := Waiting(held.prime)][k + 1 := Receive(s.stages[k + 1], held.value)])
    case Fork(k) => s.(stages := s.stages[..k] + [Waiting(s.stages[k].prime), AtTop] + s.stages[k + 1..])
  }

  // -------------------------------------------------------------------- primes

  predicate Divides(d: nat, x: nat)
    requires d > 0
  {
    x % d == 0
  }

  ghost predicate IsPrime(p: nat) { p >= 2 && forall d: nat :: 2 <= d < p ==> !Divides(d, p) }

  /** x is divisible by none of the numbers in ps. */
  ghost predicate Survives(x: nat, ps: seq<nat>) {
    forall k :: 0 <= k < |ps| ==> ps[k] > 0 && !Divides(ps[k], x)
  }

  /** ps lists, in increasing order, exactly the primes up to its last element. */
  ghost predicate FirstPrimes(ps: seq<nat>) {
    && (forall k :: 0 <= k < |ps| ==> IsPrime(ps[k]))
    && (forall a, b :: 0 <= a < b < |ps| ==> ps[a] < ps[b])
    && (forall q: nat :: IsPrime(q) && |ps| > 0 && q <= ps[|ps| - 1] ==> q in ps)
  }

  lemma DividesTransitive(a: nat, b: nat, c: nat)
    requires a > 0 && b > 0 && Divides(a, b) && Divides(b, c)
    ensures Divides(a, c)
  {
    var x, y := b / a, c / b;
    assert b == a * x;
    assert c == b * y;
    MultipleIsDivided(a, x * y, c) by {
      assert a * x * y == a * (x * y);
    }
  }

  lemma MultipleIsDivided(a: nat, k: nat, c: nat)
    requires a > 0 && c == a * k
    ensures Divides(a, c)
  {
    var q, r := c / a, c % a;
    assert c == a * q + r && 0 <= r < a;
    assert a * (k - q) == r;
    Scale(a, k - q);
  }

  lemma Scale(a: nat, m: int)
    requires a > 0
    ensures m >= 1 ==> a * m >= a
    ensures m <= -1 ==> a * m <= -1 * a
  {
  }

  /** The least number from 2 on that survives the first primes is the next prime. */
  lemma NextPrime(ps: seq<nat>, v: nat)
    requires FirstPrimes(ps) && v >= 2 && Survives(v, ps)
    requires forall x :: 2 <= x < v ==> !Survives(x, ps)
    ensures FirstPrimes(ps + [v])
  {
    hide Divides;
    assert forall k :: 0 <= k < |ps| ==> IsPrime(ps[k]) && ps[k] > 0;
    forall d: nat | 2 <= d < v ensures !Divides(d, v) {
      assert !Survives(d, ps);
      var k :| 0 <= k < |ps| && Divides(ps[k], d);
      if Divides(d, v) {
        DividesTransitive(ps[k], d, v);
      }
    }
    assert IsPrime(v);
    forall q: nat | IsPrime(q) && q <= v ensures q in ps + [v] {
      if q < v {
        assert !Survives(q, ps);
        var k :| 0 <= k < |ps| && Divides(ps[k], q);
        PrimeDivisor(ps[k], q);
      } else {
        assert (ps + [v])[|ps|] == q;
      }
    }
    forall k | 0 <= k < |ps| ensures ps[k] < v {
      SelfDivides(v);
    }
  }

  lemma SelfDivides(v: nat)
    requires v > 0
    ensures Divides(v, v)
  {
  }

  lemma PrimeDivisor(p: nat, q: nat)
    requires IsPrime(p) && IsPrime(q) && Divides(p, q)
    ensures p == q
  {
    assert p <= q;
  }

  // ----------------------------------------------------------------- invariant

  /** The values fetched at `top` so far, in process order; the last process may not have one yet. */
  function Primes(s: Pipeline): (ps: seq<nat>)
    requires |s.stages| > 0
  {
    var n := |s.stages| - 1;
    seq(n, i requires 0 <= i < n => PrimeOf(s.stages[i])) + if s.stages[n].AtTop? then [] else [PrimeOf(s.stages[n])]
  }

  function PrimeOf(s: Stage): nat { if s.AtTop? then 0 else s.prime }

  ghost predicate HeldAt(s: Pipeline, k: nat, x: nat) {
    k < |s.stages| && s.stages[k].Holding? && s.stages[k].value == x
  }

  /** Only the last process can be at the top or about to fork. */
  ghost predicate ShapeOk(s: Pipeline) {
    && |s.stages| > 0
    && (forall k :: 0 <= k < |s.stages| - 1 ==> s.stages[k].Waiting? || s.stages[k].Holding?)
    && (s.stages[|s.stages| - 1].AtTop? || s.stages[|s.stages| - 1].Got?)
  }

  /** A number in flight to stage k+1 is divisible by none of the first k+1 primes. */
  ghost predicate InFlight(s: Pipeline)
    requires ShapeOk(s)
  {
    forall k: nat :: k < |s.stages| && s.stages[k].Holding? ==>
      2 <= s.stages[k].value < s.next && Survives(s.stages[k].value, Primes(s)[..k + 1])
  }

  /** Numbers never overtake each other. */
  ghost predicate Ordered(s: Pipeline) {
    forall j: nat, k: nat :: j < k < |s.stages| && s.stages[j].Holding? && s.stages[k].Holding? ==>
      s.stages[k].value < s.stages[j].value
  }

  /** No number is lost: a generated number is divided by a fetched prime, or still in flight. */
  ghost predicate NoneLost(s: Pipeline)
    requires ShapeOk(s)
  {
    forall x: nat :: 2 <= x < s.next && Survives(x, Primes(s)) ==> exists k: nat :: HeldAt(s, k, x)
  }

  ghost predicate PipelineInv(s: Pipeline) {
    ShapeOk(s) && s.next >= 2 && FirstPrimes(Primes(s)) && InFlight(s) && Ordered(s) && NoneLost(s)
  }

  lemma PrimesArePositive(s: Pipeline, k: nat)
    requires PipelineInv(s) && k < |Primes(s)|
    ensures Primes(s)[k] >= 2 && (k < |s.stages| - 1 ==> s.stages[k].prime == Primes(s)[k])
  {
    assert IsPrime(Primes(s)[k]);
  }

  lemma StartInv()
    ensures PipelineInv(Start)
  {
    assert Primes(Start) == [];
  }

  /** Extending the list of tested primes: x survives ps + [p] exactly when it survives ps and p does not divide it. */
  lemma SurvivesMore(x: nat, ps: seq<nat>, k: nat)
    requires k < |ps| && ps[k] > 0
    ensures Survives(x, ps[..k + 1]) <==> Survives(x, ps[..k]) && !Divides(ps[k], x)
  {
    assert ps[..k + 1] == ps[..k] + [ps[k]];
    if Survives(x, ps[..k + 1]) {
      assert forall i :: 0 <= i < k ==> ps[..k + 1][i] == ps[..k][i];
      assert ps[..k + 1][k] == ps[k];
    }
  }

  // ---------------------------------------------------------- the first process

  lemma GenerateToTop(s: Pipeline)
    requires PipelineInv(s) && s.stages[0].AtTop?
    ensures PipelineInv(Next(s, Generate))
  {
    hide Divides, FirstPrimes;
    var s' := Next(s, Generate);
    assert Primes(s) == [] && Primes(s') == [s.next];
    forall x: nat | 2 <= x < s.next ensures !Survives(x, []) {
      assert forall k: nat :: !HeldAt(s, k, x);
    }
    NextPrime([], s.next);
    assert [] + [s.next] == [s.next];
    SelfDivides(s.next);
    assert Survives(2, []);
    forall x: nat | 2 <= x < s'.next ensures !Survives(x, Primes(s')) {
      assert Divides(Primes(s')[0], x);
    }
  }

  lemma GenerateToFilter(s: Pipeline)
    requires PipelineInv(s) && s.stages[0].Waiting? && s.stages[0].prime > 0
    ensures PipelineInv(Next(s, Generate))
  {
    hide FirstPrimes, IsPrime, Divides;
    var s', ps := Next(s, Generate), Primes(s);
    assert Primes(s') == ps;
    assert forall k: nat :: 0 < k < |s.stages| ==> s'.stages[k] == s.stages[k];
    PrimesArePositive(s, 0);
    if s'.stages[0].Holding? {
      SurvivesMore(s.next, ps, 0);
      assert HeldAt(s', 0, s.next);
    }
    forall x: nat | 2 <= x < s'.next && Survives(x, ps) ensures exists k: nat :: HeldAt(s', k, x) {
      if x < s.next {
        var k: nat :| HeldAt(s, k, x);
        assert HeldAt(s', k, x);
      } else {
        assert !Divides(ps[0], x);
      }
    }
  }

  // -------------------------------------------------------------- passing along

  lemma PassToTop(s: Pipeline, k: nat)
    requires PipelineInv(s) && Enabled(s, Pass(k)) && s.stages[k + 1].AtTop?
    ensures PipelineInv(Next(s, Pass(k)))
  {
    hide Divides, FirstPrimes;
    var s', ps, v := Next(s, Pass(k)), Primes(s), s.stages[k].value;
    assert k + 1 == |s.stages| - 1 && |ps| == k + 1 && ps[..k + 1] == ps;
    assert Primes(s') == ps + [v];
    forall x | 2 <= x < v ensures !Survives(x, ps) {
      if Survives(x, ps) {
        var j: nat :| HeldAt(s, j, x);
      }
    }
    NextPrime(ps, v);
    SelfDivides(v);
    forall j: nat | j < |s'.stages| && s'.stages[j].Holding?
      ensures s'.stages[j] == s.stages[j] && j < k && Primes(s')[..j + 1] == ps[..j + 1]
    {
    }
    forall x: nat | 2 <= x < s'.next && Survives(x, Primes(s')) ensures exists j: nat :: HeldAt(s', j, x) {
      PassKeepsHeld(s, k, x);
    }
  }

  /** A number that the prime just fetched does not divide is still held where it was. */
  lemma PassKeepsHeld(s: Pipeline, k: nat, x: nat)
    requires PipelineInv(s) && Enabled(s, Pass(k)) && s.stages[k + 1].AtTop?
    requires k + 1 == |s.stages| - 1 && |Primes(s)| == k + 1 && Primes(Next(s, Pass(k))) == Primes(s) + [s.stages[k].value]
    requires 2 <= x < s.next && Survives(x, Primes(s) + [s.stages[k].value])
    ensures exists j: nat :: HeldAt(Next(s, Pass(k)), j, x)
  {
    hide Divides, FirstPrimes;
    var ps, v := Primes(s), s.stages[k].value;
    SurvivesMore(x, ps + [v], |ps|);
    assert (ps + [v])[..|ps|] == ps && (ps + [v])[..|ps| + 1] == ps + [v];
    var j: nat :| HeldAt(s, j, x);
    SelfDivides(v);
    assert x != v;
    assert HeldAt(Next(s, Pass(k)), j, x);
  }

  lemma PassToFilter(s: Pipeline, k: nat)
    requires PipelineInv(s) && Enabled(s, Pass(k)) && s.stages[k + 1].Waiting?
    ensures PipelineInv(Next(s, Pass(k)))
  {
    hide FirstPrimes, IsPrime, Divides;
    var s' := Next(s, Pass(k));
    assert Primes(s') == Primes(s);
    PrimesArePositive(s, k + 1);
    SurvivesMore(s.stages[k].value, Primes(s), k + 1);
    assert Ordered(s');
    PassLosesNone(s, k);
    hide Survives, NoneLost;
    assert InFlight(s');
  }

  lemma PassLosesNone(s: Pipeline, k: nat)
    requires ShapeOk(s) && NoneLost(s) && Enabled(s, Pass(k)) && s.stages[k + 1].Waiting?
    ensures ShapeOk(Next(s, Pass(k))) && NoneLost(Next(s, Pass(k)))
  {
    hide Divides;
    var s', ps := Next(s, Pass(k)), Primes(s);
    assert Primes(s') == ps && ps[k + 1] == s.stages[k + 1].prime;
    forall x: nat | 2 <= x < s'.next && Survives(x, ps) ensures exists j: nat :: HeldAt(s', j, x) {
      var j: nat :| HeldAt(s, j, x);
      if j == k {
        assert !Divides(ps[k + 1], x);
        assert HeldAt(s', k + 1, x);
      } else {
        assert HeldAt(s', j, x);
      }
    }
  }

  lemma ForkKeeps(s: Pipeline, k: nat)
    requires PipelineInv(s) && Enabled(s, Fork(k))
    ensures PipelineInv(Next(s, Fork(k)))
  {
    var s' := Next(s, Fork(k));
    assert k == |s.stages| - 1;
    assert s'.stages == s.stages[..k] + [Waiting(s.stages[k].prime), AtTop];
    assert Primes(s') == Primes(s);
    forall x: nat | 2 <= x < s'.next && Survives(x, Primes(s')) ensures exists j: nat :: HeldAt(s', j, x) {
      var j: nat :| HeldAt(s, j, x);
      assert HeldAt(s', j, x);
    }
  }

  lemma StepInv(s: Pipeline, step: Step)
    requires PipelineInv(s) && Enabled(s, step)
    ensures PipelineInv(Next(s, step))
  {
    match step
    case Generate =>
      if s.stages[0].AtTop? { GenerateToTop(s); } else { GenerateToFilter(s); }
    case Pass(k) =>
      if s.stages[k + 1].AtTop? { PassToTop(s, k); } else { PassToFilter(s, k); }
    case Fork(k) =>
      ForkKeeps(s, k);
  }

  // ------------------------------------------------------------------ all runs

  predicate EnabledRun(s: Pipeline, steps: seq<Step>)
    decreases |steps|
  {
    steps == [] || (Enabled(s, steps[0]) && EnabledRun(Next(s, steps[0]), steps[1..]))
  }

  function Run(s: Pipeline, steps: seq<Step>): Pipeline
    requires EnabledRun(s, steps)
    decreases |steps|
  {
    if steps == [] then s else Run(Next(s, steps[0]), steps[1..])
  }

  lemma {:induction false} RunInv(s: Pipeline, steps: seq<Step>)
    requires PipelineInv(s) && EnabledRun(s, steps)
    ensures PipelineInv(Run(s, steps))
    decreases |steps|
  {
    if steps != [] {
      StepInv(s, steps[0]);
      RunInv(Next(s, steps[0]), steps[1..]);
    }
  }

  /**
   Under any interleaving, the values fetched at `top` are in process order exactly an initial segment of the
   primes, and every number in flight to stage k+1 is divisible by none of the first k+1 primes.
   */
  lemma SievePrintsThePrimes(steps: seq<Step>)
    requires EnabledRun(Start, steps)
    ensures var s := Run(Start, steps);
            && |s.stages| > 0 && FirstPrimes(Primes(s))
            && forall k: nat :: k < |s.stages| && s.stages[k].Holding? ==>
                 k + 1 <= |Primes(s)| && Survives(s.stages[k].value, Primes(s)[..k + 1])
  {
    hide FirstPrimes, Survives, Divides;
    StartInv();
    RunInv(Start, steps);
  }

  /** Every step changes the state: a number is sent on, or the chain grows by one process. */
  lemma StepChanges(s: Pipeline, step: Step)
    requires PipelineInv(s) && Enabled(s, step)
    ensures Next(s, step) != s
    ensures step.Generate? <==> Next(s, step).next == s.next + 1
    ensures step.Fork? <==> |Next(s, step).stages| == |s.stages| + 1
  {
  }

  /** The chain never deadlocks: some send or fork is always possible, and changes the state. */
  lemma NeverStuck(s: Pipeline)
    requires PipelineInv(s)
    ensures exists step :: Enabled(s, step) && Next(s, step) != s
  {
    var step := SomeStep(s);
    StepChanges(s, step);
  }

  lemma SomeStep(s: Pipeline) returns (step: Step)
    requires PipelineInv(s)
    ensures Enabled(s, step)
  {
    Unblocked(s);
    step :| Enabled(s, step);
  }

  lemma Unblocked(s: Pipeline)
    requires PipelineInv(s)
    ensures exists step :: Enabled(s, step)
  {
    var n := |s.stages| - 1;
    if s.stages[n].Got? {
      assert Enabled(s, Fork(n));
    } else {
      NeverStuckFrom(s, n);
    }
  }

  lemma WaitingPrime(s: Pipeline, k: nat)
    requires PipelineInv(s) && k < |s.stages| && s.stages[k].Waiting?
    ensures s.stages[k].prime > 0
  {
    hide FirstPrimes;
    PrimesArePositive(s, k);
  }

  /** If stage k is receiving, either its left neighbour can send to it or some process further left can move. */
  lemma {:induction false} NeverStuckFrom(s: Pipeline, k: nat)
    requires PipelineInv(s) && ShapeOk(s) && k < |s.stages| && Receiving(s.stages[k])
    ensures exists step :: Enabled(s, step)
  {
    hide PipelineInv;
    if s.stages[k].Waiting? {
      WaitingPrime(s, k);
    }
    if k == 0 {
      assert Enabled(s, Generate);
    } else if s.stages[k - 1].Holding? {
      assert Enabled(s, Pass(k - 1));
    } else {
      NeverStuckFrom(s, k - 1);
    }
  }
}
