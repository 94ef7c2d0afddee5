/**
 The prime sieve makes progress: from every reachable state there is a run after which one more prime has been
 fetched, so that every prime is fetched in some run.  (That there is always another prime is Euclid's theorem.)
 */
module SieveProgress {
  import opened Sieve

  // ------------------------------------------------------ there is a next one

  function Product(ps: seq<nat>): nat {
    if ps == [] then 1 else Product(ps[..|ps| - 1]) * ps[|ps| - 1]
  }

  lemma DividesProduct(a: nat, b: nat, c: nat)
    requires a > 0 && Divides(a, b)
    ensures Divides(a, b * c)
  {
    var q := b / a;
    assert b == a * q;
    hide Divides;
    TimesAssociates(a, q, c);
    MultipleIsDivided(a, q * c, b * c);
  }

  lemma TimesAssociates(a: int, b: int, c: int)
    ensures a * b * c == a * (b * c)
  {
  }

  lemma FactorDivides(b: nat, c: nat)
    requires c > 0
    ensures Divides(c, b * c)
  {
    MultipleIsDivided(c, b, b * c);
  }

  lemma {:induction false} ProductDivides(ps: seq<nat>, k: nat)
    requires k < |ps| && forall i :: 0 <= i < |ps| ==> ps[i] >= 2
    ensures Divides(ps[k], Product(ps))
  {
    hide Divides;
    var front, last := ps[..|ps| - 1], ps[|ps| - 1];
    if k < |ps| - 1 {
      ProductDivides(front, k);
      assert front[k] == ps[k];
      DividesProduct(ps[k], Product(front), last);
    } else {
      FactorDivides(Product(front), last);
    }
  }

  lemma PositiveTimes(a: nat, b: nat)
    requires a > 0 && b > 0
    ensures a * b > 0
  {
  }

  lemma {:induction false} ProductPositive(ps: seq<nat>)
    requires forall i :: 0 <= i < |ps| ==> ps[i] >= 2
    ensures Product(ps) > 0
  {
    if ps != [] {
      ProductPositive(ps[..|ps| - 1]);
      PositiveTimes(Product(ps[..|ps| - 1]), ps[|ps| - 1]);
    }
  }

  lemma OneMore(p: nat, x: nat)
    requires p >= 2 && Divides(p, x)
    ensures !Divides(p, x + 1)
  {
    if Divides(p, x + 1) {
      var q, r := x / p, (x + 1) / p;
      assert x == p * q;
      assert x + 1 == p * r;
      hide Divides;
      Distribute(p, r, q);
      Scale(p, r - q);
    }
  }

  lemma Distribute(p: int, r: int, q: int)
    ensures p * (r - q) == p * r - p * q
  {
  }

  /** Some number is divisible by none of the primes fetched so far. */
  lemma Survivor(ps: seq<nat>) returns (q: nat)
    requires forall i :: 0 <= i < |ps| ==> ps[i] >= 2
    ensures q >= 2 && Survives(q, ps)
  {
    ProductPositive(ps);
    q := Product(ps) + 1;
    forall k | 0 <= k < |ps| ensures !Divides(ps[k], q) {
      ProductDivides(ps, k);
      OneMore(ps[k], Product(ps));
    }
  }

  // ------------------------------------------------------- numbers in flight

  /** How many more times the numbers in flight can be sent on. */
  function Work(st: seq<Stage>): nat {
    if st == [] then 0 else (if st[0].Holding? then |st| else 0) + Work(st[1..])
  }

  lemma {:induction false} WorkAt(st: seq<Stage>, k: nat, x: Stage)
    requires k < |st|
    ensures Work(st[k := x]) + (if st[k].Holding? then |st| - k else 0) == Work(st) + (if x.Holding? then |st| - k else 0)
  {
    var st' := st[k := x];
    if k > 0 {
      WorkAt(st[1..], k - 1, x);
      assert st'[1..] == st[1..][k - 1 := x];
    } else {
      assert st'[1..] == st[1..];
    }
  }

  /** The last process that holds a number, if any does. */
  function LastHolder(st: seq<Stage>, n: nat): (k: int)
    requires n <= |st|
    ensures -1 <= k < n && (k >= 0 ==> st[k].Holding?) && forall j :: k < j < n ==> !st[j].Holding?
  {
    if n == 0 then -1 else if st[n - 1].Holding? then n - 1 else LastHolder(st, n - 1)
  }

  // -------------------------------------------------------------- to the top

  lemma Prepend(s: Pipeline, step: Step, rest: seq<Step>)
    requires Enabled(s, step) && EnabledRun(Next(s, step), rest)
    ensures EnabledRun(s, [step] + rest) && Run(s, [step] + rest) == Run(Next(s, step), rest)
  {
    assert ([step] + rest)[1..] == rest;
  }

  /** Sending the foremost number on: to the process at the top, or to a filter. */
  lemma PassOn(s: Pipeline, k: nat)
    requires PipelineInv(s) && s.stages[|s.stages| - 1].AtTop? && k < |s.stages|
    requires s.stages[k].Holding? && forall j :: k < j < |s.stages| ==> !s.stages[j].Holding?
    ensures Enabled(s, Pass(k)) && k + 1 < |s.stages|
    ensures var s' := Next(s, Pass(k));
            && s'.next == s.next && |s'.stages| == |s.stages|
            && (k + 2 == |s.stages| ==> Primes(s') == Primes(s) + [s.stages[k].value])
            && (k + 2 < |s.stages| ==>
                  Primes(s') == Primes(s) && s'.stages[|s'.stages| - 1].AtTop? && Work(s'.stages) < Work(s.stages))
  {
    hide Divides, FirstPrimes, InFlight, Ordered, NoneLost;
    var n := |s.stages|;
    if k + 2 < n {
      assert s.stages[k + 1].Waiting?;
      PrimesArePositive(s, k + 1);
    }
    hide PipelineInv;
    var s' := Next(s, Pass(k));
    var next := Receive(s.stages[k + 1], s.stages[k].value);
    WorkAt(s.stages, k, Waiting(s.stages[k].prime));
    WorkAt(s.stages[k := Waiting(s.stages[k].prime)], k + 1, next);
    if k + 2 < n {
      assert forall i :: 0 <= i < n ==> PrimeOf(s'.stages[i]) == PrimeOf(s.stages[i]);
      assert Primes(s') == Primes(s);
    } else {
      assert forall i :: 0 <= i < n - 1 ==> PrimeOf(s'.stages[i]) == PrimeOf(s.stages[i]);
      assert Primes(s') == Primes(s) + [s.stages[k].value];
    }
  }

  /** With nothing in flight the generator sends its next number. */
  lemma SendNext(s: Pipeline)
    requires PipelineInv(s) && s.stages[|s.stages| - 1].AtTop? && forall j :: 0 <= j < |s.stages| ==> !s.stages[j].Holding?
    ensures Enabled(s, Generate)
    ensures var s' := Next(s, Generate);
            && s'.next == s.next + 1 && |s'.stages| == |s.stages|
            && (|s.stages| == 1 ==> Primes(s') == Primes(s) + [s.next])
            && (|s.stages| > 1 ==> Primes(s') == Primes(s) && s'.stages[|s'.stages| - 1].AtTop?)
  {
    hide Divides, FirstPrimes;
    if |s.stages| > 1 {
      PrimesArePositive(s, 0);
    }
    var s' := Next(s, Generate);
    if |s.stages| > 1 {
      assert Primes(s') == Primes(s);
    } else {
      assert Primes(s') == Primes(s) + [s.next];
    }
  }

  /** While a number that no fetched prime divides is on its way, some process can be moved towards the top. */
  lemma {:induction false} ToTop(s: Pipeline, q: nat) returns (steps: seq<Step>)
    requires PipelineInv(s) && s.stages[|s.stages| - 1].AtTop? && q >= 2 && Survives(q, Primes(s))
    ensures EnabledRun(s, steps) && |Run(s, steps).stages| > 0 && |Primes(Run(s, steps))| == |Primes(s)| + 1
    decreases if s.next <= q then q + 1 - s.next else 0, Work(s.stages)
  {
    hide Divides, FirstPrimes, Survives, Next, Primes, Enabled, InFlight, Ordered;
    var n := |s.stages|;
    var k := LastHolder(s.stages, n);
    var step: Step;
    var grown: bool;
    if k >= 0 {
      PassOn(s, k);
      step, grown := Pass(k), k + 2 == n;
    } else {
      assert forall j: nat :: !HeldAt(s, j, q);
      assert s.next <= q;
      SendNext(s);
      step, grown := Generate, n == 1;
    }
    var s' := Next(s, step);
    var rest := [];
    if !grown {
      StepInv(s, step);
      rest := ToTop(s', q);
    } else {
      assert EnabledRun(s', []) && Run(s', []) == s';
    }
    Prepend(s, step, rest);
    steps := [step] + rest;
  }

  /** From every state of every run, one more prime can be fetched. */
  lemma Progress(s: Pipeline) returns (steps: seq<Step>)
    requires PipelineInv(s)
    ensures EnabledRun(s, steps) && |Run(s, steps).stages| > 0 && |Primes(Run(s, steps))| == |Primes(s)| + 1
  {
    hide Divides, FirstPrimes, Survives, InFlight, Ordered, NoneLost;
    var n := |s.stages| - 1;
    assert forall i :: 0 <= i < |Primes(s)| ==> Primes(s)[i] >= 2 by {
      forall i | 0 <= i < |Primes(s)| ensures Primes(s)[i] >= 2 { PrimesArePositive(s, i); }
    }
    var q := Survivor(Primes(s));
    if s.stages[n].AtTop? {
      steps := ToTop(s, q);
    } else {
      var s' := Next(s, Fork(n));
      StepInv(s, Fork(n));
      assert s'.stages == s.stages[..n] + [Waiting(s.stages[n].prime), AtTop];
      assert Primes(s') == Primes(s);
      var rest := ToTop(s', q);
      Prepend(s, Fork(n), rest);
      steps := [Fork(n)] + rest;
    }
  }

  lemma {:induction false} JoinRuns(s: Pipeline, a: seq<Step>, b: seq<Step>)
    requires EnabledRun(s, a) && EnabledRun(Run(s, a), b)
    ensures EnabledRun(s, a + b) && Run(s, a + b) == Run(Run(s, a), b)
    decreases |a|
  {
    if a == [] {
      assert a + b == b;
    } else {
      JoinRuns(Next(s, a[0]), a[1..], b);
      assert (a + b)[0] == a[0] && (a + b)[1..] == a[1..] + b;
    }
  }

  /** For every n there is a run of the program that fetches the first n primes. */
  lemma {:induction false} FetchesEveryPrime(n: nat) returns (steps: seq<Step>)
    ensures EnabledRun(Start, steps) && |Run(Start, steps).stages| > 0
    ensures |Primes(Run(Start, steps))| == n && FirstPrimes(Primes(Run(Start, steps)))
  {
    StartInv();
    if n == 0 {
      steps := [];
      assert Primes(Start) == [];
    } else {
      hide Next, Primes, Enabled, FirstPrimes;
      var before := FetchesEveryPrime(n - 1);
      RunInv(Start, before);
      var more := Progress(Run(Start, before));
      JoinRuns(Start, before, more);
      steps := before + more;
      RunInv(Start, steps);
    }
  }
}
