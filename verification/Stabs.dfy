/** stab_binsearch (kern/kdebug.c:59-103): binary search in a table where only some entries have the wanted type. */
module Stabs {
  import opened Mmu

  /** The fields of struct Stab that the search reads. */
  datatype Stab = Stab(kind: nat, value: nat)

  /** The loop's variables; *region_right always equals r in the main loop. */
  datatype Search = Search(l: int, r: int, left: int, addr: nat, any: bool)

  predicate Matches(stabs: seq<Stab>, kind: nat, k: int) {
    0 <= k < |stabs| && stabs[k].kind == kind
  }

  /** The last entry of the wanted type in [l, m], or l - 1. */
  function LastIn(stabs: seq<Stab>, kind: nat, l: int, m: int): (r: int)
    requires l <= m + 1
    ensures l - 1 <= r <= m && (r >= l ==> Matches(stabs, kind, r))
    ensures forall k :: r < k <= m ==> !Matches(stabs, kind, k)
    decreases m - l + 1
  {
    if m < l then m else if Matches(stabs, kind, m) then m else LastIn(stabs, kind, l, m - 1)
  }

  predicate InTable(stabs: seq<Stab>, s: Search) {
    0 <= s.l <= s.r + 1 && s.r < |stabs| && 0 <= s.left && s.addr < TWO32
  }

  /** The entry the next round compares with. */
  function Probe(stabs: seq<Stab>, kind: nat, s: Search): (m: int)
    requires InTable(stabs, s) && s.l <= s.r
    ensures s.l - 1 <= m <= (s.l + s.r) / 2 && (m >= s.l ==> Matches(stabs, kind, m))
  {
    LastIn(stabs, kind, s.l, (s.l + s.r) / 2)
  }

  /** One round of the main loop. */
  function Round(stabs: seq<Stab>, kind: nat, s: Search): (s': Search)
    requires InTable(stabs, s) && s.l <= s.r
    ensures InTable(stabs, s')
  {
    var trueM := (s.l + s.r) / 2;
    var m := Probe(stabs, kind, s);
    if m < s.l then s.(l := trueM + 1)
    else if stabs[m].value < s.addr then s.(l := trueM + 1, left := m, any := true)
    else if stabs[m].value > s.addr then s.(r := m - 1, any := true)
    else s.(l := m, left := m, addr := (s.addr + 1) % TWO32, any := true)
  }

  /** 1 if the next round finds addr exactly: such a round may move neither end, but then the next one does. */
  function HitNext(stabs: seq<Stab>, kind: nat, s: Search): nat
    requires InTable(stabs, s)
  {
    if s.l > s.r then 0
    else if Probe(stabs, kind, s) >= s.l && stabs[Probe(stabs, kind, s)].value == s.addr then 1
    else 0
  }

  /** Every round makes progress, on any table. */
  lemma RoundProgress(stabs: seq<Stab>, kind: nat, s: Search)
    requires InTable(stabs, s) && s.l <= s.r
    ensures var s' := Round(stabs, kind, s);
            s'.r - s'.l < s.r - s.l || (s'.r - s'.l == s.r - s.l && HitNext(stabs, kind, s') < HitNext(stabs, kind, s))
  {
  }

  /** The rest of the search from a loop state: the new (*region_left, *region_right). */
  function Result(stabs: seq<Stab>, kind: nat, s: Search): (int, int)
    requires InTable(stabs, s)
    decreases s.r - s.l + 1, HitNext(stabs, kind, s)
  {
    if s.l <= s.r then
      RoundProgress(stabs, kind, s);
      Result(stabs, kind, Round(stabs, kind, s))
    else Finish(stabs, kind, s)
  }

  function Finish(stabs: seq<Stab>, kind: nat, s: Search): (int, int)
    requires InTable(stabs, s)
  {
    if !s.any then (s.left, s.left - 1)
    else if s.r < s.left then (s.r, s.r)
    else (LastIn(stabs, kind, s.left + 1, s.r), s.r)
  }

  lemma LastIsUnique(stabs: seq<Stab>, kind: nat, l: int, m: int, k: int)
    requires l <= m + 1 && l - 1 <= k <= m && (k >= l ==> Matches(stabs, kind, k))
    requires forall j :: k < j <= m ==> !Matches(stabs, kind, j)
    ensures k == LastIn(stabs, kind, l, m)
  {
    var x := LastIn(stabs, kind, l, m);
    assert k < x ==> !Matches(stabs, kind, x);
  }

  /** The two inner scans: downwards to an entry of the wanted type. */
  method ScanDown(stabs: seq<Stab>, kind: nat, l: int, m0: int) returns (m: int)
    requires 0 <= l <= m0 + 1 <= |stabs|
    ensures m == LastIn(stabs, kind, l, m0)
  {
    m := m0;
    while m >= l && stabs[m].kind != kind
      invariant l - 1 <= m <= m0 && forall k :: m < k <= m0 ==> !Matches(stabs, kind, k)
    {
      m := m - 1;
    }
    LastIsUnique(stabs, kind, l, m0, m);
  }

  /**
   The loops of stab_binsearch compute Result; they terminate on every table, sorted or not.  On an empty
   range, wherever its ends lie, the table is not read and the right end moves to just before the left one.
   */
  method StabBinsearch(stabs: seq<Stab>, regionLeft: int, regionRight: int, kind: nat, addr0: nat)
    returns (left: int, right: int)
    requires addr0 < TWO32 && (regionLeft <= regionRight ==> 0 <= regionLeft && regionRight < |stabs|)
    ensures regionLeft > regionRight ==> (left, right) == (regionLeft, regionLeft - 1)
    ensures regionLeft <= regionRight ==>
              (left, right) == Result(stabs, kind, Search(regionLeft, regionRight, regionLeft, addr0, false))
  {
    hide HitNext, Probe, Round, LastIn, Finish;
    left, right := regionLeft, regionRight;
    if regionLeft > regionRight {
      return regionLeft, regionLeft - 1;
    }
    var l, r, anyMatches, addr: nat := regionLeft, regionRight, false, addr0;
    while l <= r
      invariant InTable(stabs, Search(l, r, left, addr, anyMatches)) && right == r
      invariant Result(stabs, kind, Search(l, r, left, addr, anyMatches)) ==
                Result(stabs, kind, Search(regionLeft, regionRight, regionLeft, addr0, false))
      decreases r - l + 1, HitNext(stabs, kind, Search(l, r, left, addr, anyMatches))
    {
      ghost var s := Search(l, r, left, addr, anyMatches);
      RoundProgress(stabs, kind, s);
      var trueM := (l + r) / 2;
      var m := ScanDown(stabs, kind, l, trueM);
      ProbeIs(stabs, kind, s);
      RoundIs(stabs, kind, s);
      if m < l {
        l := trueM + 1;
      } else {
        anyMatches := true;
        if stabs[m].value < addr {
          left := m;
          l := trueM + 1;
        } else if stabs[m].value > addr {
          right := m - 1;
          r := m - 1;
        } else {
          left := m;
          l := m;
          addr := (addr + 1) % TWO32;
        }
      }
      assert Search(l, r, left, addr, anyMatches) == Round(stabs, kind, s);
    }
    FinishIs(stabs, kind, Search(l, r, left, addr, anyMatches));
    if !anyMatches {
      right := left - 1;
    } else if right < left {
      left := right;
    } else {
      left := ScanDown(stabs, kind, left + 1, right);
    }
  }

  lemma FinishIs(stabs: seq<Stab>, kind: nat, s: Search)
    requires InTable(stabs, s)
    ensures Finish(stabs, kind, s) ==
            if !s.any then (s.left, s.left - 1)
            else if s.r < s.left then (s.r, s.r) else (LastIn(stabs, kind, s.left + 1, s.r), s.r)
  {
  }

  lemma RoundIs(stabs: seq<Stab>, kind: nat, s: Search)
    requires InTable(stabs, s) && s.l <= s.r
    ensures var m, s' := Probe(stabs, kind, s), Round(stabs, kind, s);
            && InTable(stabs, s')
            && s' == (if m < s.l then s.(l := (s.l + s.r) / 2 + 1)
                      else if stabs[m].value < s.addr then s.(l := (s.l + s.r) / 2 + 1, left := m, any := true)
                      else if stabs[m].value > s.addr then s.(r := m - 1, any := true)
                      else s.(l := m, left := m, addr := (s.addr + 1) % TWO32, any := true))
  {
  }

  lemma ProbeIs(stabs: seq<Stab>, kind: nat, s: Search)
    requires InTable(stabs, s) && s.l <= s.r
    ensures Probe(stabs, kind, s) == LastIn(stabs, kind, s.l, (s.l + s.r) / 2)
  {
  }

  // ------------------------------------------------- agreement with a linear scan

  /** Entries of the wanted type in [lo, hi] have nondecreasing addresses. */
  ghost predicate Sorted(stabs: seq<Stab>, kind: nat, lo: int, hi: int) {
    forall a, b :: lo <= a <= b <= hi && Matches(stabs, kind, a) && Matches(stabs, kind, b) ==> stabs[a].value <= stabs[b].value
  }

  ghost predicate NoneAt(stabs: seq<Stab>, kind: nat, lo: int, hi: int, value: nat) {
    forall k :: lo <= k <= hi && Matches(stabs, kind, k) ==> stabs[k].value != value
  }

  /** A range of 32-bit values in address order. */
  ghost predicate Ordered(stabs: seq<Stab>, kind: nat, lo: int, hi: int, addr: nat) {
    && 0 <= lo <= hi + 1 && hi < |stabs| && Sorted(stabs, kind, lo, hi) && addr < TWO32
    && forall k :: 0 <= k < |stabs| ==> stabs[k].value < TWO32
  }

  predicate Hits(stabs: seq<Stab>, kind: nat, s: Search)
    requires InTable(stabs, s) && s.l <= s.r
  {
    Probe(stabs, kind, s) >= s.l && stabs[Probe(stabs, kind, s)].value == s.addr
  }

  /**
   If the search comes upon addr exactly, then addr + 1 does not wrap and no matching entry of the range
   still under consideration has the value addr + 1 it goes on with.
   */
  ghost predicate CleanHit(stabs: seq<Stab>, kind: nat, s: Search)
    requires InTable(stabs, s)
    decreases s.r - s.l + 1, HitNext(stabs, kind, s)
  {
    s.l <= s.r ==>
      if Hits(stabs, kind, s) then s.addr < TWO32 - 1 && NoneAt(stabs, kind, s.l, s.r, s.addr + 1)
      else
        RoundProgress(stabs, kind, s);
        CleanHit(stabs, kind, Round(stabs, kind, s))
  }

  /** The answer a scan of the whole range would give. */
  ghost predicate ScanAnswer(stabs: seq<Stab>, kind: nat, lo: int, hi: int, addr: nat, left: int, right: int) {
    if exists k :: lo <= k <= hi && Matches(stabs, kind, k) && stabs[k].value <= addr then
      // left is the last matching entry at most addr, right lies just before the next one
      && lo <= left <= right <= hi
      && Matches(stabs, kind, left) && stabs[left].value <= addr
      && (forall k :: left < k <= right ==> !Matches(stabs, kind, k))
      && (right == hi || Matches(stabs, kind, right + 1))
      && (forall k :: right < k <= hi && Matches(stabs, kind, k) ==> stabs[k].value > addr)
    else if exists k :: lo <= k <= hi && Matches(stabs, kind, k) then
      // every matching entry lies above addr: left does not move past the start
      && lo - 1 <= right < hi && Matches(stabs, kind, right + 1)
      && (forall k :: lo <= k <= right ==> !Matches(stabs, kind, k))
      && left == if right < lo then right else lo
    else left == lo && right == lo - 1
  }

  /**
   What the loop knows: matching entries before l are at most addr, those beyond r above it; none lies strictly
   between left and l; and left is such an entry once one has been `found`.
   */
  ghost predicate Bracket(stabs: seq<Stab>, kind: nat, lo: int, hi: int, addr: nat, s: Search, found: bool) {
    && lo <= s.l <= s.r + 1 && s.r <= hi && lo <= s.left
    && (s.addr == addr || (s.addr == addr + 1 && NoneAt(stabs, kind, s.l, s.r, addr + 1))) && (s.any <==> found || s.r < hi)
    && (forall k :: lo <= k < s.l && Matches(stabs, kind, k) ==> stabs[k].value <= addr)
    && (forall k :: s.r < k <= hi && Matches(stabs, kind, k) ==> stabs[k].value > addr)
    && (forall k :: s.left < k < s.l ==> !Matches(stabs, kind, k))
    && (s.r == hi || Matches(stabs, kind, s.r + 1))
    && (if found then s.left <= hi && Matches(stabs, kind, s.left) && stabs[s.left].value <= addr
        else s.left == lo && !(lo < s.l && Matches(stabs, kind, lo)))
  }

  lemma CleanStep(stabs: seq<Stab>, kind: nat, s: Search)
    requires InTable(stabs, s) && s.l <= s.r && CleanHit(stabs, kind, s)
    ensures Hits(stabs, kind, s) ==> s.addr < TWO32 - 1 && NoneAt(stabs, kind, s.l, s.r, s.addr + 1)
    ensures Round(stabs, kind, s).addr == s.addr ==> CleanHit(stabs, kind, Round(stabs, kind, s))
  {
    hide NoneAt, HitNext;
    RoundProgress(stabs, kind, s);
  }

  /** What a round may assume of an exact hit. */
  ghost predicate CleanNow(stabs: seq<Stab>, kind: nat, s: Search, addr: nat)
    requires InTable(stabs, s) && s.l <= s.r
  {
    s.addr == addr && Hits(stabs, kind, s) ==> s.addr < TWO32 - 1 && NoneAt(stabs, kind, s.l, s.r, s.addr + 1)
  }

  lemma RoundKeepsBracket(stabs: seq<Stab>, kind: nat, lo: int, hi: int, addr: nat, s: Search, found: bool)
      returns (found': bool)
    requires Ordered(stabs, kind, lo, hi, addr) && Bracket(stabs, kind, lo, hi, addr, s, found)
    requires InTable(stabs, s) && s.l <= s.r && CleanNow(stabs, kind, s, addr)
    ensures Bracket(stabs, kind, lo, hi, addr, Round(stabs, kind, s), found')
  {
    hide Bracket, Ordered, CleanNow;
    var m := Probe(stabs, kind, s);
    if m < s.l {
      found' := found;
      NoMatch(stabs, kind, lo, hi, addr, s, found);
    } else if stabs[m].value > s.addr {
      found' := found;
      TooHigh(stabs, kind, lo, hi, addr, s, found);
    } else {
      found' := true;
      AtOrBelow(stabs, kind, lo, hi, addr, s, found);
    }
  }

  lemma NeverBack(stabs: seq<Stab>, kind: nat, lo: int, hi: int, addr: nat, s: Search, found: bool)
    requires Bracket(stabs, kind, lo, hi, addr, s, found) && InTable(stabs, s) && s.l <= s.r && s.addr != addr
    ensures Round(stabs, kind, s).addr != addr
  {
  }

  lemma NoMatch(stabs: seq<Stab>, kind: nat, lo: int, hi: int, addr: nat, s: Search, found: bool)
    requires Ordered(stabs, kind, lo, hi, addr) && Bracket(stabs, kind, lo, hi, addr, s, found)
    requires InTable(stabs, s) && s.l <= s.r && Probe(stabs, kind, s) < s.l
    ensures Bracket(stabs, kind, lo, hi, addr, Round(stabs, kind, s), found)
  {
  }

  lemma TooHigh(stabs: seq<Stab>, kind: nat, lo: int, hi: int, addr: nat, s: Search, found: bool)
    requires Ordered(stabs, kind, lo, hi, addr) && Bracket(stabs, kind, lo, hi, addr, s, found)
    requires InTable(stabs, s) && s.l <= s.r && Probe(stabs, kind, s) >= s.l && stabs[Probe(stabs, kind, s)].value > s.addr
    ensures Bracket(stabs, kind, lo, hi, addr, Round(stabs, kind, s), found)
  {
  }

  lemma AtOrBelow(stabs: seq<Stab>, kind: nat, lo: int, hi: int, addr: nat, s: Search, found: bool)
    requires Ordered(stabs, kind, lo, hi, addr) && Bracket(stabs, kind, lo, hi, addr, s, found)
    requires InTable(stabs, s) && s.l <= s.r && CleanNow(stabs, kind, s, addr)
    requires Probe(stabs, kind, s) >= s.l && stabs[Probe(stabs, kind, s)].value <= s.addr
    ensures Bracket(stabs, kind, lo, hi, addr, Round(stabs, kind, s), true)
  {
    assert stabs[Probe(stabs, kind, s)].value <= addr;
  }

  lemma FinishIsScan(stabs: seq<Stab>, kind: nat, lo: int, hi: int, addr: nat, s: Search, found: bool)
    requires Ordered(stabs, kind, lo, hi, addr) && Bracket(stabs, kind, lo, hi, addr, s, found)
    requires InTable(stabs, s) && s.l > s.r
    ensures var (left, right) := Finish(stabs, kind, s); ScanAnswer(stabs, kind, lo, hi, addr, left, right)
  {
    if found {
      assert s.left <= s.r;
      LastIsUnique(stabs, kind, s.left + 1, s.r, s.left);
    } else {
      assert forall k :: lo <= k <= s.r ==> !Matches(stabs, kind, k);
      if lo <= s.r {
        LastIsUnique(stabs, kind, lo + 1, s.r, lo);
      }
    }
  }

  lemma {:induction false} SearchScans(stabs: seq<Stab>, kind: nat, lo: int, hi: int, addr: nat, s: Search, found: bool)
    requires Ordered(stabs, kind, lo, hi, addr) && Bracket(stabs, kind, lo, hi, addr, s, found) && InTable(stabs, s)
    requires s.addr == addr ==> CleanHit(stabs, kind, s)
    ensures var (left, right) := Result(stabs, kind, s); ScanAnswer(stabs, kind, lo, hi, addr, left, right)
    decreases s.r - s.l + 1, HitNext(stabs, kind, s)
  {
    hide Ordered, Bracket, ScanAnswer, Round, Finish, HitNext, CleanHit;
    if s.l <= s.r {
      RoundProgress(stabs, kind, s);
      if s.addr == addr {
        CleanStep(stabs, kind, s);
      } else {
        NeverBack(stabs, kind, lo, hi, addr, s, found);
      }
      var found' := RoundKeepsBracket(stabs, kind, lo, hi, addr, s, found);
      SearchScans(stabs, kind, lo, hi, addr, Round(stabs, kind, s), found');
    } else {
      FinishIsScan(stabs, kind, lo, hi, addr, s, found);
    }
  }

  // ------------------------------------------------------------ unclean hits

  /** Past an unclean hit the right end stays at or beyond y, an entry that lies above addr. */
  ghost predicate Overshot(stabs: seq<Stab>, kind: nat, lo: int, hi: int, addr: nat, s: Search, y: int) {
    && lo <= y <= s.r <= hi && s.any && Matches(stabs, kind, y) && stabs[y].value == addr + 1 && addr + 2 < TWO32
    && lo <= s.l && (s.addr > addr || (s.addr == 0 && s.l > y))
  }

  lemma RoundOvershoots(stabs: seq<Stab>, kind: nat, lo: int, hi: int, addr: nat, s: Search, y: int)
    requires Ordered(stabs, kind, lo, hi, addr) && InTable(stabs, s) && s.l <= s.r && Overshot(stabs, kind, lo, hi, addr, s, y)
    ensures Overshot(stabs, kind, lo, hi, addr, Round(stabs, kind, s), y)
  {
  }

  ghost predicate SomeAtMost(stabs: seq<Stab>, kind: nat, lo: int, hi: int, addr: nat) {
    exists k :: lo <= k <= hi && Matches(stabs, kind, k) && stabs[k].value <= addr
  }

  lemma {:induction false} StaysOff(stabs: seq<Stab>, kind: nat, lo: int, hi: int, addr: nat, s: Search, y: int)
    requires Ordered(stabs, kind, lo, hi, addr) && InTable(stabs, s) && SomeAtMost(stabs, kind, lo, hi, addr)
    requires Overshot(stabs, kind, lo, hi, addr, s, y)
    ensures var (left, right) := Result(stabs, kind, s); !ScanAnswer(stabs, kind, lo, hi, addr, left, right)
    decreases s.r - s.l + 1, HitNext(stabs, kind, s)
  {
    hide Round, HitNext, Ordered, Sorted, Overshot, ScanAnswer, SomeAtMost;
    if s.l <= s.r {
      RoundProgress(stabs, kind, s);
      RoundOvershoots(stabs, kind, lo, hi, addr, s, y);
      StaysOff(stabs, kind, lo, hi, addr, Round(stabs, kind, s), y);
    } else {
      EndsOff(stabs, kind, lo, hi, addr, s, y);
    }
  }

  lemma EndsOff(stabs: seq<Stab>, kind: nat, lo: int, hi: int, addr: nat, s: Search, y: int)
    requires Ordered(stabs, kind, lo, hi, addr) && InTable(stabs, s) && s.l > s.r && SomeAtMost(stabs, kind, lo, hi, addr)
    requires Overshot(stabs, kind, lo, hi, addr, s, y)
    ensures var (left, right) := Finish(stabs, kind, s); !ScanAnswer(stabs, kind, lo, hi, addr, left, right)
  {
  }

  /** After addr has wrapped to 0 at the hit m, everything from m on looks too large. */
  ghost predicate Wrapped(stabs: seq<Stab>, kind: nat, lo: int, hi: int, s: Search, m: int) {
    && lo <= m <= hi && s.r <= hi && s.any && Matches(stabs, kind, m) && stabs[m].value == TWO32 - 1
    && s.addr == 0 && s.l == s.left == m
  }

  lemma RoundWrapped(stabs: seq<Stab>, kind: nat, lo: int, hi: int, addr: nat, s: Search, m: int)
    requires Ordered(stabs, kind, lo, hi, addr) && InTable(stabs, s) && s.l <= s.r && Wrapped(stabs, kind, lo, hi, s, m)
    ensures Wrapped(stabs, kind, lo, hi, Round(stabs, kind, s), m)
  {
  }

  /** The search then gives up everything from m on. */
  lemma {:induction false} WrappedResult(stabs: seq<Stab>, kind: nat, lo: int, hi: int, addr: nat, s: Search, m: int)
    requires Ordered(stabs, kind, lo, hi, addr) && InTable(stabs, s) && Wrapped(stabs, kind, lo, hi, s, m)
    ensures Result(stabs, kind, s) == (m - 1, m - 1)
    decreases s.r - s.l + 1, HitNext(stabs, kind, s)
  {
    hide Round, HitNext, Ordered;
    if s.l <= s.r {
      RoundProgress(stabs, kind, s);
      RoundWrapped(stabs, kind, lo, hi, addr, s, m);
      WrappedResult(stabs, kind, lo, hi, addr, Round(stabs, kind, s), m);
    }
  }

  // -------------------------------------------- the last address but one

  /** The next exact hit comes right after a matching entry below it. */
  ghost predicate Lands(stabs: seq<Stab>, kind: nat, s: Search)
    requires InTable(stabs, s)
    decreases s.r - s.l + 1, HitNext(stabs, kind, s)
  {
    s.l <= s.r &&
    if Hits(stabs, kind, s) then
      var m := Probe(stabs, kind, s); Matches(stabs, kind, m - 1) && stabs[m - 1].value < s.addr
    else
      RoundProgress(stabs, kind, s);
      Lands(stabs, kind, Round(stabs, kind, s))
  }

  /**
   An unclean hit of addr = 2^32 - 2 does no harm if the search next comes upon the value 2^32 - 1 right after
   a matching entry below it: addr then wraps to 0, and the search gives up everything from there on.
   */
  ghost predicate WrapHides(stabs: seq<Stab>, kind: nat, s: Search)
    requires InTable(stabs, s)
    decreases s.r - s.l + 1, HitNext(stabs, kind, s)
  {
    s.l <= s.r &&
    if Hits(stabs, kind, s) then s.addr == TWO32 - 2 && Lands(stabs, kind, Round(stabs, kind, s))
    else
      RoundProgress(stabs, kind, s);
      WrapHides(stabs, kind, Round(stabs, kind, s))
  }

  /** Looking for 2^32 - 1, with an entry of that value at y still ahead, after addr itself was hit at x. */
  ghost predicate Chasing(stabs: seq<Stab>, kind: nat, lo: int, hi: int, s: Search, x: int, y: int) {
    && s.addr == TWO32 - 1 && s.any && lo <= x <= s.l <= y <= s.r <= hi
    && Matches(stabs, kind, x) && stabs[x].value == TWO32 - 2 && Matches(stabs, kind, y) && stabs[y].value == TWO32 - 1
  }

  lemma RoundChases(stabs: seq<Stab>, kind: nat, lo: int, hi: int, s: Search, x: int, y: int)
    requires Ordered(stabs, kind, lo, hi, TWO32 - 2) && InTable(stabs, s) && Chasing(stabs, kind, lo, hi, s, x, y)
    ensures !Hits(stabs, kind, s) ==> Chasing(stabs, kind, lo, hi, Round(stabs, kind, s), x, y)
    ensures Hits(stabs, kind, s) ==>
              Probe(stabs, kind, s) > x && Wrapped(stabs, kind, lo, hi, Round(stabs, kind, s), Probe(stabs, kind, s))
  {
    var m := Probe(stabs, kind, s);
    assert forall k :: m < k <= (s.l + s.r) / 2 ==> !Matches(stabs, kind, k);
  }

  lemma LandingIsAnswer(stabs: seq<Stab>, kind: nat, lo: int, hi: int, x: int, m: int)
    requires Ordered(stabs, kind, lo, hi, TWO32 - 2) && lo <= x < m <= hi
    requires Matches(stabs, kind, x) && stabs[x].value == TWO32 - 2 && Matches(stabs, kind, m) && stabs[m].value == TWO32 - 1
    ensures ScanAnswer(stabs, kind, lo, hi, TWO32 - 2, m - 1, m - 1) <==>
            Matches(stabs, kind, m - 1) && stabs[m - 1].value < TWO32 - 1
  {
  }

  lemma {:induction false} ChaseExact(stabs: seq<Stab>, kind: nat, lo: int, hi: int, s: Search, x: int, y: int)
    requires Ordered(stabs, kind, lo, hi, TWO32 - 2) && InTable(stabs, s) && Chasing(stabs, kind, lo, hi, s, x, y)
    ensures var (left, right) := Result(stabs, kind, s);
            ScanAnswer(stabs, kind, lo, hi, TWO32 - 2, left, right) <==> Lands(stabs, kind, s)
    decreases s.r - s.l + 1, HitNext(stabs, kind, s)
  {
    hide Round, HitNext, Ordered, ScanAnswer;
    RoundProgress(stabs, kind, s);
    RoundChases(stabs, kind, lo, hi, s, x, y);
    var s' := Round(stabs, kind, s);
    if Hits(stabs, kind, s) {
      var m := Probe(stabs, kind, s);
      WrappedResult(stabs, kind, lo, hi, TWO32 - 2, s', m);
      LandingIsAnswer(stabs, kind, lo, hi, x, m);
    } else {
      ChaseExact(stabs, kind, lo, hi, s', x, y);
    }
  }

  // ----------------------------------------------------- the exact condition

  /** A round without an exact hit keeps addr, and the two ends in the range. */
  ghost predicate Seeking(lo: int, hi: int, addr: nat, s: Search) { lo <= s.l && s.r <= hi && s.addr == addr }

  lemma UncleanHit(stabs: seq<Stab>, kind: nat, lo: int, hi: int, addr: nat, s: Search)
    requires Ordered(stabs, kind, lo, hi, addr) && InTable(stabs, s) && s.l <= s.r && Seeking(lo, hi, addr, s)
    requires Hits(stabs, kind, s) && !CleanHit(stabs, kind, s)
    ensures var (left, right) := Result(stabs, kind, Round(stabs, kind, s));
            ScanAnswer(stabs, kind, lo, hi, addr, left, right) <==>
            addr == TWO32 - 2 && Lands(stabs, kind, Round(stabs, kind, s))
  {
    hide Result, ScanAnswer, Lands, HitNext;
    var x, s' := Probe(stabs, kind, s), Round(stabs, kind, s);
    assert lo <= x <= hi && Matches(stabs, kind, x) && stabs[x].value == addr;
    assert SomeAtMost(stabs, kind, lo, hi, addr);
    if addr == TWO32 - 1 {
      WrappedResult(stabs, kind, lo, hi, addr, s', x);
      CutOff(stabs, kind, lo, hi, addr, x);
    } else {
      var y :| s.l <= y <= s.r && Matches(stabs, kind, y) && stabs[y].value == addr + 1;
      if addr == TWO32 - 2 {
        ChaseExact(stabs, kind, lo, hi, s', x, y);
      } else {
        StaysOff(stabs, kind, lo, hi, addr, s', y);
      }
    }
  }

  lemma CutOff(stabs: seq<Stab>, kind: nat, lo: int, hi: int, addr: nat, m: int)
    requires Ordered(stabs, kind, lo, hi, addr) && lo <= m <= hi && Matches(stabs, kind, m) && stabs[m].value == addr
    ensures !ScanAnswer(stabs, kind, lo, hi, addr, m - 1, m - 1)
  {
  }

  lemma {:induction false} UncleanExact(stabs: seq<Stab>, kind: nat, lo: int, hi: int, addr: nat, s: Search)
    requires Ordered(stabs, kind, lo, hi, addr) && InTable(stabs, s) && Seeking(lo, hi, addr, s) && !CleanHit(stabs, kind, s)
    ensures var (left, right) := Result(stabs, kind, s);
            ScanAnswer(stabs, kind, lo, hi, addr, left, right) <==> WrapHides(stabs, kind, s)
    decreases s.r - s.l + 1, HitNext(stabs, kind, s)
  {
    hide HitNext, Ordered, ScanAnswer, NoneAt;
    RoundProgress(stabs, kind, s);
    if Hits(stabs, kind, s) {
      UncleanHit(stabs, kind, lo, hi, addr, s);
    } else {
      UncleanExact(stabs, kind, lo, hi, addr, Round(stabs, kind, s));
    }
  }

  /**
   On a range in address order the binary search agrees with a linear scan if and only if it has no unclean
   hit, or an unclean hit of 2^32 - 2 that the wrap of addr hides.
   */
  lemma SearchExact(stabs: seq<Stab>, kind: nat, lo: int, hi: int, addr: nat)
    requires Ordered(stabs, kind, lo, hi, addr)
    ensures var s := Search(lo, hi, lo, addr, false);
            var (left, right) := Result(stabs, kind, s);
            ScanAnswer(stabs, kind, lo, hi, addr, left, right) <==> CleanHit(stabs, kind, s) || WrapHides(stabs, kind, s)
  {
    hide ScanAnswer, Result, CleanHit, WrapHides;
    var s := Search(lo, hi, lo, addr, false);
    if CleanHit(stabs, kind, s) {
      SearchScans(stabs, kind, lo, hi, addr, s, false);
    } else {
      UncleanExact(stabs, kind, lo, hi, addr, s);
    }
  }

  lemma {:induction false} NoNeighbourIsClean(stabs: seq<Stab>, kind: nat, lo: int, hi: int, addr: nat, s: Search)
    requires Ordered(stabs, kind, lo, hi, addr) && InTable(stabs, s) && Seeking(lo, hi, addr, s)
    requires NoneAt(stabs, kind, lo, hi, addr) || (addr < TWO32 - 1 && NoneAt(stabs, kind, lo, hi, addr + 1))
    ensures CleanHit(stabs, kind, s)
    decreases s.r - s.l + 1, HitNext(stabs, kind, s)
  {
    hide HitNext, Ordered;
    if s.l <= s.r {
      RoundProgress(stabs, kind, s);
      if !Hits(stabs, kind, s) {
        NoNeighbourIsClean(stabs, kind, lo, hi, addr, Round(stabs, kind, s));
      }
    }
  }

  /**
   In particular it agrees when no matching entry lies at addr, or none at addr + 1 and addr is below 2^32 - 1.
   */
  lemma SearchIsLinearScan(stabs: seq<Stab>, kind: nat, lo: int, hi: int, addr: nat)
    requires Ordered(stabs, kind, lo, hi, addr)
    requires NoneAt(stabs, kind, lo, hi, addr) || (addr < TWO32 - 1 && NoneAt(stabs, kind, lo, hi, addr + 1))
    ensures var (left, right) := Result(stabs, kind, Search(lo, hi, lo, addr, false));
            ScanAnswer(stabs, kind, lo, hi, addr, left, right)
  {
    hide ScanAnswer, Result, CleanHit;
    NoNeighbourIsClean(stabs, kind, lo, hi, addr, Search(lo, hi, lo, addr, false));
    SearchExact(stabs, kind, lo, hi, addr);
  }

  // ------------------------------------------------------------- where it fails

  /**
   An entry at addr + 1 throws the search off: with entries at 10 and 11, searching for 10 hits the first one, goes
   on with 11 and returns the second, although only the first contains the address.
   */
  lemma NeighbourCounterexample()
    ensures var stabs := [Stab(1, 10), Stab(1, 11)];
            Sorted(stabs, 1, 0, 1) && Result(stabs, 1, Search(0, 1, 0, 10, false)) == (1, 1) && stabs[1].value > 10
  {
    var stabs := [Stab(1, 10), Stab(1, 11)];
    assert LastIn(stabs, 1, 0, 0) == 0 && LastIn(stabs, 1, 1, 1) == 1;
    assert Finish(stabs, 1, Search(2, 1, 1, 12, true)) == (1, 1);
    assert Result(stabs, 1, Search(2, 1, 1, 12, true)) == (1, 1);
    assert Result(stabs, 1, Search(1, 1, 1, 12, true)) == (1, 1);
    assert Result(stabs, 1, Search(1, 1, 0, 11, true)) == (1, 1);
    assert Result(stabs, 1, Search(0, 1, 0, 11, true)) == (1, 1);
  }

  /**
   The same two entries before a third are harmless: the probe meets 11 first and drops it.  So no condition on
   the values alone can be exact.
   */
  lemma NeighbourHarmless()
    ensures var stabs := [Stab(1, 10), Stab(1, 11), Stab(1, 50)];
            Sorted(stabs, 1, 0, 2) && Result(stabs, 1, Search(0, 2, 0, 10, false)) == (0, 0)
  {
    hide Result, Round, Finish, LastIn, HitNext, Probe;
    var stabs := [Stab(1, 10), Stab(1, 11), Stab(1, 50)];
    var s0, s1, s2, s3 := Search(0, 2, 0, 10, false), Search(0, 0, 0, 10, true), Search(0, 0, 0, 11, true), Search(1, 0, 0, 11, true);
    OneRound(stabs, 1, s0, 1);
    OneRound(stabs, 1, s1, 0);
    OneRound(stabs, 1, s2, 0);
    assert Result(stabs, 1, s3) == (0, 0) by { LastRound(stabs, 1, s3, 0); }
  }

  /** A round whose probe is the matching entry m in the middle of the range. */
  lemma OneRound(stabs: seq<Stab>, kind: nat, s: Search, m: int)
    requires InTable(stabs, s) && s.l <= s.r && m == (s.l + s.r) / 2 && Matches(stabs, kind, m)
    ensures Result(stabs, kind, s) ==
            Result(stabs, kind,
                   if stabs[m].value < s.addr then s.(l := m + 1, left := m, any := true)
                   else if stabs[m].value > s.addr then s.(r := m - 1, any := true)
                   else s.(l := m, left := m, addr := (s.addr + 1) % TWO32, any := true))
  {
    ProbeIs(stabs, kind, s);
    RoundIs(stabs, kind, s);
    hide Round, HitNext, Probe;
  }

  lemma LastRound(stabs: seq<Stab>, kind: nat, s: Search, left: int)
    requires InTable(stabs, s) && s.l > s.r && s.any && s.left == s.r == left
    ensures Result(stabs, kind, s) == (left, left)
  {
  }

  /**
   The comment's "if left > right, addr is not contained in any matching stab" has no converse: with the only
   matching entry above the address, left ends up equal to right.
   */
  lemma NotContainedIsNotMarked()
    ensures var stabs := [Stab(0, 0), Stab(1, 100)]; Result(stabs, 1, Search(0, 1, 0, 50, false)) == (0, 0)
  {
    var stabs := [Stab(0, 0), Stab(1, 100)];
    assert LastIn(stabs, 1, 0, 0) == -1 && LastIn(stabs, 1, 1, 1) == 1 && LastIn(stabs, 1, 1, 0) == 0;
    assert Result(stabs, 1, Search(1, 0, 0, 50, true)) == (0, 0);
    assert Result(stabs, 1, Search(1, 1, 0, 50, false)) == (0, 0);
  }
}
