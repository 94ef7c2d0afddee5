/** The stable partition of the free list in check_page_free_list (kern/pmap.c:704-717). */
module Partition {
  import opened Mmu
  import opened Pmap
  import opened Ownership

  /** Where a tail pointer points: at a list head variable, or at a page's link. */
  datatype Tail = HeadVariable | LinkOf(page: nat)

  /** PDX(page2pa(pp)) >= pdx_limit, with the limit 1 used before kern_pgdir is installed. */
  predicate IsHigh(p: nat) { PDX(p * PGSIZE) >= 1 }

  /** The pages of one class, in list order. */
  ghost function Select(s: seq<nat>, high: bool): seq<nat> {
    if s == [] then []
    else Select(s[..|s| - 1], high) + if IsHigh(s[|s| - 1]) == high then [s[|s| - 1]] else []
  }

  lemma IsHighIs(p: nat)
    ensures IsHigh(p) <==> PDX(p * PGSIZE) >= 1
  {
  }

  /** High pages are those beyond the first 4 MB. */
  lemma HighIsBeyond4MB(p: nat)
    requires p < NPTENTRIES * NPTENTRIES
    ensures IsHigh(p) <==> p >= 1024
  {
    assert p * PGSIZE / PTSIZE == p / NPTENTRIES;
  }

  lemma {:induction false} SelectMembers(s: seq<nat>, high: bool)
    ensures forall x :: x in Select(s, high) <==> x in s && IsHigh(x) == high
  {
    if s != [] {
      SelectMembers(s[..|s| - 1], high);
      assert s == s[..|s| - 1] + [s[|s| - 1]];
    }
  }

  function SetTail(pages: seq<PageInfo>, tail: Tail, value: Link): (r: seq<PageInfo>)
    requires tail.LinkOf? ==> tail.page < |pages|
    ensures |r| == |pages|
  {
    if tail.HeadVariable? then pages else pages[tail.page := pages[tail.page].(link := value)]
  }

  ghost predicate SameRefs(a: seq<PageInfo>, b: seq<PageInfo>) {
    |a| == |b| && forall p :: 0 <= p < |a| ==> b[p].ref == a[p].ref
  }

  lemma SameRefsReflexive(a: seq<PageInfo>)
    ensures SameRefs(a, a)
  {
  }

  lemma SameRefsTransitive(a: seq<PageInfo>, b: seq<PageInfo>, c: seq<PageInfo>)
    requires SameRefs(a, b) && SameRefs(b, c)
    ensures SameRefs(a, c)
  {
  }

  /** A list under construction: linked from its head variable, its last link not yet set. */
  ghost predicate Building(pages: seq<PageInfo>, first: Link, tail: Tail, s: seq<nat>) {
    && Distinct(s)
    && (forall k :: 0 <= k < |s| ==> s[k] < |pages|)
    && (s == [] ==> tail == HeadVariable)
    && (s != [] ==> first == Ptr(s[0]) && tail == LinkOf(s[|s| - 1]))
    && (forall k: nat :: k < |s| - 1 ==> LinkAt(pages, s, k))
  }

  /** The part of the old list not yet visited is still linked as before; pages off the list have no link. */
  ghost predicate Rest(pages: seq<PageInfo>, free: seq<nat>, k: nat) {
    && Distinct(free)
    && (forall x :: 0 <= x < |free| ==> free[x] < |pages| && pages[free[x]].ref == 0)
    && (forall x: nat :: k <= x < |free| ==> LinkAt(pages, free, x))
    && (forall p: nat :: p < |pages| && p !in free ==> pages[p].link == Null)
  }

  ghost predicate Split(pages: seq<PageInfo>, free: seq<nat>, k: nat, pp1: Link, tail1: Tail, pp2: Link, tail2: Tail) {
    && k <= |free|
    && Rest(pages, free, k)
    && Building(pages, pp1, tail1, Select(free[..k], false))
    && Building(pages, pp2, tail2, Select(free[..k], true))
  }

  lemma Start(pages: seq<PageInfo>, head: Link, free: seq<nat>, pp1: Link, pp2: Link)
    requires FreeList(pages, head, free)
    ensures Split(pages, free, 0, pp1, HeadVariable, pp2, HeadVariable) && head == NextOf(free, 0)
  {
    assert forall x :: 0 <= x < |free| ==> free[x] in free;
  }

  lemma TailsInRange(pages: seq<PageInfo>, free: seq<nat>, k: nat, pp1: Link, tail1: Tail, pp2: Link, tail2: Tail)
    requires Split(pages, free, k, pp1, tail1, pp2, tail2)
    ensures tail1.LinkOf? ==> tail1.page < |pages|
    ensures tail2.LinkOf? ==> tail2.page < |pages|
    ensures k < |free| ==> free[k] < |pages|
  {
  }

  /** The list being extended gains page p at its end. */
  lemma Grow(pages: seq<PageInfo>, first: Link, tail: Tail, s: seq<nat>, p: nat)
    requires Building(pages, first, tail, s) && p < |pages| && p !in s
    ensures tail.LinkOf? ==> tail.page < |pages|
    ensures Building(SetTail(pages, tail, Ptr(p)), if tail.HeadVariable? then Ptr(p) else first, LinkOf(p), s + [p])
  {
    var pages', s' := SetTail(pages, tail, Ptr(p)), s + [p];
    forall k: nat | k < |s'| - 1 ensures LinkAt(pages', s', k) {
      if k < |s| - 1 {
        assert LinkAt(pages, s, k);
        assert s[k] != s[|s| - 1];
      }
    }
  }

  /** A list that does not contain the written page is untouched. */
  lemma Untouched(pages: seq<PageInfo>, first: Link, tail: Tail, s: seq<nat>, q: Tail, value: Link)
    requires Building(pages, first, tail, s) && (q.LinkOf? ==> q.page < |pages| && q.page !in s)
    ensures Building(SetTail(pages, q, value), first, tail, s)
  {
    var pages' := SetTail(pages, q, value);
    forall k: nat | k < |s| - 1 ensures LinkAt(pages', s, k) {
      assert LinkAt(pages, s, k) && s[k] in s;
    }
  }

  lemma RestAfter(pages: seq<PageInfo>, free: seq<nat>, k: nat, q: Tail, value: Link)
    requires Rest(pages, free, k) && k <= |free|
    requires q.LinkOf? ==> q.page in free[..k]
    ensures q.LinkOf? ==> q.page < |pages|
    ensures Rest(SetTail(pages, q, value), free, k)
  {
    var pages' := SetTail(pages, q, value);
    forall x: nat | k <= x < |free| ensures LinkAt(pages', free, x) {
      assert LinkAt(pages, free, x);
      if q.LinkOf? {
        var y :| 0 <= y < k && free[y] == q.page;
        assert free[y] != free[x];
      }
    }
  }

  lemma SelectStep(free: seq<nat>, k: nat, high: bool)
    requires k < |free|
    ensures Select(free[..k + 1], high) == Select(free[..k], high) + if IsHigh(free[k]) == high then [free[k]] else []
  {
    assert free[..k + 1][..k] == free[..k];
  }

  ghost predicate SplitPair(pages: seq<PageInfo>, free: seq<nat>, k: nat, high: bool, mine: (Link, Tail), other: (Link, Tail)) {
    && k <= |free|
    && Rest(pages, free, k)
    && Building(pages, mine.0, mine.1, Select(free[..k], high))
    && Building(pages, other.0, other.1, Select(free[..k], !high))
  }

  lemma AppendClass(pages: seq<PageInfo>, free: seq<nat>, k: nat, high: bool, mine: (Link, Tail), other: (Link, Tail))
    requires k < |free| && IsHigh(free[k]) == high && SplitPair(pages, free, k, high, mine, other)
    ensures mine.1.LinkOf? ==> mine.1.page < |pages|
    ensures var pages' := SetTail(pages, mine.1, Ptr(free[k]));
            && SplitPair(pages', free, k + 1, high,
                         (if mine.1.HeadVariable? then Ptr(free[k]) else mine.0, LinkOf(free[k])), other)
            && pages'[free[k]].link == NextOf(free, k + 1)
            && SameRefs(pages, pages')
  {
    var p, s := free[k], Select(free[..k], high);
    NewPage(pages, free, k, high, mine);
    TailIsMember(pages, mine.0, mine.1, s);
    RestNext(pages, free, k);
    hide Building, Rest, IsHigh, Select;
    SelectStep(free, k, high);
    SelectStep(free, k, !high);
    Grow(pages, mine.0, mine.1, s, p);
    Untouched(pages, other.0, other.1, Select(free[..k], !high), mine.1, Ptr(p));
    RestAfter(pages, free, k, mine.1, Ptr(p));
    RestNext(SetTail(pages, mine.1, Ptr(p)), free, k);
    assert Select(free[..k + 1], high) == s + [p];
    assert Select(free[..k + 1], !high) == Select(free[..k], !high);
  }

  lemma TailIsMember(pages: seq<PageInfo>, first: Link, tail: Tail, s: seq<nat>)
    requires Building(pages, first, tail, s)
    ensures tail.LinkOf? ==> tail.page in s && tail.page < |pages|
  {
  }

  lemma NewPage(pages: seq<PageInfo>, free: seq<nat>, k: nat, high: bool, mine: (Link, Tail))
    requires k < |free| && Distinct(free)
    ensures free[k] !in Select(free[..k], high)
    ensures forall x :: x in Select(free[..k], high) ==> x in free[..k] && x !in Select(free[..k], !high)
  {
    SelectMembers(free[..k], high);
    SelectMembers(free[..k], !high);
  }

  lemma RestNext(pages: seq<PageInfo>, free: seq<nat>, k: nat)
    requires k < |free| && Rest(pages, free, k)
    ensures Rest(pages, free, k + 1) && Distinct(free) && free[k] < |pages|
    ensures pages[free[k]].link == NextOf(free, k + 1)
  {
    assert LinkAt(pages, free, k);
  }

  /** One round of the loop, for either class. */
  lemma Append(pages: seq<PageInfo>, free: seq<nat>, k: nat, pp1: Link, tail1: Tail, pp2: Link, tail2: Tail)
    requires k < |free| && Split(pages, free, k, pp1, tail1, pp2, tail2)
    ensures tail1.LinkOf? ==> tail1.page < |pages|
    ensures tail2.LinkOf? ==> tail2.page < |pages|
    ensures var p := free[k];
            var pages' := SetTail(pages, if IsHigh(p) then tail2 else tail1, Ptr(p));
            && (if IsHigh(p)
                then Split(pages', free, k + 1, pp1, tail1, if tail2.HeadVariable? then Ptr(p) else pp2, LinkOf(p))
                else Split(pages', free, k + 1, if tail1.HeadVariable? then Ptr(p) else pp1, LinkOf(p), pp2, tail2))
            && p < |pages| && pages'[p].link == NextOf(free, k + 1)
            && SameRefs(pages, pages')
  {
    if IsHigh(free[k]) {
      AppendClass(pages, free, k, true, (pp2, tail2), (pp1, tail1));
    } else {
      AppendClass(pages, free, k, false, (pp1, tail1), (pp2, tail2));
    }
    TailsInRange(pages, free, k, pp1, tail1, pp2, tail2);
  }

  /** Ending the high list and hanging it on the low list gives the partitioned free list. */
  lemma Join(pages: seq<PageInfo>, free: seq<nat>, pp1: Link, tail1: Tail, pp2: Link, tail2: Tail)
    requires Split(pages, free, |free|, pp1, tail1, pp2, tail2)
    ensures tail1.LinkOf? ==> tail1.page < |pages|
    ensures tail2.LinkOf? ==> tail2.page < |pages|
    ensures var pages1 := SetTail(pages, tail2, Null);
            var second := if tail2.HeadVariable? then Null else pp2;
            var pages2 := SetTail(pages1, tail1, second);
            && FreeList(pages2, if tail1.HeadVariable? then second else pp1, Select(free, false) + Select(free, true))
            && SameRefs(pages, pages2)
  {
    hide Building, Select, Rest, FreeList, SameRefs, Chain, SetTail;
    TailsInRange(pages, free, |free|, pp1, tail1, pp2, tail2);
    assert free[..|free|] == free;
    var low, high := Select(free, false), Select(free, true);
    TailIsMember(pages, pp1, tail1, low);
    TailIsMember(pages, pp2, tail2, high);
    SelectMembers(free, false);
    SelectMembers(free, true);
    var second := if tail2.HeadVariable? then Null else pp2;
    var pages1 := SetTail(pages, tail2, Null);
    var pages2 := SetTail(pages1, tail1, second);
    JoinLinks(pages, pages2, low, high, pp1, tail1, pp2, tail2);
    assert tail2.LinkOf? ==> tail2.page in free[..|free|];
    assert tail1.LinkOf? ==> tail1.page in free[..|free|];
    RestAfter(pages, free, |free|, tail2, Null);
    RestAfter(pages1, free, |free|, tail1, second);
    Whole(pages2, if tail1.HeadVariable? then second else pp1, low + high, free);
    SetTailRefs(pages, tail2, Null);
    SetTailRefs(pages1, tail1, second);
    SameRefsTransitive(pages, pages1, pages2);
  }

  lemma SetTailRefs(pages: seq<PageInfo>, tail: Tail, value: Link)
    requires tail.LinkOf? ==> tail.page < |pages|
    ensures SameRefs(pages, SetTail(pages, tail, value))
  {
  }

  lemma Whole(pages: seq<PageInfo>, head: Link, s: seq<nat>, free: seq<nat>)
    requires Chain(pages, head, s) && Rest(pages, free, |free|)
    requires forall x :: x in s <==> x in free
    ensures FreeList(pages, head, s)
  {
  }

  lemma JoinLinks(pages: seq<PageInfo>, pages2: seq<PageInfo>, low: seq<nat>, high: seq<nat>,
                  pp1: Link, tail1: Tail, pp2: Link, tail2: Tail)
    requires Building(pages, pp1, tail1, low) && Building(pages, pp2, tail2, high)
    requires forall x :: x in low ==> x !in high
    requires (tail1.LinkOf? ==> tail1.page < |pages|) && (tail2.LinkOf? ==> tail2.page < |pages|)
    requires pages2 == SetTail(SetTail(pages, tail2, Null), tail1, if tail2.HeadVariable? then Null else pp2)
    ensures Chain(pages2, if tail1.LinkOf? then pp1 else if tail2.HeadVariable? then Null else pp2, low + high)
  {
    var s := low + high;
    assert forall x :: 0 <= x < |low| ==> low[x] in low;
    assert forall x :: 0 <= x < |high| ==> high[x] in high;
    forall k: nat | k < |s| ensures LinkAt(pages2, s, k) {
      if k < |low| {
        LowLink(pages, pages2, low, high, pp1, tail1, pp2, tail2, k);
      } else {
        HighLink(pages, pages2, low, high, pp1, tail1, pp2, tail2, k);
      }
    }
  }

  lemma LowLink(pages: seq<PageInfo>, pages2: seq<PageInfo>, low: seq<nat>, high: seq<nat>,
                pp1: Link, tail1: Tail, pp2: Link, tail2: Tail, k: nat)
    requires Building(pages, pp1, tail1, low) && Building(pages, pp2, tail2, high) && k < |low|
    requires forall x :: x in low ==> x !in high
    requires (tail1.LinkOf? ==> tail1.page < |pages|) && (tail2.LinkOf? ==> tail2.page < |pages|)
    requires pages2 == SetTail(SetTail(pages, tail2, Null), tail1, if tail2.HeadVariable? then Null else pp2)
    ensures low[k] < |pages2| && LinkAt(pages2, low + high, k)
  {
    assert low[k] in low && (high != [] ==> high[|high| - 1] in high);
    if k < |low| - 1 {
      assert LinkAt(pages, low, k);
    }
  }

  lemma HighLink(pages: seq<PageInfo>, pages2: seq<PageInfo>, low: seq<nat>, high: seq<nat>,
                 pp1: Link, tail1: Tail, pp2: Link, tail2: Tail, k: nat)
    requires Building(pages, pp1, tail1, low) && Building(pages, pp2, tail2, high) && |low| <= k < |low + high|
    requires forall x :: x in low ==> x !in high
    requires (tail1.LinkOf? ==> tail1.page < |pages|) && (tail2.LinkOf? ==> tail2.page < |pages|)
    requires pages2 == SetTail(SetTail(pages, tail2, Null), tail1, if tail2.HeadVariable? then Null else pp2)
    ensures high[k - |low|] < |pages2| && LinkAt(pages2, low + high, k)
  {
    assert high[k - |low|] in high && (low != [] ==> low[|low| - 1] in low);
    if k < |low + high| - 1 {
      assert LinkAt(pages, high, k - |low|);
    }
  }
}
