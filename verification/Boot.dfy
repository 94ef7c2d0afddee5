/** page_init (kern/pmap.c:286-351): which pages start free, and that the first state is good. */
module Boot {
  import opened Mmu
  import opened Pmap
  import opened Ownership
  import opened PrimitiveSteps
  import opened MemoryRuns

  const IO_HOLE: nat := 160     // IOPHYSMEM / PGSIZE
  const EXTENDED: nat := 256    // EXTPHYSMEM / PGSIZE
  const MPENTRY: nat := 7       // MPENTRY_PADDR / PGSIZE

  /** page_init's branches, in its order; `bootEnd` is the page number of boot_alloc(0). */
  predicate Reserved(i: nat, basemem: nat, bootEnd: nat) {
    if i == 0 then true
    else if i < basemem then false
    else if IO_HOLE <= i < EXTENDED then true
    else EXTENDED <= i < bootEnd
  }

  /** pages[0..n) and page_free_list after n rounds of page_init. */
  function InitPages(n: nat, basemem: nat, bootEnd: nat): (r: (seq<PageInfo>, Link))
    ensures |r.0| == n
  {
    if n == 0 then ([], Null)
    else
      var (pages, head) := InitPages(n - 1, basemem, bootEnd);
      if Reserved(n - 1, basemem, bootEnd) then (pages + [PageInfo(Null, 1)], head)
      else (pages + [PageInfo(head, 0)], Ptr(n - 1))
  }

  /** The unreserved pages below n, highest first. */
  ghost function FreeBelow(n: nat, basemem: nat, bootEnd: nat): seq<nat> {
    if n == 0 then []
    else if Reserved(n - 1, basemem, bootEnd) then FreeBelow(n - 1, basemem, bootEnd)
    else [n - 1] + FreeBelow(n - 1, basemem, bootEnd)
  }

  lemma {:induction false} FreeBelowHolds(n: nat, basemem: nat, bootEnd: nat)
    ensures forall p :: p in FreeBelow(n, basemem, bootEnd) <==> 0 <= p < n && !Reserved(p, basemem, bootEnd)
  {
    if n > 0 {
      FreeBelowHolds(n - 1, basemem, bootEnd);
    }
  }

  /** page_init builds a proper free list of exactly the unreserved pages; reserved pages get one reference. */
  lemma {:induction false} InitFreeList(n: nat, basemem: nat, bootEnd: nat)
    ensures var (pages, head) := InitPages(n, basemem, bootEnd);
            && FreeList(pages, head, FreeBelow(n, basemem, bootEnd))
            && (forall p: nat :: p < n ==>
                  pages[p].ref == (if Reserved(p, basemem, bootEnd) then 1 else 0) && LinkIn(pages[p].link, n))
            && LinkIn(head, n)
  {
    hide Chain, Reserved;
    if n == 0 {
      EmptyList();
    } else {
      InitFreeList(n - 1, basemem, bootEnd);
      FreeBelowHolds(n - 1, basemem, bootEnd);
      var (pages, head) := InitPages(n - 1, basemem, bootEnd);
      var free := FreeBelow(n - 1, basemem, bootEnd);
      var x := PageInfo(Null, if Reserved(n - 1, basemem, bootEnd) then 1 else 0);
      ExtendList(pages, head, free, x);
      if !Reserved(n - 1, basemem, bootEnd) {
        PushFree(pages + [x], head, free, n - 1);
        assert (pages + [x])[n - 1 := PageInfo(head, 0)] == pages + [PageInfo(head, 0)];
      }
    }
  }

  lemma EmptyList()
    ensures FreeList([], Null, [])
  {
  }

  lemma ExtendList(pages: seq<PageInfo>, head: Link, free: seq<nat>, x: PageInfo)
    requires FreeList(pages, head, free) && x.link == Null
    ensures FreeList(pages + [x], head, free)
  {
    forall k: nat | k < |free| ensures LinkAt(pages + [x], free, k) {
      assert LinkAt(pages, free, k);
    }
  }

  /**
   Which pages page_init leaves free, and which get a reference: besides page 0, everything from base memory
   on that lies in the I/O hole or below the end of the kernel's own allocations.
   */
  lemma InitExact(n: nat, basemem: nat, bootEnd: nat, p: nat)
    requires p < n
    ensures p in FreeBelow(n, basemem, bootEnd) <==>
            0 < p && (p < basemem || p < 160 || (p >= 256 && p >= bootEnd))
    ensures InitPages(n, basemem, bootEnd).0[p].ref == if p in FreeBelow(n, basemem, bootEnd) then 0 else 1
  {
    FreeBelowHolds(n, basemem, bootEnd);
    InitFreeList(n, basemem, bootEnd);
  }

  /**
   With base memory below 1 MB, the kernel image and everything boot_alloc handed out stay off the list, and
   all of memory beyond is on it.
   */
  lemma KernelIsReserved(n: nat, basemem: nat, bootEnd: nat, p: nat)
    requires basemem <= EXTENDED <= p < n
    ensures p in FreeBelow(n, basemem, bootEnd) <==> p >= bootEnd
  {
    InitExact(n, basemem, bootEnd, p);
  }

  /** The I/O hole is kept off the free list if and only if base memory does not reach into it. */
  lemma IoHoleReserved(n: nat, basemem: nat, bootEnd: nat)
    ensures (forall p :: IO_HOLE <= p < EXTENDED && p < n ==> p !in FreeBelow(n, basemem, bootEnd)) <==>
            basemem <= IO_HOLE || n <= IO_HOLE
  {
    FreeBelowHolds(n, basemem, bootEnd);
    if basemem > IO_HOLE && n > IO_HOLE {
      assert IO_HOLE in FreeBelow(n, basemem, bootEnd);
    }
  }

  /** Page 0 is never free; the page for the non-boot CPUs' entry code always is, which its comment forbids. */
  lemma EntryPageIsFree(n: nat, basemem: nat, bootEnd: nat)
    requires n > MPENTRY
    ensures 0 !in FreeBelow(n, basemem, bootEnd) && MPENTRY in FreeBelow(n, basemem, bootEnd)
  {
    FreeBelowHolds(n, basemem, bootEnd);
  }

  // -------------------------------------------------------- the first state

  /** mem_init before boot_map_region: pages[] from page_init, kern_pgdir zero but for its self-map. */
  ghost predicate FirstState(s: System, basemem: nat, bootEnd: nat) {
    var n := |s.mem.frames|;
    && s.mem.ok && FramesShape(s.mem.frames)
    && (s.mem.pages, s.mem.head) == InitPages(n, basemem, bootEnd)
    && s.dirs == {} && s.pins == (set p: nat | p < n && Reserved(p, basemem, bootEnd))
    && s.kern in s.pins
    && s.mem.frames[s.kern] == ZeroFrame()[UVPTX := Word(s.kern, PTE_U | PTE_P)]
  }

  lemma FirstStateIsGood(s: System, basemem: nat, bootEnd: nat)
    requires FirstState(s, basemem, bootEnd)
    ensures Good(s)
  {
    var n := |s.mem.frames|;
    var l := Layout(s.kern, {}, s.pins, map[]);
    var w := World(l, FreeBelow(n, basemem, bootEnd), multiset{});
    InitFreeList(n, basemem, bootEnd);
    assert !Present(ZERO_WORD);
    assert forall i :: 0 <= i < NPTENTRIES && i != UVPTX ==> !Present(s.mem.frames[s.kern][i]);
    assert Structure(s.mem.frames, l);
    forall p: nat | p < n ensures s.mem.pages[p].ref == CountOf(s.mem.frames, w, p) {
      assert Refs(s.mem.frames, l, p) == {};
    }
    assert Describes(s, w);
  }

  /** From the state page_init leaves, every legal run keeps the invariant. */
  lemma EveryRunFromBoot(s: System, basemem: nat, bootEnd: nat, ops: seq<Op>)
    requires FirstState(s, basemem, bootEnd) && LegalRun(s, ops)
    ensures Shape(s.mem) && CanRun(s, ops) && Good(Run(s, ops))
  {
    FirstStateIsGood(s, basemem, bootEnd);
    RunKeepsGood(s, ops);
  }
}
