/**
 What 32-bit paging hardware does with the tables (Intel SDM volume 3A, sections 4.3 and 4.6):
 loads through the UVPT window, user stores, and user_mem_check against the two-level rights.
 */
module Hardware {
  import opened Mmu
  import opened Pmap
  import opened Ownership
  import opened PrimitiveSteps
  import opened PageOps

  /** The physical word slot (frame, index) a 4-byte aligned address reaches, if it is mapped to RAM. */
  function WalkAddress(f: seq<Frame>, d: nat, va: nat): (r: Option<Slot>)
    requires FramesShape(f) && d < |f|
  {
    match Translate(f, d, PDX(va), PTX(va))
    case None => None
    case Some(e) => if e.pfn < |f| then Some((e.pfn, PGOFF(va) / 4)) else None
  }

  lemma UvptAddress(n: nat)
    requires n < NPTENTRIES * NPTENTRIES
    ensures var va := UVPT + 4 * n; PDX(va) == UVPTX && PTX(va) == n / NPTENTRIES && PGOFF(va) / 4 == n % NPTENTRIES
  {
    var q, r := n / NPTENTRIES, n % NPTENTRIES;
    AddressRoundTrip(0, UVPTX, q, 4 * r);
    assert UVPT + 4 * n == PGADDR(UVPTX, q, 4 * r);
  }

  /** uvpt[n] is the page table entry of virtual page n, whenever its page table is present. */
  lemma UvptReadsPte(m: Phys, w: World, d: nat, n: nat)
    requires Inv(m, w) && Root(w.lay, d) && n < NPTENTRIES * NPTENTRIES
    requires Present(m.frames[d][n / NPTENTRIES])
    ensures WalkAddress(m.frames, d, UVPT + 4 * n) == Some((m.frames[d][n / NPTENTRIES].pfn, n % NPTENTRIES))
  {
    hide PDX, PTX, PGOFF, FreeList, Counts;
    UvptAddress(n);
    SelfMap(m, w, d);
    TableIsTableOrRoot(m.frames, w.lay, d, n / NPTENTRIES);
  }

  /** uvpd[i], at UVPT + (UVPT >> 12) * 4 + 4 * i, is entry i of the directory in force. */
  lemma UvpdReadsPde(m: Phys, w: World, d: nat, i: nat)
    requires Inv(m, w) && Root(w.lay, d) && i < NPTENTRIES
    ensures WalkAddress(m.frames, d, UVPT + UVPT / PGSIZE * 4 + 4 * i) == Some((d, i))
  {
    hide PDX, PTX, PGOFF, FreeList, Counts;
    var n := UVPTX * NPTENTRIES + i;
    assert UVPT + UVPT / PGSIZE * 4 + 4 * i == UVPT + 4 * n && n / NPTENTRIES == UVPTX && n % NPTENTRIES == i;
    UvptAddress(n);
    SelfMap(m, w, d);
  }

  /**
   The address inc/memlayout.h gives for the directory, UVPT + (UVPT >> PGSHIFT), is that of a page table
   entry: entry 256 of the table in directory slot 239, if that table is present.
   */
  lemma UvpdCommentReads(m: Phys, w: World, d: nat)
    requires Inv(m, w) && Root(w.lay, d)
    ensures WalkAddress(m.frames, d, UVPT + UVPT / PGSIZE) ==
            if Present(m.frames[d][239]) then Some((m.frames[d][239].pfn, 256)) else None
  {
    hide Structure, FreeList, Counts, PDX, PTX, PGOFF;
    RootInRange(m, w, d);
    assert UVPT + UVPT / PGSIZE == UVPT + 4 * (239 * NPTENTRIES + 256);
    UvptAddress(239 * NPTENTRIES + 256);
    if Present(m.frames[d][239]) {
      UvptReadsPte(m, w, d, 239 * NPTENTRIES + 256);
    } else {
      SelfMap(m, w, d);
    }
  }

  lemma SelfMap(m: Phys, w: World, d: nat)
    requires Inv(m, w) && Root(w.lay, d)
    ensures Present(m.frames[d][UVPTX]) && m.frames[d][UVPTX].pfn == d && !UserWritable(m.frames[d][UVPTX])
  {
    assert Present(Word(d, PTE_P | PTE_U)) && !UserWritable(Word(d, PTE_P | PTE_U));
    assert Word(d, PTE_U | PTE_P) == Word(d, PTE_P | PTE_U);
  }

  // ------------------------------------------------------------- user stores

  /** Section 4.6: a user-mode write needs P, U and W in both levels. */
  predicate UserMayWrite(f: seq<Frame>, d: nat, i: nat, j: nat)
    requires FramesShape(f) && d < |f| && i < NPTENTRIES && j < NPTENTRIES
  {
    UserWritable(f[d][i]) && f[d][i].pfn < |f| && UserWritable(f[f[d][i].pfn][j])
  }

  /** A user-mode store of any word through any address the hardware lets through. */
  function UserStore(m: Phys, d: nat, i: nat, j: nat, k: nat, e: Word): (r: Phys)
    requires Shape(m) && d < |m.frames| && i < NPTENTRIES && j < NPTENTRIES && k < NPTENTRIES
    ensures Shape(r) && |r.pages| == |m.pages|
  {
    if UserMayWrite(m.frames, d, i, j) && m.frames[m.frames[d][i].pfn][j].pfn < |m.frames|
    then Write(m, m.frames[m.frames[d][i].pfn][j].pfn, k, e)
    else m
  }

  lemma UserWritableIsPresent(e: Word)
    requires UserWritable(e)
    ensures Present(e)
  {
  }

  /** User code can write through an address only below UTOP, and only into a data page mapped there. */
  lemma UserWritesDataOnly(m: Phys, w: World, d: nat, i: nat, j: nat)
    requires Inv(m, w) && Root(w.lay, d) && i < NPTENTRIES && j < NPTENTRIES && UserMayWrite(m.frames, d, i, j)
    ensures i < UTOPX && DataPage(|m.frames|, w.lay, m.frames[m.frames[d][i].pfn][j].pfn)
    ensures m.frames[m.frames[d][i].pfn][j].pfn !in w.free
  {
    UserWritableIsPresent(m.frames[d][i]);
    UserWritableIsPresent(m.frames[m.frames[d][i].pfn][j]);
    SelfMap(m, w, d);
    var t := m.frames[d][i].pfn;
    TableIsTableOrRoot(m.frames, w.lay, d, i);
    if i >= UTOPX {
      assert m.frames[w.lay.kern][i] == m.frames[d][i];
      assert CountedPde(w.lay, w.lay.kern, i) && Root(w.lay, w.lay.kern);
    } else {
      assert CountedPde(w.lay, d, i);
      MappedIsNotFree(m, w, t, j);
    }
  }

  /** Isolation: no user store can disturb the free list, a count, a page table or a directory. */
  lemma UserStoreIsSafe(m: Phys, w: World, d: nat, i: nat, j: nat, k: nat, e: Word)
    requires Inv(m, w) && Root(w.lay, d) && i < NPTENTRIES && j < NPTENTRIES && k < NPTENTRIES
    ensures Inv(UserStore(m, d, i, j, k, e), w)
    ensures forall d': nat, i': nat, j': nat | Root(w.lay, d') && i' < NPTENTRIES && j' < NPTENTRIES ::
              Translate(UserStore(m, d, i, j, k, e).frames, d', i', j') == Translate(m.frames, d', i', j')
  {
    var m' := UserStore(m, d, i, j, k, e);
    if UserMayWrite(m.frames, d, i, j) {
      UserWritesDataOnly(m, w, d, i, j);
      var p := m.frames[m.frames[d][i].pfn][j].pfn;
      UnusedFrame(m.frames, w.lay, p, m.frames[p][k := e]);
      forall d': nat, i': nat, j': nat | Root(w.lay, d') && i' < NPTENTRIES && j' < NPTENTRIES
        ensures Translate(m'.frames, d', i', j') == Translate(m.frames, d', i', j')
      {
        if Present(m.frames[d'][i']) {
          TableIsTableOrRoot(m.frames, w.lay, d', i');
        }
      }
    }
  }

  // ---------------------------------------------------------- user_mem_check

  const E_FAULT: int := 6

  predicate HasBits(flags: bv12, mask: bv12) { flags & mask == mask }

  /** The test user_mem_check makes of the page holding address b. */
  predicate PageAllows(f: seq<Frame>, d: nat, b: nat, perm: bv12)
    requires FramesShape(f) && d < |f|
  {
    && b < ULIM
    && Present(f[d][PDX(b)]) && f[d][PDX(b)].pfn < |f|
    && HasBits(f[f[d][PDX(b)].pfn][PTX(b)].flags, perm | PTE_P)
  }

  lemma PageOfByte(b: nat, base: nat)
    requires base % PGSIZE == 0 && base <= b < base + PGSIZE && b < TWO32
    ensures PDX(b) == PDX(base) && PTX(b) == PTX(base) && (b < ULIM <==> base < ULIM)
  {
    PageOf(b, base);
    assert b / PTSIZE == b / PGSIZE / NPTENTRIES && base / PTSIZE == base / PGSIZE / NPTENTRIES;
  }

  lemma PageOfRange(f: seq<Frame>, d: nat, base: nat, perm: bv12)
    requires FramesShape(f) && d < |f| && base % PGSIZE == 0
    ensures forall b :: base <= b < base + PGSIZE && b < TWO32 ==> (PageAllows(f, d, b, perm) <==> PageAllows(f, d, base, perm))
  {
    forall b | base <= b < base + PGSIZE && b < TWO32
      ensures PageAllows(f, d, b, perm) <==> PageAllows(f, d, base, perm)
    {
      PageOfByte(b, base);
    }
  }

  lemma WalkIsPageTest(m: Phys, w: World, d: nat, b: nat, perm: bv12)
    requires Inv(m, w) && Root(w.lay, d)
    ensures var pt := PgdirWalk(m, d, PDX(b), false).1;
            PageAllows(m.frames, d, b, perm) <==>
            b < ULIM && pt.Ptr? && HasBits(m.frames[pt.page][PTX(b)].flags, perm | PTE_P)
  {
    if Present(m.frames[d][PDX(b)]) {
      TableIsTableOrRoot(m.frames, w.lay, d, PDX(b));
    }
  }

  /** va + len + PGSIZE - 1 fits in 32 bits, so that ROUNDUP does not wrap. */
  predicate NoWrap(va: nat, len: nat) { va + len + PGSIZE - 1 < TWO32 }

  /** The pages the loop visits, from RoundDown(va) up to this one. */
  function EndOf(va: nat, len: nat): nat { RoundUp((va + len) % TWO32) }

  /** A wrapping range of which the page of va, and no other, is looked at. */
  predicate PeeksOnce(va: nat, len: nat) {
    va + len >= TWO32 && RoundDown(va) < va + len - TWO32 && RoundDown(va) + PGSIZE < TWO32
  }

  lemma RangeFacts(va: nat, len: nat)
    requires va < TWO32 && len < TWO32
    ensures var begin, end := RoundDown(va), EndOf(va, len);
            && begin % PGSIZE == 0 && begin <= va < begin + PGSIZE && end % PGSIZE == 0 && end < TWO32
            && (NoWrap(va, len) && len > 0 ==> begin < end && va + len <= end < va + len + PGSIZE)
            && (NoWrap(va, len) && len == 0 ==> end == if va % PGSIZE == 0 then begin else begin + PGSIZE)
  {
    var s := (va + len) % TWO32;
    RoundDownIs(va);
    RoundUpIs(s);
    RoundDownIs(s + PGSIZE - 1);
    var begin, end := RoundDown(va), EndOf(va, len);
    assert va % PGSIZE == 0 <==> begin == va;
    hide RoundDown, RoundUp, EndOf;
    if NoWrap(va, len) && len == 0 {
      assert s == va;
      Boundaries(begin, end);
      Boundaries(begin + PGSIZE, end);
    }
  }

  /** In a wrapping range the loop visits one page or none. */
  lemma WrapFacts(va: nat, len: nat)
    requires va < TWO32 && len < TWO32 && !NoWrap(va, len)
    ensures PeeksOnce(va, len) ==> EndOf(va, len) == RoundDown(va) + PGSIZE
    ensures !PeeksOnce(va, len) ==> EndOf(va, len) <= RoundDown(va)
  {
    var s := if va + len < TWO32 then va + len else va + len - TWO32;
    assert (va + len) % TWO32 == s;
    RoundDownIs(va);
    RoundUpIs(s);
    RoundDownIs(s + PGSIZE - 1);
    var begin, end := RoundDown(va), EndOf(va, len);
    assert end == RoundUp(s);
    hide RoundDown, RoundUp, EndOf;
    Boundaries(begin, end);
    Boundaries(begin + PGSIZE, end);
    Boundaries(begin + PGSIZE, TWO32);
  }

  /** Every page the loop visits passes. */
  ghost predicate Accepts(f: seq<Frame>, d: nat, va: nat, len: nat, perm: bv12)
    requires FramesShape(f) && d < |f|
  {
    forall b :: RoundDown(va) <= b < EndOf(va, len) ==> PageAllows(f, d, b, perm)
  }

  /** What the caller asked for: every byte of the range passes, addresses taken modulo 2^32. */
  ghost predicate AllBytes(f: seq<Frame>, d: nat, va: nat, len: nat, perm: bv12)
    requires FramesShape(f) && d < |f|
  {
    forall b :: va <= b < va + len ==> PageAllows(f, d, b % TWO32, perm)
  }

  lemma AcceptsOnePage(f: seq<Frame>, d: nat, va: nat, len: nat, perm: bv12)
    requires FramesShape(f) && d < |f| && va < TWO32 && EndOf(va, len) == RoundDown(va) + PGSIZE < TWO32
    ensures Accepts(f, d, va, len, perm) <==> PageAllows(f, d, va, perm)
  {
    hide PageAllows;
    PageOfRange(f, d, RoundDown(va), perm);
  }

  lemma AcceptsPlain(f: seq<Frame>, d: nat, va: nat, len: nat, perm: bv12)
    requires FramesShape(f) && d < |f| && va < TWO32 && len < TWO32 && NoWrap(va, len) && len > 0
    ensures Accepts(f, d, va, len, perm) <==> AllBytes(f, d, va, len, perm)
  {
    hide PageAllows, RoundDown, RoundUp, EndOf;
    RangeFacts(va, len);
    if AllBytes(f, d, va, len, perm) {
      forall b | RoundDown(va) <= b < EndOf(va, len) ensures PageAllows(f, d, b, perm) {
        var c := if b < va then va else if b < va + len then b else va + len - 1;
        assert c % TWO32 == c && PageAllows(f, d, c % TWO32, perm);
        if b < va {
          PageOf(b, RoundDown(va));
          PageOf(c, RoundDown(va));
        } else if b >= va + len {
          LastPage(va, len);
          PageOf(b, EndOf(va, len) - PGSIZE);
          PageOf(c, EndOf(va, len) - PGSIZE);
        }
        SamePageAllows(f, d, b, c, perm);
      }
    }
  }

  lemma LastPage(va: nat, len: nat)
    requires va < TWO32 && 0 < len < TWO32 && NoWrap(va, len)
    ensures PGSIZE <= EndOf(va, len) && (EndOf(va, len) - PGSIZE) % PGSIZE == 0
  {
    hide EndOf;
    RangeFacts(va, len);
    Boundaries(0, EndOf(va, len));
  }

  lemma SamePageAllows(f: seq<Frame>, d: nat, b: nat, c: nat, perm: bv12)
    requires FramesShape(f) && d < |f| && b < TWO32 && c < TWO32 && b / PGSIZE == c / PGSIZE
    ensures PageAllows(f, d, b, perm) <==> PageAllows(f, d, c, perm)
  {
    hide PageAllows;
    PageOfRange(f, d, b / PGSIZE * PGSIZE, perm);
  }

  /** No non-empty range that wraps, or ends in the last page, has all its bytes below ULIM. */
  lemma WrapReachesKernel(f: seq<Frame>, d: nat, va: nat, len: nat, perm: bv12)
    requires FramesShape(f) && d < |f| && va < TWO32 && 0 < len < TWO32 && !NoWrap(va, len)
    ensures !AllBytes(f, d, va, len, perm)
  {
    var b := if va + len > TWO32 then TWO32 - 1 else va + len - 1;
    assert va <= b < va + len && b % TWO32 == b >= ULIM;
    assert !PageAllows(f, d, b % TWO32, perm);
  }

  /**
   The verdict is the one the caller asked for if and only if the range does not wrap, or wraps and the one
   page that is looked at fails; an empty range off a page boundary is refused when its page fails.
   */
  lemma VerdictExact(f: seq<Frame>, d: nat, va: nat, len: nat, perm: bv12)
    requires FramesShape(f) && d < |f| && va < TWO32 && len < TWO32
    ensures (Accepts(f, d, va, len, perm) <==> AllBytes(f, d, va, len, perm)) <==>
            if len == 0 then va % PGSIZE == 0 || !NoWrap(va, len) || PageAllows(f, d, va, perm)
            else NoWrap(va, len) || (PeeksOnce(va, len) && !PageAllows(f, d, va, perm))
  {
    hide PageAllows, EndOf;
    RangeFacts(va, len);
    if NoWrap(va, len) {
      if len > 0 {
        AcceptsPlain(f, d, va, len, perm);
      } else if va % PGSIZE != 0 {
        AcceptsOnePage(f, d, va, len, perm);
      }
    } else {
      WrapFacts(va, len);
      if PeeksOnce(va, len) {
        AcceptsOnePage(f, d, va, len, perm);
      }
      if len > 0 {
        WrapReachesKernel(f, d, va, len, perm);
      }
    }
  }

  /** A range over the whole address space is accepted on the strength of the page of 0x1800 alone. */
  lemma WholeSpaceAccepted(f: seq<Frame>, d: nat, perm: bv12)
    requires FramesShape(f) && d < |f| && PageAllows(f, d, 0x1800, perm)
    ensures Accepts(f, d, 0x1800, 0xffff_ffff, perm) && !AllBytes(f, d, 0x1800, 0xffff_ffff, perm)
  {
    hide PageAllows;
    WrapFacts(0x1800, 0xffff_ffff);
    AcceptsOnePage(f, d, 0x1800, 0xffff_ffff, perm);
    WrapReachesKernel(f, d, 0x1800, 0xffff_ffff, perm);
  }

  /**
   user_mem_check.  It accepts exactly when every page it visits passes, and otherwise records an address
   that fails.  On a non-empty range without wrap-around that is the test of every byte, and the address is
   the lowest that fails; a wrapping range is decided by the page of va or by nothing.
   */
  method UserMemCheck(m: Phys, ghost w: World, d: nat, va: nat, len: nat, perm: bv12) returns (r: int, faultAddr: nat)
    requires Inv(m, w) && Root(w.lay, d) && va < TWO32 && len < TWO32
    ensures r == 0 || r == -E_FAULT
    ensures r == 0 <==> Accepts(m.frames, d, va, len, perm)
    ensures NoWrap(va, len) && len > 0 ==>
              (r == 0 <==> forall b :: va <= b < va + len ==> PageAllows(m.frames, d, b, perm))
    ensures NoWrap(va, len) && len > 0 && r != 0 ==> faultAddr < va + len
    ensures NoWrap(va, len) && len == 0 ==> (r == 0 <==> va % PGSIZE == 0 || PageAllows(m.frames, d, va, perm))
    ensures !NoWrap(va, len) ==> (r == 0 <==> !PeeksOnce(va, len) || PageAllows(m.frames, d, va, perm))
    ensures r != 0 ==>
              && va <= faultAddr && !PageAllows(m.frames, d, faultAddr, perm)
              && forall b :: va <= b < faultAddr ==> PageAllows(m.frames, d, b, perm)
    ensures r != 0 && (len == 0 || !NoWrap(va, len)) ==> faultAddr == va
  {
    hide Structure, FreeList, Counts, PgdirWalk, PageAllows, RoundDown, RoundUp, PDX, PTX, HasBits, EndOf, PeeksOnce, NoWrap, Accepts;
    assert d < |m.frames| by { RootInRange(m, w, d); }
    Decided(m.frames, d, va, len, perm);
    RangeFacts(va, len);
    assert OnBoundary(RoundDown(va)) && OnBoundary(EndOf(va, len)) && RoundDown(va) < TWO32;
    AcceptsIs(m.frames, d, va, len, perm);
    hide OnBoundary;
    var begin, end := RoundDown(va), EndOf(va, len);
    r, faultAddr := 0, 0;
    while begin < end
      invariant OnBoundary(begin) && OnBoundary(end) && end < TWO32
      invariant RoundDown(va) <= begin && (begin <= end || begin == RoundDown(va))
      invariant forall b :: RoundDown(va) <= b < begin ==> PageAllows(m.frames, d, b, perm)
      decreases end - begin
    {
      WalkIsPageTest(m, w, d, begin, perm);
      NextPage(m.frames, d, begin, end, perm);
      var pt := PgdirWalk(m, d, PDX(begin), false).1;
      if begin >= ULIM || pt.Null? || !HasBits(m.frames[pt.page][PTX(begin)].flags, perm | PTE_P) {
        faultAddr := if begin >= va then begin else va;
        FailsAt(m.frames, d, va, len, perm, begin);
        return -E_FAULT, faultAddr;
      }
      begin := begin + PGSIZE;
    }
  }

  lemma AcceptsIs(f: seq<Frame>, d: nat, va: nat, len: nat, perm: bv12)
    requires FramesShape(f) && d < |f|
    ensures (forall b :: RoundDown(va) <= b < EndOf(va, len) ==> PageAllows(f, d, b, perm)) ==> Accepts(f, d, va, len, perm)
  {
    hide PageAllows, RoundDown, EndOf;
  }

  predicate OnBoundary(a: nat) { a % PGSIZE == 0 }

  lemma NextPage(f: seq<Frame>, d: nat, begin: nat, end: nat, perm: bv12)
    requires FramesShape(f) && d < |f| && OnBoundary(begin) && OnBoundary(end) && begin < end < TWO32
    ensures OnBoundary(begin + PGSIZE) && begin + PGSIZE <= end
    ensures forall b :: begin <= b < begin + PGSIZE ==> (PageAllows(f, d, b, perm) <==> PageAllows(f, d, begin, perm))
  {
    hide PageAllows;
    Boundaries(begin + PGSIZE, end);
    Boundaries(end, begin);
    PageOfRange(f, d, begin, perm);
  }

  /** The loop stops at the page `begin`, the first that fails. */
  lemma FailsAt(f: seq<Frame>, d: nat, va: nat, len: nat, perm: bv12, begin: nat)
    requires FramesShape(f) && d < |f| && va < TWO32 && len < TWO32 && OnBoundary(begin)
    requires RoundDown(va) <= begin < EndOf(va, len) && !PageAllows(f, d, begin, perm)
    requires forall b :: RoundDown(va) <= b < begin ==> PageAllows(f, d, b, perm)
    ensures var addr := if begin >= va then begin else va;
            && !Accepts(f, d, va, len, perm) && !PageAllows(f, d, addr, perm)
            && (forall b :: va <= b < addr ==> PageAllows(f, d, b, perm))
            && (NoWrap(va, len) && len > 0 ==> addr < va + len)
            && (len == 0 || !NoWrap(va, len) ==> addr == va)
  {
    hide PageAllows, EndOf;
    RangeFacts(va, len);
    Decided(f, d, va, len, perm);
    if begin < va {
      PageOfRange(f, d, begin, perm);
    }
  }

  /** What Accepts comes to in the four kinds of range. */
  lemma Decided(f: seq<Frame>, d: nat, va: nat, len: nat, perm: bv12)
    requires FramesShape(f) && d < |f| && va < TWO32 && len < TWO32
    ensures NoWrap(va, len) && len > 0 ==>
              (Accepts(f, d, va, len, perm) <==> forall b :: va <= b < va + len ==> PageAllows(f, d, b, perm))
    ensures NoWrap(va, len) && len == 0 ==>
              (Accepts(f, d, va, len, perm) <==> va % PGSIZE == 0 || PageAllows(f, d, va, perm))
    ensures !NoWrap(va, len) ==> (Accepts(f, d, va, len, perm) <==> !PeeksOnce(va, len) || PageAllows(f, d, va, perm))
    ensures !NoWrap(va, len) || len == 0 ==> EndOf(va, len) <= RoundDown(va) + PGSIZE
  {
    hide PageAllows, EndOf, RoundDown;
    RangeFacts(va, len);
    if NoWrap(va, len) {
      if len > 0 {
        AcceptsPlain(f, d, va, len, perm);
        assert forall b :: va <= b < va + len ==> b % TWO32 == b;
      } else if va % PGSIZE != 0 {
        AcceptsOnePage(f, d, va, len, perm);
      }
    } else {
      WrapFacts(va, len);
      if PeeksOnce(va, len) {
        AcceptsOnePage(f, d, va, len, perm);
      }
    }
  }

  /** Section 4.6 for one byte: every requested right must be granted by the PDE and by the PTE. */
  predicate HardwareAllows(f: seq<Frame>, d: nat, b: nat, perm: bv12)
    requires FramesShape(f) && d < |f|
  {
    var pde := f[d][PDX(b)];
    Present(pde) && pde.pfn < |f| && HasBits(pde.flags, perm | PTE_P)
    && HasBits(f[pde.pfn][PTX(b)].flags, perm | PTE_P)
  }

  /**
   Below UTOP user_mem_check's test of the PTE alone is the two-level hardware test, because every
   directory entry pgdir_walk creates grants P, U and W.
   */
  lemma PteTestIsHardwareTest(m: Phys, w: World, d: nat, b: nat, perm: bv12)
    requires Inv(m, w) && Root(w.lay, d) && b < UTOP && perm | 7 == 7
    ensures PageAllows(m.frames, d, b, perm) <==> HardwareAllows(m.frames, d, b, perm)
  {
    assert PDX(b) < UTOPX && CountedPde(w.lay, d, PDX(b));
    var flags := m.frames[d][PDX(b)].flags;
    if flags & 7 == 7 {
      assert HasBits(flags, perm | PTE_P);
    }
  }

  /** From the end of the UVPT window on, nothing is allowed. */
  lemma NothingAboveUlim(f: seq<Frame>, d: nat, b: nat, perm: bv12)
    requires FramesShape(f) && d < |f| && b >= UVPT + PTSIZE
    ensures !PageAllows(f, d, b, perm)
  {
  }

  lemma KernelSlot(m: Phys, w: World, d: nat, i: nat)
    requires Inv(m, w) && Root(w.lay, d) && UTOPX <= i < NPTENTRIES && i != UVPTX
    ensures d < |m.frames| && (Present(m.frames[d][i]) ==> UserWritable(m.frames[d][i]) && m.frames[d][i].pfn < |m.frames|)
  {
    assert m.frames[d][i] == m.frames[w.lay.kern][i];
    assert CountedPde(w.lay, w.lay.kern, i) && Root(w.lay, w.lay.kern);
  }

  lemma GrantsAll(flags: bv12, perm: bv12)
    requires flags & 7 == 7 && perm | 7 == 7
    ensures HasBits(flags, perm | PTE_P)
  {
  }

  /** Between UTOP and UVPT the test of the PTE alone is the hardware test too. */
  lemma PteTestAboveUtop(m: Phys, w: World, d: nat, b: nat, perm: bv12)
    requires Inv(m, w) && Root(w.lay, d) && UTOP <= b < UVPT && perm | 7 == 7
    ensures d < |m.frames| && (PageAllows(m.frames, d, b, perm) <==> HardwareAllows(m.frames, d, b, perm))
  {
    assert UTOPX <= PDX(b) < UVPTX;
    KernelSlot(m, w, d, PDX(b));
    hide Structure, FreeList, Counts, PDX, PTX, HasBits;
    var flags := m.frames[d][PDX(b)].flags;
    if flags & 7 == 7 {
      GrantsAll(flags, perm);
    }
  }

  lemma ReadOnlyGrant(perm: bv12)
    requires perm | 7 == 7
    ensures HasBits(PTE_P | PTE_U, perm | PTE_P) <==> perm & PTE_W == 0
  {
  }

  /**
   In the UVPT window it is not: the directory entry there lacks W, which user_mem_check does not look at.  What
   the hardware allows is what the check allows, except for writing.
   */
  lemma UvptTest(m: Phys, w: World, d: nat, b: nat, perm: bv12)
    requires Inv(m, w) && Root(w.lay, d) && UVPT <= b < ULIM && perm | 7 == 7
    ensures d < |m.frames|
    ensures HardwareAllows(m.frames, d, b, perm) <==> PageAllows(m.frames, d, b, perm) && perm & PTE_W == 0
  {
    assert PDX(b) == UVPTX;
    RootInRange(m, w, d);
    assert m.frames[d][UVPTX] == Word(d, PTE_P | PTE_U) by {
      assert Word(d, PTE_U | PTE_P) == Word(d, PTE_P | PTE_U);
    }
    SelfMap(m, w, d);
    ReadOnlyGrant(perm);
    hide Structure, FreeList, Counts, PDX, PTX, HasBits;
  }
}
