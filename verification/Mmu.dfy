/** Paging constants and address arithmetic of inc/mmu.h and inc/memlayout.h. */
module Mmu {
  const PGSIZE: nat := 4096
  const NPTENTRIES: nat := 1024
  const PTSIZE: nat := 4194304
  const TWO32: nat := 0x1_0000_0000

  type Byte = b: nat | b < 256

  const UTOP: nat := 0xeec0_0000
  const ULIM: nat := 0xef80_0000
  const UVPT: nat := 0xef40_0000
  const USTACKTOP: nat := 0xeebf_e000

  /** Directory indices PDX(UTOP) and PDX(UVPT). */
  const UTOPX: nat := 955
  const UVPTX: nat := 957

  /** The low twelve bits of a page directory or page table entry. */
  const PTE_P: bv12 := 1
  const PTE_W: bv12 := 2
  const PTE_U: bv12 := 4

  function PGNUM(la: nat): nat { la / PGSIZE }

  function PDX(la: nat): (r: nat)
    ensures r < NPTENTRIES
  {
    la / PTSIZE % NPTENTRIES
  }

  function PTX(la: nat): (r: nat)
    ensures r < NPTENTRIES
  {
    la / PGSIZE % NPTENTRIES
  }

  function PGOFF(la: nat): (r: nat)
    ensures r < PGSIZE
  {
    la % PGSIZE
  }

  function PGADDR(d: nat, t: nat, o: nat): nat { d * PTSIZE + t * PGSIZE + o }

  function RoundDown(a: nat): nat { a - a % PGSIZE }

  /** ROUNDUP computes in 32 bits, so it wraps near the top of the address space. */
  function RoundUp(a: nat): nat { RoundDown((a + PGSIZE - 1) % TWO32) }

  /** How the constants of inc/memlayout.h hang together. */
  lemma LayoutConstants()
    ensures PTSIZE == PGSIZE * NPTENTRIES && TWO32 == PTSIZE * NPTENTRIES
    ensures PDX(UTOP) == UTOPX && UTOP % PTSIZE == 0 && PDX(UVPT) == UVPTX && UVPT % PTSIZE == 0
    ensures UVPT == UTOP + 2 * PTSIZE && ULIM == UVPT + PTSIZE && USTACKTOP == UTOP - 2 * PGSIZE
    ensures ULIM + 2 * PTSIZE == 0xf000_0000
  {
  }

  lemma RoundDownIs(a: nat)
    ensures RoundDown(a) % PGSIZE == 0 && RoundDown(a) <= a < RoundDown(a) + PGSIZE && RoundDown(a) / PGSIZE == a / PGSIZE
  {
    assert RoundDown(a) == PGSIZE * (a / PGSIZE);
  }

  /** Near the top of the address space ROUNDUP wraps to 0. */
  lemma RoundUpIs(a: nat)
    requires a < TWO32
    ensures RoundUp(a) == if a + PGSIZE - 1 < TWO32 then RoundDown(a + PGSIZE - 1) else 0
  {
    if a + PGSIZE - 1 >= TWO32 {
      assert (a + PGSIZE - 1) % TWO32 == a + PGSIZE - 1 - TWO32;
      assert RoundDown(a + PGSIZE - 1 - TWO32) == 0;
    }
  }

  /** Page boundaries less than a page apart are the same. */
  lemma Boundaries(x: nat, y: nat)
    requires x % PGSIZE == 0 && y % PGSIZE == 0
    ensures x < y + PGSIZE ==> x <= y
    ensures y < x + PGSIZE ==> y <= x
  {
    assert x == PGSIZE * (x / PGSIZE) && y == PGSIZE * (y / PGSIZE);
  }

  lemma PageOf(b: nat, base: nat)
    requires base % PGSIZE == 0 && base <= b < base + PGSIZE
    ensures b / PGSIZE == base / PGSIZE
  {
    assert base == PGSIZE * (base / PGSIZE);
  }

  /** The three index macros and PGADDR are mutually inverse on 32-bit addresses. */
  lemma AddressRoundTrip(la: nat, d: nat, t: nat, o: nat)
    requires la < TWO32 && d < NPTENTRIES && t < NPTENTRIES && o < PGSIZE
    ensures PGADDR(PDX(la), PTX(la), PGOFF(la)) == la
    ensures var a := PGADDR(d, t, o);
            a < TWO32 && PDX(a) == d && PTX(a) == t && PGOFF(a) == o && PGNUM(a) == d * NPTENTRIES + t
  {
    var a := PGADDR(d, t, o);
    assert a / PGSIZE == d * NPTENTRIES + t;
    assert la / PTSIZE == la / PGSIZE / NPTENTRIES;
  }
}
