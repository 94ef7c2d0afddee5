/**
 Physical pages, the intrusive free list and two-level page tables (kern/pmap.c),
 as transition functions on a value of type Phys.  The class KernelMemory.Memory
 performs the same steps in place and is proved equal to these functions.
 */
module Pmap {
  import opened Mmu

  /** A struct PageInfo pointer: an index into pages[], or NULL. */
  datatype Link = Null | Ptr(page: nat)

  /** struct PageInfo; pp_ref is a uint16_t. */
  datatype PageInfo = PageInfo(link: Link, ref: nat)

  const REF_LIMIT: nat := 65536

  /** A 32-bit word split at bit 12, as PTE_ADDR and the PTE_ flag masks split it. */
  datatype Word = Word(pfn: nat, flags: bv12)

  type Frame = seq<Word>

  /** A page directory or page table slot: frame number and entry index. */
  type Slot = (nat, nat)

  /**
   The allocator and physical memory.  `ok` is false once the kernel has panicked.
   */
  datatype Phys = Phys(ok: bool, head: Link, pages: seq<PageInfo>, frames: seq<Frame>)

  datatype Option<T> = None | Some(value: T)

  predicate LinkIn(l: Link, n: nat) { l.Ptr? ==> l.page < n }

  /** What the C types guarantee: one PageInfo per frame, 1024 words per frame. */
  predicate Shape(m: Phys) {
    && |m.pages| == |m.frames|
    && LinkIn(m.head, |m.pages|)
    && (forall p :: 0 <= p < |m.pages| ==> LinkIn(m.pages[p].link, |m.pages|) && m.pages[p].ref < REF_LIMIT)
    && FramesShape(m.frames)
  }

  predicate FramesShape(f: seq<Frame>) { forall p :: 0 <= p < |f| ==> |f[p]| == NPTENTRIES }

  predicate Present(w: Word) { w.flags & PTE_P != 0 }

  /** Present, user accessible and writable: P, U and W together. */
  predicate UserWritable(w: Word) { w.flags & 7 == 7 }

  const ZERO_WORD: Word := Word(0, 0)

  function ZeroFrame(): (f: Frame)
    ensures |f| == NPTENTRIES
    ensures forall j :: 0 <= j < NPTENTRIES ==> f[j] == ZERO_WORD
  {
    seq(NPTENTRIES, _ => ZERO_WORD)
  }

  function Panic(m: Phys): Phys { m.(ok := false) }

  function Write(m: Phys, q: nat, j: nat, w: Word): (r: Phys)
    requires Shape(m) && q < |m.frames| && j < NPTENTRIES
    ensures Shape(r) && r.ok == m.ok
  {
    m.(frames := Put(m.frames, q, j, w))
  }

  function Put(f: seq<Frame>, q: nat, j: nat, w: Word): (r: seq<Frame>)
    requires FramesShape(f) && q < |f| && j < NPTENTRIES
    ensures FramesShape(r) && |r| == |f|
  {
    f[q := f[q][j := w]]
  }

  function SetRef(m: Phys, p: nat, ref: nat): (r: Phys)
    requires Shape(m) && p < |m.pages| && ref < REF_LIMIT
    ensures Shape(r)
  {
    m.(pages := m.pages[p := m.pages[p].(ref := ref)])
  }

  /** pp->pp_ref++ on a uint16_t. */
  function IncRef(m: Phys, p: nat): (r: Phys)
    requires Shape(m) && p < |m.pages|
    ensures Shape(r)
  {
    SetRef(m, p, (m.pages[p].ref + 1) % REF_LIMIT)
  }

  // ---------------------------------------------------------------- allocator

  function PageAlloc(m: Phys, zero: bool): (r: (Phys, Link))
    requires Shape(m)
    ensures Shape(r.0) && LinkIn(r.1, |m.pages|) && |r.0.pages| == |m.pages|
  {
    match m.head
    case Null => (m, Null)
    case Ptr(p) =>
      (m.(head := m.pages[p].link,
          pages := m.pages[p := m.pages[p].(link := Null)],
          frames := if zero then m.frames[p := ZeroFrame()] else m.frames), Ptr(p))
  }

  function PageFree(m: Phys, p: nat): (r: Phys)
    requires Shape(m) && p < |m.pages|
    ensures Shape(r) && |r.pages| == |m.pages|
  {
    if m.pages[p].link != Null || m.pages[p].ref != 0 then Panic(m)
    else m.(head := Ptr(p), pages := m.pages[p := m.pages[p].(link := m.head)])
  }

  function PageDecref(m: Phys, p: nat): (r: Phys)
    requires Shape(m) && p < |m.pages|
    ensures Shape(r) && |r.pages| == |m.pages|
  {
    var m1 := SetRef(m, p, (m.pages[p].ref + REF_LIMIT - 1) % REF_LIMIT);
    if m1.pages[p].ref == 0 then PageFree(m1, p) else m1
  }

  // -------------------------------------------------------------- page tables

  /** Result of pgdir_walk: NULL, or the slot (table, PTX(va)).  A bad PDE panics in KADDR. */
  function PgdirWalk(m: Phys, d: nat, i: nat, create: bool): (r: (Phys, Link))
    requires Shape(m) && d < |m.pages| && i < NPTENTRIES
    ensures Shape(r.0) && LinkIn(r.1, |m.pages|) && |r.0.pages| == |m.pages|
    ensures r.1.Ptr? ==> r.0.ok == m.ok
  {
    var pde := m.frames[d][i];
    if Present(pde) then
      if pde.pfn >= |m.pages| then (Panic(m), Null) else (m, Ptr(pde.pfn))
    else if create then
      var (m1, page) := PageAlloc(m, true);
      if page.Null? then (m, Null)
      else (Write(IncRef(m1, page.page), d, i, Word(page.page, PTE_P | PTE_U | PTE_W)), page)
    else (m, Null)
  }

  datatype Lookup = NotMapped | Mapped(page: nat, table: nat) | BadEntry

  /** page_lookup; BadEntry is the panic in KADDR or pa2page. */
  function PageLookup(m: Phys, d: nat, i: nat, j: nat): (r: Lookup)
    requires Shape(m) && d < |m.pages| && i < NPTENTRIES && j < NPTENTRIES
    ensures r.Mapped? ==> r.page < |m.pages| && r.table < |m.pages|
  {
    var pde := m.frames[d][i];
    var pt := PgdirWalk(m, d, i, false).1;
    if Present(pde) && pde.pfn >= |m.pages| then BadEntry
    else if pt.Null? || !Present(m.frames[pt.page][j]) then NotMapped
    else if m.frames[pt.page][j].pfn >= |m.pages| then BadEntry
    else Mapped(m.frames[pt.page][j].pfn, pt.page)
  }

  function PageRemove(m: Phys, d: nat, i: nat, j: nat): (r: Phys)
    requires Shape(m) && d < |m.pages| && i < NPTENTRIES && j < NPTENTRIES
    ensures Shape(r) && |r.pages| == |m.pages|
  {
    match PageLookup(m, d, i, j)
    case BadEntry => Panic(m)
    case NotMapped => m
    case Mapped(page, table) => PageDecref(Write(m, table, j, ZERO_WORD), page)
  }

  const E_NO_MEM: int := 4

  function PageInsert(m: Phys, d: nat, pp: nat, i: nat, j: nat, perm: bv12): (r: (Phys, int))
    requires Shape(m) && d < |m.pages| && pp < |m.pages| && i < NPTENTRIES && j < NPTENTRIES
    ensures Shape(r.0) && |r.0.pages| == |m.pages|
  {
    var (m1, pt) := PgdirWalk(m, d, i, true);
    if pt.Null? then (m1, -E_NO_MEM) else (FillEntry(m1, d, pp, i, j, pt.page, perm), 0)
  }

  /** page_insert once the page table `t` of the directory slot is known. */
  function FillEntry(m: Phys, d: nat, pp: nat, i: nat, j: nat, t: nat, perm: bv12): (r: Phys)
    requires Shape(m) && d < |m.pages| && pp < |m.pages| && t < |m.pages| && i < NPTENTRIES && j < NPTENTRIES
    ensures Shape(r) && |r.pages| == |m.pages|
  {
    var m1 := IncRef(m, pp);
    var m2 := if Present(m1.frames[t][j]) then PageRemove(m1, d, i, j) else m1;
    if !m2.ok then m2 else Write(m2, t, j, Word(pp, perm | PTE_P))
  }

  // ------------------------------------------------- the reference translation

  /**
   check_va2pa extended with the flag bits: the word the hardware walk of directory
   `d` reaches for virtual page (i, j), if both levels are present.
   */
  function Translate(f: seq<Frame>, d: nat, i: nat, j: nat): (r: Option<Word>)
    requires FramesShape(f) && d < |f| && i < NPTENTRIES && j < NPTENTRIES
  {
    var pde := f[d][i];
    if !Present(pde) || pde.pfn >= |f| then None
    else if !Present(f[pde.pfn][j]) then None
    else Some(f[pde.pfn][j])
  }

  /** The translation of virtual page number v. */
  function At(f: seq<Frame>, d: nat, v: nat): Option<Word>
    requires FramesShape(f) && d < |f|
  {
    Translate(f, d, v / NPTENTRIES % NPTENTRIES, v % NPTENTRIES)
  }
}
