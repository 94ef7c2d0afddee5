/**
 The invariant tying together the free list, the reference counts and every page
 directory and page table entry.
 */
module Ownership {
  import opened Mmu
  import opened Pmap

  /**
   What each physical page is used for.
   - kern: the kernel directory; dirs: the directories of live environments
   - pins: pages page_init marks in use for ever
   - tables: every page table, with the one directory slot that names it
   */
  datatype Layout = Layout(kern: nat, dirs: set<nat>, pins: set<nat>, tables: map<nat, Slot>)

  /**
   The layout, the free list in order, and the references in hand: counted in pp_ref by
   kernel code that has incremented a count and not yet written the entry, or cleared an
   entry and not yet decremented the count.
   */
  datatype World = World(lay: Layout, free: seq<nat>, held: multiset<nat>)

  ghost predicate Root(l: Layout, d: nat) { d in l.dirs || d == l.kern }

  ghost predicate Owned(l: Layout, p: nat) { p in l.dirs || p in l.pins }

  /** Directory slots whose target is counted: an environment's user part, and kern_pgdir without UVPT. */
  ghost predicate CountedPde(l: Layout, d: nat, i: nat) {
    (d in l.dirs && i < UTOPX) || (d == l.kern && i != UVPTX)
  }

  /** Page tables of addresses below UTOP; their entries are counted, those above UTOP are not. */
  ghost predicate UserTable(l: Layout, t: nat) { t in l.tables && l.tables[t].1 < UTOPX }

  ghost predicate Counted(l: Layout, s: Slot) { CountedPde(l, s.0, s.1) || UserTable(l, s.0) }

  ghost predicate Names(f: seq<Frame>, s: Slot, p: nat)
    requires FramesShape(f) && s.0 < |f| && s.1 < NPTENTRIES
  {
    Present(f[s.0][s.1]) && f[s.0][s.1].pfn == p
  }

  ghost function AllSlots(n: nat): (r: set<Slot>)
    ensures forall s: Slot :: s in r <==> s.0 < n && s.1 < NPTENTRIES
  {
    set q: nat, j: nat | q < n && j < NPTENTRIES :: (q, j)
  }

  /** The counted entries that name page p. */
  ghost function Refs(f: seq<Frame>, l: Layout, p: nat): set<Slot>
    requires FramesShape(f)
  {
    set s | s in AllSlots(|f|) && Counted(l, s) && Names(f, s, p)
  }

  // ---------------------------------------------------------------- structure

  ghost predicate Roles(n: nat, l: Layout) {
    && l.kern in l.pins
    && (forall p :: p in l.pins ==> p < n)
    && (forall p :: p in l.dirs ==> p < n && p !in l.pins)
    && (forall t :: t in l.tables ==> t < n && !Owned(l, t))
  }

  /** Every counted directory entry owns its table, and grants P, U and W. */
  ghost predicate TablesExact(f: seq<Frame>, l: Layout)
    requires FramesShape(f) && Roles(|f|, l)
  {
    && (forall d: nat, i: nat :: Root(l, d) && i < NPTENTRIES && CountedPde(l, d, i) && Present(f[d][i]) ==>
          f[d][i].pfn in l.tables && l.tables[f[d][i].pfn] == (d, i) && UserWritable(f[d][i]))
    && (forall t :: t in l.tables ==> OwnerNames(f, l, t, l.tables[t].0, l.tables[t].1))
  }

  ghost predicate OwnerNames(f: seq<Frame>, l: Layout, t: nat, d: nat, i: nat)
    requires FramesShape(f) && Roles(|f|, l)
  {
    Root(l, d) && i < NPTENTRIES && CountedPde(l, d, i) && Present(f[d][i]) && f[d][i].pfn == t
  }

  /** User mappings name data pages only: never a directory or a page table. */
  ghost predicate DataTargets(f: seq<Frame>, l: Layout)
    requires FramesShape(f) && Roles(|f|, l)
  {
    forall t: nat, j: nat :: UserTable(l, t) && j < NPTENTRIES && Present(f[t][j]) ==>
      DataPage(|f|, l, f[t][j].pfn)
  }

  ghost predicate DataPage(n: nat, l: Layout, p: nat) { p < n && !Root(l, p) && p !in l.tables }

  /** Above UTOP all environments agree with kern_pgdir, except for the self-map at UVPT. */
  ghost predicate KernelHalf(f: seq<Frame>, l: Layout)
    requires FramesShape(f) && Roles(|f|, l)
  {
    && f[l.kern][UVPTX] == Word(l.kern, PTE_U | PTE_P)
    && (forall d: nat, i: nat :: d in l.dirs && UTOPX <= i < NPTENTRIES ==>
          f[d][i] == if i == UVPTX then Word(d, PTE_P | PTE_U) else f[l.kern][i])
    && (forall t: nat, j: nat :: t in l.tables && !UserTable(l, t) && j < NPTENTRIES ==>
          !UserWritable(f[t][j]))
  }

  ghost predicate Structure(f: seq<Frame>, l: Layout) {
    && FramesShape(f)
    && Roles(|f|, l)
    && TablesExact(f, l)
    && DataTargets(f, l)
    && KernelHalf(f, l)
  }

  // ---------------------------------------------------------------- free list

  ghost predicate Distinct(s: seq<nat>) { forall a, b :: 0 <= a < b < |s| ==> s[a] != s[b] }

  ghost function NextOf(s: seq<nat>, k: nat): Link { if k < |s| then Ptr(s[k]) else Null }

  /** `s` is the chain of links from `head`: acyclic, duplicate free and complete. */
  ghost predicate Chain(pages: seq<PageInfo>, head: Link, s: seq<nat>) {
    && Distinct(s)
    && head == NextOf(s, 0)
    && (forall k :: 0 <= k < |s| ==> s[k] < |pages|)
    && (forall k: nat :: k < |s| ==> LinkAt(pages, s, k))
  }

  ghost predicate LinkAt(pages: seq<PageInfo>, s: seq<nat>, k: nat)
    requires k < |s| && s[k] < |pages|
  {
    pages[s[k]].link == NextOf(s, k + 1)
  }

  /** Free pages have no reference, and pages off the list have a NULL link. */
  ghost predicate FreeList(pages: seq<PageInfo>, head: Link, free: seq<nat>) {
    && Chain(pages, head, free)
    && (forall p :: p in free ==> p < |pages| && pages[p].ref == 0)
    && (forall p: nat :: p < |pages| && p !in free ==> pages[p].link == Null)
  }

  // ------------------------------------------------------------------- counts

  ghost function CountOf(f: seq<Frame>, w: World, p: nat): nat
    requires FramesShape(f)
  {
    |Refs(f, w.lay, p)| + (if Owned(w.lay, p) then 1 else 0) + w.held[p]
  }

  /** pp_ref is exactly the pin or directory reference, plus the counted entries, plus references in hand. */
  ghost predicate Counts(pages: seq<PageInfo>, f: seq<Frame>, w: World)
    requires FramesShape(f)
  {
    forall p: nat :: p < |pages| ==> pages[p].ref == CountOf(f, w, p)
  }

  ghost predicate Inv(m: Phys, w: World) {
    && m.ok
    && Shape(m)
    && Structure(m.frames, w.lay)
    && FreeList(m.pages, m.head, w.free)
    && Counts(m.pages, m.frames, w)
  }
}
