/**
 kern/pmap.c and the memory part of kern/env.c in place: pages[] and physical memory are arrays that
 the methods update.  Each method is proved to take the memory to the state its transition function
 gives, so the theorems about those functions are theorems about the methods.
 */
module KernelMemory {
  import opened Mmu
  import opened Pmap
  import opened Ownership
  import Boot
  import AddressSpace
  import Teardown
  import KernelMappings
  import Loader
  import opened Bytes
  import opened Partition

  class Memory {
    var ok: bool
    var head: Link
    const pages: array<PageInfo>
    const frames: array<Frame>

    ghost function View(): Phys
      reads this, pages, frames
    {
      Phys(ok, head, pages[..], frames[..])
    }

    ghost predicate Valid()
      reads this, pages, frames
    {
      Shape(View())
    }

    /** mem_init: pages[] is allocated, and page_init fills it and links the free list. */
    constructor (memory: array<Frame>, basemem: nat, bootEnd: nat)
      requires FramesShape(memory[..])
      ensures Valid() && ok && fresh(pages) && frames == memory
      ensures (pages[..], head) == Boot.InitPages(memory.Length, basemem, bootEnd)
      ensures forall p: nat :: p < pages.Length ==>
                (pages[p].ref == 0 <==> 0 < p && (p < basemem || p < 160 || (p >= 256 && p >= bootEnd)))
    {
      ok, head, frames := true, Null, memory;
      var infos := new PageInfo[memory.Length](_ => PageInfo(Null, 0));
      pages := infos;
      new;
      for i := 0 to pages.Length
        invariant pages.Length == memory.Length && ok && fresh(pages) && frames == memory
        invariant FramesShape(memory[..])
        invariant (pages[..i], head) == Boot.InitPages(i, basemem, bootEnd)
      {
        if i == 0 {
          pages[i] := PageInfo(Null, 1);
        } else if 1 <= i < basemem {
          pages[i] := PageInfo(head, 0);
          head := Ptr(i);
        } else if Boot.IO_HOLE <= i < Boot.EXTENDED {
          pages[i] := PageInfo(Null, 1);
        } else if Boot.EXTENDED <= i < bootEnd {
          pages[i] := PageInfo(Null, 1);
        } else {
          pages[i] := PageInfo(head, 0);
          head := Ptr(i);
        }
        assert pages[..i + 1] == pages[..i] + [pages[i]];
      }
      Boot.InitFreeList(pages.Length, basemem, bootEnd);
      assert pages[..pages.Length] == pages[..];
      forall p: nat | p < pages.Length
        ensures pages[p].ref == 0 <==> 0 < p && (p < basemem || p < 160 || (p >= 256 && p >= bootEnd))
      {
        Boot.InitExact(pages.Length, basemem, bootEnd, p);
        assert pages[p] == pages[..][p];
      }
    }

    method Halt()
      requires Valid()
      modifies this
      ensures View() == Panic(old(View()))
    {
      ok := false;
    }

    method SetWord(q: nat, j: nat, e: Word)
      requires Valid() && q < frames.Length && j < NPTENTRIES
      modifies frames
      ensures View() == Write(old(View()), q, j, e)
    {
      frames[q] := frames[q][j := e];
      assert frames[..] == old(frames[..])[q := old(frames[q])[j := e]];
    }

    method Increment(p: nat)
      requires Valid() && p < pages.Length
      modifies pages
      ensures View() == IncRef(old(View()), p)
    {
      pages[p] := pages[p].(ref := (pages[p].ref + 1) % REF_LIMIT);
      assert pages[..] == old(pages[..])[p := old(pages[p]).(ref := (old(pages[p]).ref + 1) % REF_LIMIT)];
    }

    method PageAlloc(zero: bool) returns (r: Link)
      requires Valid()
      modifies this, pages, frames
      ensures (View(), r) == Pmap.PageAlloc(old(View()), zero)
    {
      if head.Null? {
        return Null;
      }
      var page := head.page;
      head := pages[page].link;
      pages[page] := pages[page].(link := Null);
      if zero {
        frames[page] := ZeroFrame();
      }
      assert pages[..] == old(pages[..])[page := old(pages[page]).(link := Null)];
      return Ptr(page);
    }

    method PageFree(pp: nat)
      requires Valid() && pp < pages.Length
      modifies this, pages
      ensures View() == Pmap.PageFree(old(View()), pp)
    {
      if pages[pp].link != Null || pages[pp].ref != 0 {
        Halt();
        return;
      }
      pages[pp] := pages[pp].(link := head);
      head := Ptr(pp);
    }

    method PageDecref(pp: nat)
      requires Valid() && pp < pages.Length
      modifies this, pages
      ensures View() == Pmap.PageDecref(old(View()), pp)
    {
      pages[pp] := pages[pp].(ref := (pages[pp].ref + REF_LIMIT - 1) % REF_LIMIT);
      if pages[pp].ref == 0 {
        PageFree(pp);
      }
    }

    method PgdirWalk(d: nat, i: nat, create: bool) returns (r: Link)
      requires Valid() && d < pages.Length && i < NPTENTRIES
      modifies this, pages, frames
      ensures (View(), r) == Pmap.PgdirWalk(old(View()), d, i, create)
    {
      if !Present(frames[d][i]) {
        if !create {
          return Null;
        }
        var page := PageAlloc(true);
        if page.Null? {
          return Null;
        }
        Increment(page.page);
        SetWord(d, i, Word(page.page, PTE_P | PTE_U | PTE_W));
        return page;
      }
      if frames[d][i].pfn >= pages.Length {
        Halt();
        return Null;
      }
      return Ptr(frames[d][i].pfn);
    }

    method PageLookup(d: nat, i: nat, j: nat) returns (r: Lookup)
      requires Valid() && d < pages.Length && i < NPTENTRIES && j < NPTENTRIES
      modifies this, pages, frames
      ensures r == Pmap.PageLookup(old(View()), d, i, j)
      ensures View() == if r.BadEntry? then Panic(old(View())) else old(View())
    {
      if Present(frames[d][i]) && frames[d][i].pfn >= pages.Length {
        Halt();
        return BadEntry;
      }
      var pt := PgdirWalk(d, i, false);
      if pt.Null? || !Present(frames[pt.page][j]) {
        return NotMapped;
      }
      if frames[pt.page][j].pfn >= pages.Length {
        Halt();
        return BadEntry;
      }
      return Mapped(frames[pt.page][j].pfn, pt.page);
    }

    method PageRemove(d: nat, i: nat, j: nat)
      requires Valid() && d < pages.Length && i < NPTENTRIES && j < NPTENTRIES
      modifies this, pages, frames
      ensures View() == Pmap.PageRemove(old(View()), d, i, j)
    {
      var found := PageLookup(d, i, j);
      if !found.Mapped? {
        return;
      }
      SetWord(found.table, j, ZERO_WORD);
      PageDecref(found.page);
    }

    method PageInsert(d: nat, pp: nat, i: nat, j: nat, perm: bv12) returns (r: int)
      requires Valid() && d < pages.Length && pp < pages.Length && i < NPTENTRIES && j < NPTENTRIES
      modifies this, pages, frames
      ensures (View(), r) == Pmap.PageInsert(old(View()), d, pp, i, j, perm)
    {
      var pt := PgdirWalk(d, i, true);
      if pt.Null? {
        return -E_NO_MEM;
      }
      Increment(pp);
      if Present(frames[pt.page][j]) {
        PageRemove(d, i, j);
      }
      if ok {
        SetWord(pt.page, j, Word(pp, perm | PTE_P));
      }
      return 0;
    }

    method BootMapRegion(d: nat, v: nat, count: nat, pfn: nat, perm: bv12)
      requires Valid() && ok && d < pages.Length && v + count <= NPTENTRIES * NPTENTRIES
      modifies this, pages, frames
      ensures View() == KernelMappings.BootMapRegion(old(View()), d, v, count, pfn, perm)
    {
      hide Pmap.PgdirWalk, Write;
      for k := 0 to count
        invariant Valid() && ok
        invariant KernelMappings.BootMapRegion(View(), d, v + k, count - k, pfn + k, perm) ==
                  KernelMappings.BootMapRegion(old(View()), d, v, count, pfn, perm)
      {
        var pt := PgdirWalk(d, (v + k) / NPTENTRIES, true);
        if pt.Null? {
          Halt();
          return;
        }
        SetWord(pt.page, (v + k) % NPTENTRIES, Word(pfn + k, perm | PTE_P));
      }
    }

    method EnvSetupVm(kern: nat) returns (r: Link)
      requires Valid() && kern < pages.Length
      modifies this, pages, frames
      ensures (View(), r) == AddressSpace.EnvSetupVm(old(View()), kern)
    {
      r := PageAlloc(true);
      if r.Ptr? {
        Increment(r.page);
        frames[r.page] := frames[kern];
        SetWord(r.page, UVPTX, Word(r.page, PTE_P | PTE_U));
      }
    }

    /** region_alloc; page_insert's result is dropped, as in the source. */
    method RegionAlloc(d: nat, va: nat, len: nat)
      requires Valid() && d < pages.Length
      modifies this, pages, frames
      ensures View() == Loader.RegionAlloc(old(View()), d, va, len)
    {
      hide Pmap.PageAlloc, Pmap.PageInsert;
      var begin, end := Loader.FirstPage(va), Loader.EndPage(va, len);
      while begin < end && ok
        invariant Valid()
        invariant Loader.AllocPages(View(), d, begin, end) == Loader.RegionAlloc(old(View()), d, va, len)
        decreases end - begin
      {
        ghost var before := View();
        var p := PageAlloc(false);
        if p.Null? {
          Halt();
        } else {
          var ignored := PageInsert(d, p.page, begin / NPTENTRIES % NPTENTRIES, begin % NPTENTRIES, PTE_W | PTE_U);
        }
        assert View() == Loader.AllocPage(before, d, begin);
        begin := begin + 1;
      }
    }

    /** One byte stored through directory d. */
    method StoreByte(d: nat, a: nat, b: Byte)
      requires Valid() && d < pages.Length
      modifies this, frames
      ensures View() == Loader.StoreByte(old(View()), d, a, b)
    {
      hide SetByte;
      var i, j := a / PGSIZE / NPTENTRIES % NPTENTRIES, a / PGSIZE % NPTENTRIES;
      var pde := frames[d][i];
      if !Present(pde) || pde.pfn >= frames.Length || !Present(frames[pde.pfn][j]) || frames[pde.pfn][j].pfn >= frames.Length {
        Halt();
        return;
      }
      var q, k := frames[pde.pfn][j].pfn, a % PGSIZE / 4;
      SetWord(q, k, SetByte(frames[q][k], a % 4, b));
    }

    method StoreBytes(d: nat, a: nat, bs: seq<Byte>)
      requires Valid() && d < pages.Length
      modifies this, frames
      ensures View() == Loader.StoreBytes(old(View()), d, a, bs)
    {
      hide Loader.StoreByte;
      var k := 0;
      assert bs[0..] == bs;
      while k < |bs| && ok
        invariant k <= |bs| && Valid()
        invariant Loader.StoreBytes(View(), d, a + k, bs[k..]) == Loader.StoreBytes(old(View()), d, a, bs)
        decreases |bs| - k
      {
        assert bs[k..][1..] == bs[k + 1..];
        StoreByte(d, (a + k) % TWO32, bs[k]);
        k := k + 1;
      }
    }

    /** load_icode: each loadable segment, then the stack page; `segs` are the program headers. */
    method LoadIcode(d: nat, file: seq<Byte>, segs: seq<Loader.Segment>)
      requires Valid() && d < pages.Length && forall s <- segs :: Loader.InFile(s, file)
      modifies this, pages, frames
      ensures View() == Loader.LoadIcode(old(View()), d, file, segs)
    {
      hide Loader.AllocPages, Loader.StoreBytes, Loader.FirstPage, Loader.EndPage;
      var k := 0;
      assert segs[0..] == segs;
      while k < |segs|
        invariant k <= |segs| && Valid()
        invariant Loader.LoadSegments(View(), d, file, segs[k..]) == Loader.LoadSegments(old(View()), d, file, segs)
      {
        assert segs[k..][1..] == segs[k + 1..];
        ghost var before := View();
        LoadSegment(d, file, segs[k]);
        assert View() == Loader.LoadSegment(before, d, file, segs[k]);
        k := k + 1;
      }
      RegionAlloc(d, USTACKTOP - PGSIZE, PGSIZE);
    }

    method LoadSegment(d: nat, file: seq<Byte>, s: Loader.Segment)
      requires Valid() && d < pages.Length && Loader.InFile(s, file)
      modifies this, pages, frames
      ensures View() == Loader.LoadSegment(old(View()), d, file, s)
    {
      if s.load {
        RegionAlloc(d, s.va, s.memsz);
        StoreBytes(d, s.va, Loader.FileBytes(s, file));
        StoreBytes(d, s.va + s.filesz, Loader.Zeros(s));
      }
    }

    /** env_free: the nested loops over the user part of directory d, then the directory itself. */
    method EnvFree(d: nat)
      requires Valid() && ok && d < pages.Length
      modifies this, pages, frames
      ensures View() == Teardown.EnvFreeVm(old(View()), d)
    {
      var pdeno := 0;
      while pdeno < UTOPX && ok
        invariant pdeno <= UTOPX && Valid()
        invariant Teardown.FreePdes(View(), d, pdeno) == Teardown.FreePdes(old(View()), d, 0)
        decreases UTOPX - pdeno
      {
        FreeTable(d, pdeno);
        pdeno := pdeno + 1;
      }
      if ok {
        PageDecref(d);
      }
    }

    method FreeTable(d: nat, pdeno: nat)
      requires Valid() && ok && d < pages.Length && pdeno < UTOPX
      modifies this, pages, frames
      ensures View() == Teardown.FreePde(old(View()), d, pdeno)
    {
      hide Teardown.FreePtes, Pmap.PageDecref, Write;
      if !Present(frames[d][pdeno]) {
        return;
      }
      var t := frames[d][pdeno].pfn;
      if t >= pages.Length {
        Halt();
        return;
      }
      EmptyTable(d, pdeno, t);
      if ok {
        SetWord(d, pdeno, ZERO_WORD);
        PageDecref(t);
      }
    }

    /** The inner loop of env_free. */
    method EmptyTable(d: nat, pdeno: nat, t: nat)
      requires Valid() && d < pages.Length && t < pages.Length && pdeno < UTOPX
      modifies this, pages, frames
      ensures View() == Teardown.FreePtes(old(View()), d, pdeno, t, 0)
    {
      hide Pmap.PageRemove, Shape;
      var pteno := 0;
      while pteno < NPTENTRIES && ok
        invariant pteno <= NPTENTRIES && Valid()
        invariant Teardown.FreePtes(View(), d, pdeno, t, pteno) == Teardown.FreePtes(old(View()), d, pdeno, t, 0)
        decreases NPTENTRIES - pteno
      {
        WordInTable(t, pteno);
        if Present(frames[t][pteno]) {
          PageRemove(d, pdeno, pteno);
        }
        pteno := pteno + 1;
      }
    }

    lemma WordInTable(q: nat, j: nat)
      requires Valid() && q < pages.Length && j < NPTENTRIES
      ensures q < frames.Length && j < |frames[q]|
    {
    }

    /** *tail = value, where the tail is either a list head variable or a page's link. */
    method StoreThrough(tail: Tail, headVar: Link, value: Link) returns (r: Link)
      requires tail.LinkOf? ==> tail.page < pages.Length
      modifies pages
      ensures r == if tail.HeadVariable? then value else headVar
      ensures pages[..] == SetTail(old(pages[..]), tail, value)
    {
      r := headVar;
      match tail
      case HeadVariable => r := value;
      case LinkOf(p) => pages[p] := pages[p].(link := value);
    }

    /**
     The first loop of check_page_free_list.  The free list becomes its pages of the first 4 MB followed
     by the others, each part in its old order; the two head variables start uninitialised.
     */
    method MoveLowPagesFirst(ghost free: seq<nat>, garbage1: Link, garbage2: Link)
      requires Valid() && FreeList(pages[..], head, free)
      modifies this, pages
      ensures free == [] ==> View() == Panic(old(View()))
      ensures free != [] ==> ok == old(ok) && frames[..] == old(frames[..])
                             && FreeList(pages[..], head, Select(free, false) + Select(free, true))
      ensures SameRefs(old(pages[..]), pages[..])
    {
      hide FreeList, Split, Select, SameRefs, IsHigh, Shape, SetTail;
      Start(pages[..], head, free, garbage1, garbage2);
      SameRefsReflexive(pages[..]);
      if head.Null? {
        Halt();
        return;
      }
      var pp1, pp2 := garbage1, garbage2;
      var tail1, tail2 := HeadVariable, HeadVariable;
      var pp := head;
      ghost var k: nat := 0;
      while pp.Ptr?
        invariant k <= |free| && pp == NextOf(free, k) && head == old(head) && ok == old(ok)
        invariant frames[..] == old(frames[..])
        invariant Split(pages[..], free, k, pp1, tail1, pp2, tail2)
        invariant SameRefs(old(pages[..]), pages[..])
        decreases |free| - k
      {
        ghost var before := pages[..];
        Append(pages[..], free, k, pp1, tail1, pp2, tail2);
        IsHighIs(pp.page);
        if PDX(pp.page * PGSIZE) >= 1 {
          pp2 := StoreThrough(tail2, pp2, pp);
          tail2 := LinkOf(pp.page);
        } else {
          pp1 := StoreThrough(tail1, pp1, pp);
          tail1 := LinkOf(pp.page);
        }
        SameRefsTransitive(old(pages[..]), before, pages[..]);
        pp := pages[pp.page].link;
        k := k + 1;
      }
      ghost var before := pages[..];
      Join(pages[..], free, pp1, tail1, pp2, tail2);
      pp2 := StoreThrough(tail2, pp2, Null);
      pp1 := StoreThrough(tail1, pp1, pp2);
      SameRefsTransitive(old(pages[..]), before, pages[..]);
      head := pp1;
    }
  }
}
