/**
 kern/env.c in place: envs[] is an array that env_init, env_alloc and env_free update, calling the page
 allocator of KernelMemory for the address space.
 */
module EnvTable {
  import opened Pmap
  import opened Environments
  import AddressSpace
  import Teardown
  import KernelMemory

  const E_NO_FREE_ENV: int := 5

  /** The whole table with nothing allocated yet, in slot order. */
  ghost function Count(from: nat): seq<nat>
    requires from <= NENV
  {
    seq(NENV - from, i requires 0 <= i => from + i)
  }

  class Envs {
    const envs: array<Env>
    var head: Link

    ghost function View(): Table
      reads this, envs
    {
      Table(envs[..], head)
    }

    ghost predicate Valid()
      reads this, envs
    {
      TableShape(View())
    }

    /** env_init: every slot is free with id 0, and the list is in slot order, so envs[0] is allocated first. */
    constructor ()
      ensures fresh(envs) && TableInv(View(), seq(NENV, _ => 0), Count(0))
    {
      var slots := new Env[NENV](_ => Env(0, 0, Free, Null, Null));
      envs := slots;
      head := Null;
      new;
      var i: nat := NENV;
      while i > 0
        invariant i <= NENV && envs.Length == NENV && fresh(envs)
        invariant head == if i == NENV then Null else Ptr(i)
        invariant forall e :: i <= e < NENV ==>
                    envs[e].id == 0 && envs[e].status == Free && envs[e].link == if e + 1 < NENV then Ptr(e + 1) else Null
      {
        i := i - 1;
        envs[i] := envs[i].(id := 0, status := Free, link := head);
        head := Ptr(i);
      }
      assert forall k: nat :: k < NENV ==> EnvLink(envs[..], Count(0), k);
      assert forall e: nat :: e < NENV ==> Count(0)[e] == e && e in Count(0);
    }

    /**
     env_alloc.  It fails with -E_NO_FREE_ENV exactly when the slot list is empty and with -E_NO_MEM when no
     directory page is left, changing nothing; otherwise it returns the first free slot.
     */
    method EnvAlloc(mem: KernelMemory.Memory, kern: nat, parent: int) returns (r: int, e: Link)
      requires Valid() && mem.Valid() && kern < mem.pages.Length
      requires forall x :: 0 <= x < NENV ==> 0 <= envs[x].id < 0x8000_0000
      modifies this, envs, mem, mem.pages, mem.frames
      ensures Valid() && mem.Valid()
      ensures var (m, dir) := AddressSpace.EnvSetupVm(old(mem.View()), kern);
              if old(head).Null? then r == -E_NO_FREE_ENV && e == Null && View() == old(View()) && mem.View() == old(mem.View())
              else if dir.Null? then r == -E_NO_MEM && e == Null && View() == old(View()) && mem.View() == old(mem.View())
              else r == 0 && e == old(head) && mem.View() == m && View() == AllocSlot(old(View()), parent, dir.page)
    {
      if head.Null? {
        return -E_NO_FREE_ENV, Null;
      }
      var slot := head.page;
      var dir := mem.EnvSetupVm(kern);
      if dir.Null? {
        return -E_NO_MEM, Null;
      }
      envs[slot] := envs[slot].(id := NextId(envs[slot].id, slot), parent := parent, status := Runnable, pgdir := dir);
      head := envs[slot].link;
      return 0, Ptr(slot);
    }

    /** env_free: the address space, then the slot. */
    method EnvFree(mem: KernelMemory.Memory, e: nat)
      requires Valid() && mem.Valid() && mem.ok && e < NENV
      requires envs[e].pgdir.Ptr? && envs[e].pgdir.page < mem.pages.Length
      modifies this, envs, mem, mem.pages, mem.frames
      ensures Valid() && mem.Valid()
      ensures mem.View() == Teardown.EnvFreeVm(old(mem.View()), old(envs[e]).pgdir.page)
      ensures View() == FreeSlot(old(View()), e)
    {
      mem.EnvFree(envs[e].pgdir.page);
      envs[e] := envs[e].(status := Free, link := head, pgdir := Null);
      head := Ptr(e);
    }

    /** envid2env; a NULL result is None. */
    method EnvId2EnvStore(cur: Option<nat>, id: int, checkperm: bool) returns (r: int, store: Option<nat>)
      requires Valid() && (cur.Some? ==> cur.value < NENV)
      requires checkperm && id != 0 && LiveSlot(View(), id).Some? ==> cur.Some?
      ensures (r, store) == EnvId2Env(View(), cur, id, checkperm)
    {
      if id == 0 {
        return 0, cur;
      }
      var e := ENVX(id);
      if envs[e].status == Free || envs[e].id != id {
        return -E_BAD_ENV, None;
      }
      if checkperm && cur != Some(e) && envs[e].parent != envs[cur.value].id {
        return -E_BAD_ENV, None;
      }
      return 0, Some(e);
    }
  }
}
