/** The environment table of kern/env.c: slot free list, generation-stamped ids and envid2env. */
module Environments {
  import opened Pmap

  const NENV: nat := 1024
  const GENERATION: nat := 4096          // 1 << ENVGENSHIFT
  const CYCLE: nat := 524287             // 2^19 - 1 generations fit in a positive envid_t

  datatype Status = Free | Dying | Runnable | Running | NotRunnable

  /** The fields of struct Env that this model follows. */
  datatype Env = Env(id: int, parent: int, status: Status, link: Link, pgdir: Link)

  datatype Table = Table(envs: seq<Env>, head: Link)

  predicate TableShape(t: Table) {
    |t.envs| == NENV && LinkIn(t.head, NENV) && forall e :: 0 <= e < NENV ==> LinkIn(t.envs[e].link, NENV)
  }

  predicate Live(t: Table, e: nat)
    requires TableShape(t) && e < NENV
  {
    t.envs[e].status != Free
  }

  // ---------------------------------------------------------------------- ids

  function Wrap32(x: int): int
    requires 0 <= x < 0x1_0000_0000
  {
    if x >= 0x8000_0000 then x - 0x1_0000_0000 else x
  }

  /** (id + (1 << ENVGENSHIFT)) & ~(NENV - 1) in 32-bit arithmetic, forced positive, with the slot number or-ed in. */
  function NextId(id: int, slot: nat): int
    requires 0 <= id < 0x8000_0000 && slot < NENV
  {
    var sum := Wrap32(id + GENERATION);
    var generation := sum - sum % NENV;
    (if generation <= 0 then GENERATION else generation) + slot
  }

  /** The low ten bits of an envid_t, also of a negative one. */
  function ENVX(id: int): (r: nat)
    ensures r < NENV
  {
    id % NENV
  }

  /** The id a slot carries after it has been allocated k times. */
  function IdAfter(slot: nat, k: nat): (id: int)
    requires slot < NENV
    ensures 0 <= id < 0x8000_0000 && (k > 0 ==> id > 0 && ENVX(id) == slot)
  {
    if k == 0 then 0 else GENERATION * ((k - 1) % CYCLE + 1) + slot
  }

  lemma NextIdCounts(slot: nat, k: nat)
    requires slot < NENV
    ensures NextId(IdAfter(slot, k), slot) == IdAfter(slot, k + 1)
  {
    if k > 0 {
      hide NextId;
      NextCycle(k);
      NextIdOf((k - 1) % CYCLE + 1, slot);
    } else {
      FirstId(slot);
    }
  }

  lemma FirstId(slot: nat)
    requires slot < NENV
    ensures NextId(0, slot) == GENERATION + slot
  {
  }

  lemma NextCycle(k: nat)
    requires k > 0
    ensures 1 <= (k - 1) % CYCLE + 1 <= CYCLE
    ensures k % CYCLE + 1 == if (k - 1) % CYCLE + 1 == CYCLE then 1 else (k - 1) % CYCLE + 2
  {
  }

  /** From one generation to the next: past the last the sum wraps below zero, and the first follows. */
  lemma NextIdOf(g: nat, slot: nat)
    requires slot < NENV && 1 <= g <= CYCLE
    ensures 0 <= GENERATION * g + slot < 0x8000_0000
    ensures NextId(GENERATION * g + slot, slot) == GENERATION * (if g == CYCLE then 1 else g + 1) + slot
  {
    if g == CYCLE {
      LowPart(-0x20_0000, slot);
    } else {
      LowPart(4 * (g + 1), slot);
    }
  }

  lemma LowPart(q: int, slot: nat)
    requires slot < NENV
    ensures (1024 * q + slot) % NENV == slot
  {
  }

  /** Two allocations of a slot carry the same id exactly when they are a multiple of 2^19 - 1 apart. */
  lemma IdRepeats(slot: nat, a: nat, b: nat)
    requires slot < NENV && 0 < a <= b
    ensures IdAfter(slot, a) == IdAfter(slot, b) <==> (b - a) % CYCLE == 0
  {
    var x, y := a - 1, b - 1;
    assert x == CYCLE * (x / CYCLE) + x % CYCLE;
    assert y == CYCLE * (y / CYCLE) + y % CYCLE;
    if x % CYCLE == y % CYCLE {
      assert b - a == CYCLE * (y / CYCLE - x / CYCLE);
    } else {
      var q, s := y / CYCLE - x / CYCLE, y % CYCLE - x % CYCLE;
      assert b - a == CYCLE * q + s && s != 0 && 0 - CYCLE < s < CYCLE;
      assert (b - a) % CYCLE == if s < 0 then s + CYCLE else s;
    }
  }

  // -------------------------------------------------------------- the free list

  ghost predicate EnvLink(envs: seq<Env>, s: seq<nat>, k: nat)
    requires k < |s| && s[k] < |envs|
  {
    envs[s[k]].link == if k + 1 < |s| then Ptr(s[k + 1]) else Null
  }

  ghost predicate EnvChain(envs: seq<Env>, head: Link, s: seq<nat>) {
    && (forall a, b :: 0 <= a < b < |s| ==> s[a] != s[b])
    && (forall k :: 0 <= k < |s| ==> s[k] < |envs|)
    && head == (if s == [] then Null else Ptr(s[0]))
    && (forall k: nat :: k < |s| ==> EnvLink(envs, s, k))
  }

  /**
   `allocs[e]` counts how often slot e has been allocated, `free` is the free list in order.
   The list is acyclic and holds exactly the FREE slots, and ids are determined by the counts.
   */
  ghost predicate TableInv(t: Table, allocs: seq<nat>, free: seq<nat>) {
    && TableShape(t) && |allocs| == NENV
    && EnvChain(t.envs, t.head, free)
    && (forall e: nat :: e < NENV ==> (e in free <==> t.envs[e].status == Free))
    && (forall e: nat :: e < NENV ==> t.envs[e].id == IdAfter(e, allocs[e]))
    && (forall e: nat :: e < NENV && t.envs[e].status != Free ==> allocs[e] > 0)
  }

  /** The part of env_alloc that changes the table, once env_setup_vm has produced a directory. */
  function AllocSlot(t: Table, parent: int, dir: nat): (r: Table)
    requires TableShape(t) && t.head.Ptr? && 0 <= t.envs[t.head.page].id < 0x8000_0000
    ensures TableShape(r)
  {
    var e := t.head.page;
    Table(t.envs[e := Env(NextId(t.envs[e].id, e), parent, Runnable, t.envs[e].link, Ptr(dir))], t.envs[e].link)
  }

  /** The part of env_free that changes the table. */
  function FreeSlot(t: Table, e: nat): (r: Table)
    requires TableShape(t) && e < NENV
    ensures TableShape(r)
  {
    Table(t.envs[e := t.envs[e].(status := Free, link := t.head, pgdir := Null)], Ptr(e))
  }

  lemma AllocKeepsTable(t: Table, allocs: seq<nat>, free: seq<nat>, parent: int, dir: nat)
    requires TableInv(t, allocs, free) && free != []
    ensures t.head == Ptr(free[0]) && t.envs[free[0]].status == Free
    ensures TableInv(AllocSlot(t, parent, dir), allocs[free[0] := allocs[free[0]] + 1], free[1..])
  {
    var e, t' := free[0], AllocSlot(t, parent, dir);
    assert e in free;
    NextIdCounts(e, allocs[e]);
    assert EnvLink(t.envs, free, 0);
    forall k: nat | k < |free[1..]| ensures EnvLink(t'.envs, free[1..], k) {
      assert EnvLink(t.envs, free, k + 1);
    }
    forall x: nat | x < NENV ensures x in free[1..] <==> t'.envs[x].status == Free {
      assert x in free <==> x == e || x in free[1..];
    }
  }

  lemma FreeKeepsTable(t: Table, allocs: seq<nat>, free: seq<nat>, e: nat)
    requires TableInv(t, allocs, free) && e < NENV && t.envs[e].status != Free
    ensures TableInv(FreeSlot(t, e), allocs, [e] + free)
  {
    var t', free' := FreeSlot(t, e), [e] + free;
    assert e !in free;
    forall k: nat | k < |free'| ensures EnvLink(t'.envs, free', k) {
      if k > 0 {
        assert EnvLink(t.envs, free, k - 1) && free[k - 1] in free;
      }
    }
    forall a, b | 0 <= a < b < |free'| ensures free'[a] != free'[b] {
      assert free[b - 1] in free;
    }
  }

  /** Live environments have positive, pairwise distinct ids whose low bits are the slot number. */
  lemma LiveIds(t: Table, allocs: seq<nat>, free: seq<nat>, a: nat, b: nat)
    requires TableInv(t, allocs, free) && a < NENV && b < NENV
    requires t.envs[a].status != Free && t.envs[b].status != Free
    ensures t.envs[a].id > 0 && ENVX(t.envs[a].id) == a
    ensures t.envs[a].id == t.envs[b].id <==> a == b
  {
  }

  // ---------------------------------------------------------------- envid2env

  const E_BAD_ENV: int := 2

  /** The slot an id names in the table, if the environment it was issued to is still the one there. */
  function LiveSlot(t: Table, id: int): Option<nat>
    requires TableShape(t)
  {
    var e := ENVX(id);
    if t.envs[e].status == Free || t.envs[e].id != id then None else Some(e)
  }

  /**
   envid2env; `cur` is the calling environment.  Id 0 is the caller.  With
   checkperm the target must be the caller or its child; to compare them the
   source follows curenv, which must not be NULL then.
   */
  function EnvId2Env(t: Table, cur: Option<nat>, id: int, checkperm: bool): (r: (int, Option<nat>))
    requires TableShape(t) && (cur.Some? ==> cur.value < NENV)
    requires checkperm && id != 0 && LiveSlot(t, id).Some? ==> cur.Some?
  {
    if id == 0 then (0, cur)
    else
      match LiveSlot(t, id)
      case None => (-E_BAD_ENV, None)
      case Some(e) =>
        if checkperm && cur != Some(e) && t.envs[e].parent != t.envs[cur.value].id then (-E_BAD_ENV, None)
        else (0, Some(e))
  }

  /**
   envid2env finds exactly the environment an id was issued to: the id of slot e's a-th allocation is accepted
   if and only if slot e is live and has been allocated a multiple of 2^19 - 1 further times.
   */
  lemma StaleIdRefused(t: Table, allocs: seq<nat>, free: seq<nat>, cur: Option<nat>, e: nat, a: nat)
    requires TableInv(t, allocs, free) && e < NENV && 0 < a <= allocs[e] && (cur.Some? ==> cur.value < NENV)
    ensures EnvId2Env(t, cur, IdAfter(e, a), false) ==
            if t.envs[e].status != Free && (allocs[e] - a) % CYCLE == 0 then (0, Some(e)) else (-E_BAD_ENV, None)
  {
    IdRepeats(e, a, allocs[e]);
  }

  /** Id 0 finds what the caller's own id finds. */
  lemma ZeroIsSelf(t: Table, allocs: seq<nat>, free: seq<nat>, cur: nat, checkperm: bool)
    requires TableInv(t, allocs, free) && cur < NENV && t.envs[cur].status != Free
    ensures EnvId2Env(t, Some(cur), 0, checkperm) == EnvId2Env(t, Some(cur), t.envs[cur].id, checkperm) == (0, Some(cur))
  {
    LiveIds(t, allocs, free, cur, cur);
  }

  /** A new environment is found by its id, and its creator has permission on it. */
  lemma CreatorMayUse(t: Table, allocs: seq<nat>, free: seq<nat>, creator: nat, dir: nat)
    requires TableInv(t, allocs, free) && free != [] && creator < NENV && t.envs[creator].status != Free
    ensures t.head == Ptr(free[0])
    ensures var t', e := AllocSlot(t, t.envs[creator].id, dir), free[0];
            && t'.envs[e].status == Runnable && t'.envs[e].pgdir == Ptr(dir)
            && EnvId2Env(t', Some(creator), t'.envs[e].id, true) == (0, Some(e))
            && (forall x: nat :: x < NENV && x != e ==> t'.envs[x] == t.envs[x])
  {
    AllocKeepsTable(t, allocs, free, t.envs[creator].id, dir);
    var t', e := AllocSlot(t, t.envs[creator].id, dir), free[0];
    LiveIds(t', allocs[e := allocs[e] + 1], free[1..], e, e);
  }

  /** With checkperm, success on a nonzero id means the caller itself or one of its children, and nothing else. */
  lemma CheckedLookup(t: Table, allocs: seq<nat>, free: seq<nat>, cur: nat, id: int)
    requires TableInv(t, allocs, free) && cur < NENV && t.envs[cur].status != Free && id != 0
    ensures var (r, found) := EnvId2Env(t, Some(cur), id, true);
            && (r == 0 <==> exists e: nat :: e < NENV && t.envs[e].status != Free && t.envs[e].id == id
                                            && (e == cur || t.envs[e].parent == t.envs[cur].id))
            && (r == 0 ==> found.Some? && t.envs[found.value].id == id)
            && (r != 0 ==> r == -E_BAD_ENV && found == None)
  {
    forall e: nat | e < NENV && t.envs[e].status != Free && t.envs[e].id == id ensures e == ENVX(id) {
      LiveIds(t, allocs, free, e, e);
    }
    if EnvId2Env(t, Some(cur), id, true).0 == 0 {
      assert t.envs[ENVX(id)].id == id;
    }
  }
}
