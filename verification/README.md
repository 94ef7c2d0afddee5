# Verified model of the JOS kernel core

This project models the finished, stateful parts of the JOS teaching kernel and proves what they keep. The
physical page allocator, the two-level page tables and the environment table are modelled twice: as
transition functions on values, and as classes (`KernelMemory.Memory`, `EnvTable.Envs`) whose methods
update arrays in place and are proved equal to those functions. The theorems about the functions are
therefore theorems about the in-place code.

How the pieces fit together:

- `Mmu`, `Pmap`: paging constants, the allocator and the page-table operations of `kern/pmap.c`. A 32-bit
  entry is a frame number and twelve flag bits; a panic sets `ok` to false, so an invariant that contains
  `ok` says that no panic is reachable.
- `Ownership`: the global invariant `Inv`. It ties together the free list (an acyclic, duplicate-free chain
  of unreferenced pages), every 16-bit `pp_ref` (exactly the pin or directory reference, plus the number of
  counted PDEs and PTEs naming the page, plus references in hand between two steps) and every directory and
  table entry (each table is owned by one directory slot, user entries name data pages only, all directories
  agree above UTOP).
- `PrimitiveSteps`, `PageOps`, `AddressSpace`, `Teardown`, `KernelMappings`, `Loader`: each kernel operation
  against `Inv`, and against a finite map from virtual page to entry. `ShortMemory` says what region_alloc and
  load_icode do when memory runs out.
- `MemoryRuns`, `MemoryEffects`, `Boot`: every run, of any length and order, starting from what `page_init` leaves,
  and what each step brings about in terms of the free list and the address spaces.
- `Hardware`, `Tlb`, `LoaderTlb`: what 32-bit paging hardware makes of those tables (sections 4.3, 4.6 and 4.10 of the
  Intel SDM, volume 3A): the UVPT window, user stores, `user_mem_check`, and stale TLB entries.
- `Environments`, `EnvTable`, `KernelRuns`, `KernelEffects`: ids, the slot list, and several CPUs running, destroying and
  reaping environments on top of the memory system.
- `Partition` with `KernelMemory.Memory.MoveLowPagesFirst`: the list partition of `check_page_free_list`.
- `Sieve`, `SieveProgress`, `Spinlock`, `Stabs`, `Bytes`, `Blocks`, `Numbers`, `Numerals`, `Printf`, `PrintfLaws`: the prime sieve, the spinlock, the
  stab search, block moves, number printing and parsing, and the formatter with its two sinks.

Where the code does not do what its comments say, the model follows the code, and a lemma states exactly
when the promise holds:

- `page_insert` keeps the counts exact if and only if the count does not overflow its sixteen bits
  (`PageOps.InsertKeepsInvariant`).
- The double-free check of `page_free` misses the last page of the free list, and the list becomes cyclic
  (`MemoryRuns.DoubleFree`).
- `page_init` keeps the I/O hole off the free list if and only if base memory ends at or before it, and never
  reserves the entry page of the other CPUs, which its comment asks for (`Boot.IoHoleReserved`,
  `Boot.EntryPageIsFree`).
- `env_destroy` keeps the CPU invariant if and only if its target is not already DYING, `env_run` if and only if
  it does not switch away from a DYING environment, and `sched_halt` if and only if no environment is current on
  its CPU (`KernelRuns.DestroyExact`, `KernelRuns.EnvRunExact`, `KernelRuns.HaltExact`).
- `region_alloc` is to panic if any allocation fails, but ignores the result of `page_insert`. It maps all its pages
  if and only if there is a free page for each of them and for each page table to be made; with one page less, and
  the last page in need of a page table, it returns without a panic, that page unmapped and the page it took lost
  (`ShortMemory.AllocPagesExact`, `ShortMemory.AllocPageSilent`). `load_icode` can in this way return without a
  stack page (`ShortMemory.LoadIcodeExact`).
- `page_remove` leaves the TLB entry of a cached page stale if and only if CR3 holds the directory while there
  is a current environment with another one (`Tlb.RemoveUncovered`).
- `user_mem_check` looks at one page or none of a range that wraps around the address space; its verdict is the
  right one if and only if the range does not wrap, or the one page it looks at fails (`Hardware.VerdictExact`,
  `Hardware.WholeSpaceAccepted`). It refuses an empty range in the middle of a page that fails.
- `stab_binsearch` goes on with `addr + 1` after an exact hit, and agrees with a linear scan if and only if
  no entry still in its range has that value, or the wrap of `addr` hides it (`Stabs.SearchExact`). Whether such an
  entry is still in the range depends on the order of the probes (`Stabs.NeighbourHarmless`); a caller can rely on
  `Stabs.SearchIsLinearScan`. Its comment's reading of `left > right` has no converse
  (`Stabs.NotContainedIsNotMarked`).
- In the UVPT window `user_mem_check` accepts write access that the hardware denies, because it looks at the PTE
  only (`Hardware.UvptTest`); below UVPT the two agree.
- A negative `%d` is read back by `strtol` if and only if no space lies between sign and digits
  (`Numbers.NegativeRoundTrip`).
- `inc/memlayout.h` gives the directory's window as `UVPT+(UVPT>>PGSHIFT)`; `lib/entry.S` uses
  `UVPT+(UVPT>>12)*4`, which reaches the directory (`Hardware.UvpdReadsPde`), whereas the other address reaches
  entry 256 of the page table in slot 239 (`Hardware.UvpdCommentReads`).

## Model

| member | source | states |
|---|---|---|
| `Mmu.AddressRoundTrip` | inc/mmu.h:15-62 | PDX, PTX, PGOFF and PGADDR are mutually inverse on 32-bit addresses, and PGNUM is the combined page index |
| `Mmu.LayoutConstants` | inc/memlayout.h:96-128 | how the constants of the address space hang together |
| `PrimitiveSteps.AllocStep` | kern/pmap.c:366-379 | page_alloc takes the head of the free list and keeps the global invariant; with an empty list it returns NULL and changes nothing |
| `PrimitiveSteps.IncRefStep` | kern/pmap.c:515-515 | incrementing a count below 65535 of a page off the free list keeps the invariant with one more reference in hand |
| `PrimitiveSteps.DecrefStep` | kern/pmap.c:402-407 | page_decref gives up one reference in hand, frees the page exactly when it was the last, and keeps the invariant |
| `PrimitiveSteps.SetPteStep` | kern/pmap.c:506-522 | filling an empty user entry consumes a reference in hand and keeps the invariant |
| `PrimitiveSteps.ClearPteStep` | kern/pmap.c:567-579 | clearing a present user entry turns it into a reference in hand and keeps the invariant |
| `PrimitiveSteps.AttachStep` | kern/pmap.c:438-448 | hanging a zeroed, counted page on an empty directory slot makes it the page table owned by that slot |
| `PrimitiveSteps.DetachStep` | kern/env.c:436-438 | clearing the slot of an emptied page table gives up ownership and turns its reference into one in hand |
| `PageOps.WalkCreates` | kern/pmap.c:431-453 | pgdir_walk(create) never panics, returns the table owned by the slot, and returns NULL with nothing changed exactly when it needs a page and none is free |
| `PageOps.LookupIsTranslate` | kern/pmap.c:535-550 | page_lookup agrees with the reference translation check_va2pa and never panics |
| `PageOps.RemoveInv` | kern/pmap.c:567-579 | page_remove keeps the invariant and frees the page exactly when its count was one |
| `PageOps.RemoveRefines` | kern/pmap.c:567-579 | page_remove is removal from the finite map of its directory; no other entry of any directory changes |
| `PageOps.InsertRefines` | kern/pmap.c:506-522 | page_insert is map update; it fails exactly when a table is needed and no page is free, leaving the whole state unchanged, and otherwise changes only the named entry of the named directory |
| `PageOps.InsertKeepsInvariant` | kern/pmap.c:506-522 | after page_insert every count is exact if and only if the inserted page's count was below 65535 or the page is already mapped there |
| `PageOps.ReinsertKeepsCounts` | kern/pmap.c:506-522 | inserting the page already mapped there only rewrites the entry: no count moves and nothing is freed, even at the top of the 16-bit range |
| `PageOps.FillOverflow` | kern/pmap.c:515-520 | at 65535 references a further insertion wraps the count to zero, and no free list or ownership record makes that state consistent |
| `PageOps.TranslateAfterWalk` | kern/pmap.c:431-453 | creating a page table changes no translation of any directory outside that directory's own UVPT window |
| `AddressSpace.SetupVm` | kern/env.c:165-200 | env_setup_vm takes one page or changes nothing; the new space is empty below UTOP, equals the kernel's above it, and no other directory changes |
| `Teardown.FreePtesInv` | kern/env.c:430-434 | the inner loop of env_free empties exactly the table's present entries and keeps the invariant and the set of unreferenced pages off the list |
| `Teardown.FreePdesInv` | kern/env.c:418-439 | the outer loop empties exactly the user part of the directory and gives up exactly its page tables |
| `Teardown.EnvFreeConserves` | kern/env.c:402-450 | env_free conserves memory: each page loses exactly the references of the freed environment, the free list gains exactly the pages all of whose references came from it, other translations are unchanged |
| `KernelMappings.BootMapRegionMaps` | kern/pmap.c:466-479 | boot_map_region maps exactly the requested pages one by one and keeps the invariant, and panics exactly when there are fewer free pages than page tables to be made |
| `MemoryRuns.FreeStep` | kern/pmap.c:385-396 | page_free of an unreferenced page off the list does not panic and puts it at the head, keeping the invariant |
| `MemoryRuns.StepKeepsGood` | kern/pmap.c:365-579 | every allocate, free, walk, insert, remove, environment creation and teardown, user store and boot mapping keeps the invariant |
| `MemoryRuns.RunKeepsGood` | kern/pmap.c:365-579 | every run of legal steps, in any order and of any length, can be carried out and ends in a good state |
| `MemoryRuns.GoodMeans` | inc/memlayout.h:173-188 | in a good state the kernel has not panicked, the free list is acyclic and duplicate free, every pp_ref is its pin or directory reference plus the counted entries, nothing references a free page |
| `MemoryRuns.WorldUnique` | kern/pmap.c:365-579 | the free list and the owners of page tables can be read off memory in one way only |
| `MemoryEffects.AllocEffect` | kern/pmap.c:365-379 | page_alloc takes the first free page, clears it if asked, and touches no other memory |
| `MemoryEffects.FreeEffect` | kern/pmap.c:385-396 | page_free puts the page first and touches no memory |
| `MemoryEffects.WalkEffect` | kern/pmap.c:431-453 | pgdir_walk leaves a page table unless memory is exhausted, and changes no map |
| `MemoryEffects.InsertEffect` | kern/pmap.c:506-522 | page_insert updates the map of one address space and no other |
| `MemoryEffects.RemoveEffect` | kern/pmap.c:567-579 | page_remove removes from the map of one address space and no other |
| `MemoryEffects.CreateEffect` | kern/env.c:165-200 | a new address space takes the first free page as its directory and maps nothing |
| `MemoryEffects.DestroyEffect` | kern/env.c:402-450 | after env_free every user slot of the directory is empty and the other maps are unchanged |
| `MemoryEffects.StoreEffect` | kern/pmap.c:438-448 | a user store changes exactly the word it reaches, if the rights allow it |
| `MemoryEffects.BootMapEffect` | kern/pmap.c:466-479 | boot_map_region changes exactly the translations asked for |
| `MemoryRuns.DoubleFree` | kern/pmap.c:385-396 | freeing a free page panics if and only if it is not the last of the list; for the last one no acyclic list is left |
| `Boot.InitFreeList` | kern/pmap.c:317-348 | page_init links exactly the unreserved pages and gives each reserved page one reference |
| `Boot.InitExact` | kern/pmap.c:317-348 | a page is free after page_init if and only if it is not page 0 and lies in base memory, below the I/O hole, or beyond both 1 MB and the kernel's own allocations; the others have one reference |
| `Boot.KernelIsReserved` | kern/pmap.c:335-346 | with base memory below 1 MB, extended memory is free exactly from the end of boot_alloc's allocations on |
| `Boot.IoHoleReserved` | kern/pmap.c:323-334 | the I/O hole stays off the free list if and only if base memory does not reach into it |
| `Boot.EntryPageIsFree` | kern/pmap.c:290-328 | page 0 is never free, the other CPUs' entry page always is |
| `Boot.EveryRunFromBoot` | kern/pmap.c:287-351 | from the state page_init leaves, every legal run keeps the invariant |
| `KernelMemory.Memory.constructor` | kern/pmap.c:287-351 | the page_init loop computes the specified array and list head, with a zero count exactly on the pages named by `Boot.InitExact` |
| `KernelMemory.Memory.PageAlloc` | kern/pmap.c:365-379 | in place, equal to the transition function of page_alloc |
| `KernelMemory.Memory.PageFree` | kern/pmap.c:385-396 | in place, equal to the transition function of page_free, panic included |
| `KernelMemory.Memory.PageDecref` | kern/pmap.c:402-407 | in place, equal to the transition function of page_decref with its 16-bit decrement |
| `KernelMemory.Memory.PgdirWalk` | kern/pmap.c:431-453 | in place, equal to the transition function of pgdir_walk |
| `KernelMemory.Memory.PageLookup` | kern/pmap.c:535-550 | in place, equal to the specification of page_lookup; only a bad entry panics |
| `KernelMemory.Memory.PageRemove` | kern/pmap.c:567-579 | in place, equal to the transition function of page_remove |
| `KernelMemory.Memory.PageInsert` | kern/pmap.c:506-522 | in place, equal to the transition function of page_insert: increment, then remove, then write |
| `KernelMemory.Memory.BootMapRegion` | kern/pmap.c:466-479 | the loop equals the transition function of boot_map_region |
| `KernelMemory.Memory.EnvSetupVm` | kern/env.c:165-200 | in place, equal to the transition function of env_setup_vm |
| `KernelMemory.Memory.EnvFree` | kern/env.c:418-444 | the outer loop of env_free and the release of the directory equal the teardown function |
| `KernelMemory.Memory.FreeTable` | kern/env.c:420-439 | one round of the outer loop equals the teardown of one page table |
| `KernelMemory.Memory.EmptyTable` | kern/env.c:430-434 | the inner loop of env_free equals its transition function |
| `KernelMemory.Memory.RegionAlloc` | kern/env.c:281-297 | the loop equals the transition function of region_alloc, with the result of page_insert dropped |
| `KernelMemory.Memory.LoadIcode` | kern/env.c:321-380 | the loop over program headers and the stack page equal the transition function of load_icode |
| `KernelMemory.Memory.MoveLowPagesFirst` | kern/pmap.c:701-717 | the two-tail-pointer loop leaves a proper free list: the old pages of the first 4 MB in their old order, then the others in theirs, also when a class is empty; an empty list panics |
| `Partition.Append` | kern/pmap.c:709-713 | one round of that loop extends the right one of the two partial lists and leaves the rest of the old list walkable |
| `Partition.HighIsBeyond4MB` | kern/pmap.c:697-710 | the pages moved to the back are those beyond the first 4 MB |
| `Partition.Join` | kern/pmap.c:714-716 | closing the high list and hanging it on the low one gives the partitioned free list with all counts unchanged |
| `Loader.AllocPagesSpace` | kern/env.c:281-297 | with a free page for each new page and each missing page table, region_alloc takes exactly these, maps every page present, user and writable, keeps the invariant, and changes no other page, neither entry nor contents, of any address space |
| `Loader.StoreBytesSpace` | kern/env.c:369-370 | memcpy or memset into loaded pages makes exactly those bytes readable at those addresses and changes no other byte of any address space below UTOP |
| `Loader.LoadSegmentSpace` | kern/env.c:366-372 | one loadable segment, with a free page for each of its pages and missing page tables, reads back as its file bytes followed by zeros; other header types change nothing |
| `Loader.LoadIcodeReadsBack` | kern/env.c:321-380 | load_icode into an empty space, for page-disjoint segments below UTOP off the stack page, with a free page for each page and each page table to be made: no panic, invariant kept, every segment reads back as file bytes then zeros, the stack page is user-writable, nothing else is mapped, every other address space keeps every byte |
| `ShortMemory.AllocPageSilent` | kern/env.c:293-295 | with one page left and no page table for the address, a round of region_alloc neither panics nor maps anything, and the page is lost: off the list, unreferenced, named by no entry |
| `ShortMemory.AllocPagesExact` | kern/env.c:279-297 | region_alloc maps all its pages if and only if there is a free page for each of them and each page table to be made; otherwise it panics, except when exactly one page is missing and the last page needs a page table |
| `ShortMemory.LoadIcodeExact` | kern/env.c:321-380 | load_icode returns with a stack page if and only if memory suffices; otherwise it panics, except when exactly one page is missing and the stack page needs a page table of its own |
| `Bytes.SetThenGet` | lib/string.c:142-169 | storing one byte of a word in memory changes that byte and no other |
| `Hardware.UvptReadsPte` | inc/memlayout.h:150-165 | walking UVPT + 4n reaches the page table entry of page n whenever its table is present |
| `Hardware.UvpdReadsPde` | lib/entry.S:11-14 | walking UVPT + (UVPT >> 12) * 4 + 4i reaches entry i of the directory in force |
| `Hardware.UvpdCommentReads` | inc/memlayout.h:160-162 | the address the comment gives reaches entry 256 of the page table in directory slot 239 if that is present, and nothing otherwise |
| `Hardware.UserWritesDataOnly` | kern/env.c:195-197 | whatever address the two-level rights let user code write lies below UTOP and in a data page that is not free |
| `Hardware.UserStoreIsSafe` | kern/pmap.c:438-448 | no user store can disturb the free list, a count or any translation of any directory |
| `Hardware.UserMemCheck` | kern/pmap.c:648-666 | accepts exactly when every page it visits passes and otherwise records the lowest failing address; on a non-empty range without wrap that is every byte, on an empty one the page of va unless va is aligned, on a wrapping one the page of va or nothing |
| `Hardware.WrapFacts` | kern/pmap.c:652-656 | which page, if any, the loop visits in a range that wraps |
| `Hardware.VerdictExact` | kern/pmap.c:648-666 | the verdict equals the test of every byte of the range, modulo 2^32, if and only if the range does not wrap, or wraps and the one page looked at fails; for an empty range, if it is aligned, wraps or its page passes |
| `Hardware.WholeSpaceAccepted` | kern/pmap.c:652-656 | a concrete range over the whole address space that is accepted after a test of one page |
| `Hardware.PteTestIsHardwareTest` | kern/pmap.c:653-662 | below UTOP the test of the PTE alone equals the two-level hardware test |
| `Hardware.PteTestAboveUtop` | kern/pmap.c:653-662 | between UTOP and UVPT the test of the PTE alone equals the two-level hardware test too |
| `Hardware.UvptTest` | kern/pmap.c:653-662 | in the UVPT window the hardware allows what the check allows, except writing, which the check accepts |
| `Hardware.NothingAboveUlim` | kern/pmap.c:658-658 | from the end of the UVPT window on the check refuses |
| `Tlb.QuietIsSafe` | kern/pmap.c:585-591 | steps that do not change the translations of the directory in CR3 keep the TLB consistent whenever the hardware fills it |
| `Tlb.RemoveIsSafe` | kern/pmap.c:567-591 | page_remove leaves no stale entry when CR3 and curenv agree as the kernel keeps them |
| `Tlb.RemoveUncovered` | kern/pmap.c:585-591 | with the page cached, page_remove is safe if and only if the test in tlb_invalidate covers the directory |
| `Tlb.InsertIsSafe` | kern/pmap.c:506-522 | page_insert keeps the TLB consistent whatever the hardware caches between its steps, and its steps end in the memory page_insert leaves, also when it replaces a page |
| `Tlb.LoadIsSafe` | kern/env.c:529-536 | loading CR3, as env_run and sched_halt do last, makes the TLB consistent whatever it held |
| `Tlb.EnvFreeIsSafe` | kern/env.c:402-450 | env_free, taken store by store, keeps the TLB consistent, ends in the memory env_free leaves, and CR3 does not hold the freed directory afterwards |
| `LoaderTlb.RegionLeads` | kern/env.c:281-297 | region_alloc keeps the TLB consistent after each of its memory writes, with any directory in CR3 |
| `LoaderTlb.SegmentLeads` | kern/env.c:366-372 | loading a segment through its own directory keeps the TLB consistent after each of its memory writes, the stores included |
| `LoaderTlb.LoadIcodeIsSafe` | kern/env.c:358-380 | whenever load_icode returns, the TLB was consistent and CR3 held the new directory before and after every store, and at the return, after the move back to kern_pgdir and the insertion of the stack page, the TLB is consistent, whatever it held at the call |
| `Environments.NextIdCounts` | kern/env.c:224-228 | the 32-bit id computation yields the next generation of the slot, wrapping past the sign bit back to the first |
| `Environments.IdRepeats` | kern/env.c:224-228 | two allocations of a slot carry the same id exactly when they are a multiple of 2^19 - 1 apart |
| `Environments.AllocKeepsTable` | kern/env.c:210-270 | env_alloc takes the first free slot and keeps the slot list, statuses and ids consistent |
| `Environments.FreeKeepsTable` | kern/env.c:446-449 | env_free puts the slot at the head of the list and keeps the table consistent |
| `Environments.LiveIds` | kern/env.c:75-109 | live ids are positive and pairwise distinct, and their low bits are the slot |
| `Environments.StaleIdRefused` | kern/env.c:75-109 | envid2env accepts the id of a slot's a-th allocation exactly when the slot is live and has been allocated a multiple of 2^19 - 1 further times |
| `KernelRuns.RunCounts` | kern/env.c:210-270 | over every run a slot's allocation count grows by exactly the number of environment creations that took the slot |
| `KernelRuns.IdOverRuns` | kern/env.c:75-109 | over every run, an id issued before is accepted afterwards if and only if its slot is live and the run has allocated the slot a multiple of 2^19 - 1 times |
| `Environments.CheckedLookup` | kern/env.c:97-106 | with checkperm a nonzero id succeeds exactly for the caller itself and its live children |
| `Environments.ZeroIsSelf` | kern/env.c:80-84 | id 0 finds what the caller's own id finds |
| `Environments.CreatorMayUse` | kern/env.c:224-235 | a new environment is found by its id, and its creator has permission on it |
| `EnvTable.Envs.constructor` | kern/env.c:117-131 | env_init leaves every slot free, with id 0, in slot order |
| `EnvTable.Envs.EnvAlloc` | kern/env.c:210-270 | fails with -E_NO_FREE_ENV or -E_NO_MEM changing nothing, otherwise takes the first slot and the new directory |
| `EnvTable.Envs.EnvFree` | kern/env.c:402-450 | tears down the address space and frees the slot |
| `EnvTable.Envs.EnvId2EnvStore` | kern/env.c:75-109 | computes the specified lookup, error cases included |
| `KernelRuns.EnvRunExact` | kern/env.c:507-537 | env_run keeps the CPU invariant if and only if it does not switch away from a DYING environment |
| `KernelRuns.DestroyExact` | kern/env.c:458-474 | env_destroy keeps the CPU invariant if and only if its target is not already DYING |
| `KernelRuns.HaltExact` | kern/sched.c:59-71 | sched_halt keeps the CPU invariant if and only if no environment is current on its CPU |
| `KernelRuns.StepIsSafe` | kern/env.c:402-474 | every step of any CPU keeps memory, table, directories and CPUs consistent |
| `KernelRuns.EveryRunIsSafe` | kern/trap.c:263-319 | in every run every RUNNING or DYING environment is curenv of exactly one CPU, the environment free list is exactly the FREE slots, page counts stay exact |
| `KernelRuns.EveryRunFromBoot` | kern/env.c:117-131 | the state after page_init and env_init is good, and so is every state a run from it reaches |
| `KernelRuns.ZombieStep` | kern/trap.c:288-295 | a DYING environment stays as it is until its own CPU traps, and that trap frees it |
| `KernelRuns.ZombieWaitsForItsTrap` | kern/trap.c:288-295 | the same over runs of any length |
| `KernelRuns.NeverFreedUnderAnotherCpu` | kern/env.c:458-474 | no step of one CPU frees an environment that another CPU has as curenv |
| `KernelEffects.RunEffect` | kern/env.c:507-537 | after env_run the environment is RUNNING and curenv, the one displaced is RUNNABLE, and nothing else has changed |
| `KernelEffects.DisplacedCanResume` | kern/env.c:529-531 | the environment switched away from can be resumed by any CPU that next enters the kernel |
| `KernelEffects.EnterEffect` | kern/trap.c:283-295 | a trap takes the lock and changes nothing else, unless curenv is a zombie, which is freed |
| `KernelEffects.DestroyEffect` | kern/env.c:458-474 | a target running elsewhere becomes DYING and nothing else changes; any other is FREE at once, first on the list, and no longer curenv |
| `KernelEffects.CreateEffect` | kern/env.c:210-270 | the first slot becomes RUNNABLE with its parent and directory, or nothing changes |
| `KernelEffects.CreateMemory` | kern/env.c:210-222 | the directory is the one the memory system's step provides |
| `KernelEffects.HaltEffect` | kern/sched.c:59-69 | an idle CPU's sched_halt only releases the lock |
| `KernelEffects.MemoryEffect` | kern/pmap.c:365-579 | a memory operation changes memory alone |
| `Sieve.StepInv` | user/primes.c:13-52 | every rendezvous and every fork keeps the pipeline invariant |
| `Sieve.RunInv` | user/primes.c:13-52 | the invariant holds after any interleaving |
| `Sieve.SievePrintsThePrimes` | user/primes.c:13-52 | under any interleaving the values fetched at `top` are in process order exactly an initial segment of the primes, and a number in flight past stage k is divisible by none of the first k primes |
| `Sieve.NextPrime` | user/primes.c:19-21 | the least number from 2 on that the first primes do not divide is the next prime |
| `Sieve.StepChanges` | user/primes.c:13-52 | every step changes the state: a number is sent on or the chain grows |
| `Sieve.NeverStuck` | lib/ipc.c:26-35 | the chain never deadlocks: a step that changes the state is always possible |
| `SieveProgress.Progress` | user/primes.c:13-52 | from every state of every run there is a run after which one more prime has been fetched |
| `SieveProgress.FetchesEveryPrime` | user/primes.c:13-52 | for every n some run fetches exactly the first n primes |
| `SieveProgress.Survivor` | user/primes.c:49-51 | the generator always reaches a number that no fetched prime divides |
| `Spinlock.StepInv` | kern/spinlock.c:60-116 | every atomic step of any CPU keeps the lock invariant |
| `Spinlock.RunInv` | kern/spinlock.c:60-116 | the invariant holds after any interleaving |
| `Spinlock.MutualExclusion` | kern/spinlock.c:60-116 | at most one CPU is between its winning and its releasing exchange, lk->cpu is null or that CPU, and only that CPU reaches the release |
| `Spinlock.HoldingIsExact` | kern/spinlock.c:39-43 | although holding() reads two fields at different times, spin_lock panics exactly when the caller holds the lock and spin_unlock exactly when it does not |
| `Spinlock.SpinTakesFreeLock` | kern/spinlock.c:68-72 | the exchange takes a free lock at once and leaves a taken one alone |
| `Spinlock.LockThenUnlock` | kern/spinlock.c:60-116 | undisturbed, spin_lock on a free lock takes it and records the CPU, and spin_unlock restores the state before |
| `Stabs.StabBinsearch` | kern/kdebug.c:59-103 | the loops terminate on every table and every range and compute the specified result |
| `Stabs.ScanDown` | kern/kdebug.c:68-70 | the inner scan finds the last entry of the wanted type at or below its start |
| `Stabs.RoundProgress` | kern/kdebug.c:65-91 | every round shrinks the range, or leaves it and is followed by one that shrinks it |
| `Stabs.SearchExact` | kern/kdebug.c:59-103 | on a range in address order the result is that of a linear scan if and only if an exact hit, if any, happens with addr + 1 not wrapping and no entry at addr + 1 left in the range, or the hit is of 2^32 - 2 and the wrap of addr undoes its effect |
| `Stabs.SearchIsLinearScan` | kern/kdebug.c:59-103 | in particular it is when no entry lies at addr, or none at addr + 1 and addr is below 2^32 - 1 |
| `Stabs.NeighbourCounterexample` | kern/kdebug.c:84-90 | a two-entry table on which the entry at addr + 1 is returned instead |
| `Stabs.NeighbourHarmless` | kern/kdebug.c:84-90 | the same two entries before a third, where the answer is right |
| `Stabs.NotContainedIsNotMarked` | kern/kdebug.c:40-44 | a table in which no entry contains the address and yet left is not above right |
| `Blocks.MemMove` | lib/string.c:142-169 | for every overlap and on all four paths the destination ends up as the old source and everything else is unchanged |
| `Blocks.MemSet` | lib/string.c:122-139 | the replicated-word path and the byte path both store the low byte of c, n times, and nothing else |
| `Blocks.MoveWordsUp` | lib/string.c:161-163 | the ascending word copy equals a simultaneous copy for the overlaps it is used on |
| `Blocks.MoveWordsDown` | lib/string.c:152-154 | the descending word copy equals a simultaneous copy for the overlaps it is used on |
| `Blocks.WordBytes` | lib/string.c:128-133 | a little-endian word comes apart into the bytes it was made of |
| `Numbers.PrintNumIsPadded` | lib/printfmt.c:37-52 | printnum emits the digits, padded on the left to max(width, number of digits) characters |
| `Numbers.StrToL` | lib/string.c:239-284 | the loops compute the specified value in 32-bit wrap-around and the end position |
| `Numbers.PrintThenParse` | lib/string.c:239-284 | strtol reads back every number below 2^31 in base 8, 10 or 16, padded with spaces or zeros to any width, and stops at the end |
| `Numbers.NegativeRoundTrip` | lib/printfmt.c:192-200 | a negative decimal, down to -2^31, is read back if and only if no space lies between the sign and the digits |
| `Numerals.ReadsHex` | lib/string.c:255-257 | after an optional sign "0x" is skipped in base 0 and 16 and the rest read in base 16 |
| `Numerals.ReadsOctal` | lib/string.c:258-259 | in base 0 a leading zero means base 8 |
| `Numerals.ReadsDecimal` | lib/string.c:260-261 | in base 0 any other numeral is decimal |
| `Numerals.UpperCase` | lib/string.c:267-276 | capital letters are the same digits |
| `Numerals.LetterValue` | lib/string.c:269-272 | the letters stand for 10 to 35 in either case |
| `Numerals.DigitExact` | lib/string.c:267-276 | the digits of a base are its first figures and letters and no more |
| `Numerals.StopsAtNonDigit` | lib/string.c:264-282 | strtol stops at the first character that is no digit of the base and returns the number before it |
| `Numerals.CapitalHexReadsBack` | lib/string.c:239-284 | a number below 2^31 written in capitals after "0x" is read back in base 0 and 16 |
| `Printf.TakeFlag` | lib/printfmt.c:106-158 | one flag character, or a number read figure by figure, has the specified effect |
| `Printf.ReadFlags` | lib/printfmt.c:106-158 | the flag loop stops at the first character that is no flag, at or before the terminating NUL |
| `Printf.PrintText` | lib/printfmt.c:176-190 | the three loops of %s print the padding, the characters up to the precision and the padding on the right |
| `Printf.StrNLen` | lib/string.c:21-29 | the smaller of the length and the bound |
| `Printf.BackUp` | lib/printfmt.c:241-246 | the rollback of an unknown escape ends just after its percent sign |
| `Printf.VPrintFmt` | lib/printfmt.c:84-249 | the cursor never passes the NUL, every round makes progress, and the characters emitted are exactly the specified stream |
| `Printf.PrintQuoted` | lib/printfmt.c:236-239 | a text whose percent signs are doubled prints as itself, whatever the arguments |
| `Printf.UnknownEscapeIsLiteral` | lib/printfmt.c:241-248 | an unknown escape is printed literally and printing goes on at the unknown character |
| `PrintfLaws.UnsignedDenotes` | lib/printfmt.c:202-233 | %u, %o and %x print the argument modulo 2^32, with ll modulo 2^64, in base 10, 8 and 16 |
| `PrintfLaws.UnsignedReadsBack` | lib/printfmt.c:202-233 | what they print of a number below 2^31, strtol reads back |
| `PrintfLaws.DecimalReadsBack` | lib/printfmt.c:192-200 | what %d prints of any number, taken as 32-bit int, strtol reads back |
| `PrintfLaws.LongDecimalDenotes` | lib/printfmt.c:192-200 | %lld prints every 64-bit number: sign and magnitude |
| `PrintfLaws.PointerReadsBack` | lib/printfmt.c:218-226 | %p prints "0x" and the value, which strtol reads back in base 16 and in base 0 |
| `PrintfLaws.CharacterPrints` | lib/printfmt.c:160-163 | %c prints the one character |
| `PrintfLaws.StringPrints` | lib/printfmt.c:176-190 | %s prints the string, or "(null)" |
| `PrintfLaws.AlternatePrints` | lib/printfmt.c:183-187 | with # characters that do not print show as question marks |
| `PrintfLaws.NumberField` | lib/printfmt.c:109-158 | a number in a field: padded on the left with spaces or zeros to the width written in the format, and read back |
| `PrintfLaws.TextField` | lib/printfmt.c:109-190 | a string with width and precision: cut, and placed to the right, to the left or zero-filled |
| `PrintfLaws.StarWidth` | lib/printfmt.c:137-153 | a width given by * is taken from the arguments |
| `PrintfLaws.PlainWidth` | lib/printfmt.c:119-153 | a width written out has the same effect |
| `PrintfLaws.PrecisionOnly` | lib/printfmt.c:141-153 | a precision without a width cuts and does not pad |
| `PrintfLaws.ErrorName` | lib/printfmt.c:165-174 | %e names the error, whichever sign its code has |
| `PrintfLaws.OtherError` | lib/printfmt.c:165-174 | %e prints codes without a name as numbers |
| `Printf.SprintBuf.Putch` | lib/printfmt.c:267-273 | one character is counted, and stored only if there is room |
| `Printf.VsnPrintf` | lib/printfmt.c:275-290 | stores the first min(n - 1, total) characters of the stream and a NUL, leaves the rest of the buffer alone, returns total, refuses n < 1 |
| `Printf.PrintBuf.Putch` | lib/printf.c:26-35 | one character is appended and counted, and the buffer is flushed when it reaches 255 |
| `Printf.VcPrintf` | lib/printf.c:37-48 | the chunks concatenate to the same stream, all but the last 255 characters long, and the count is its length |

## Left out

- Loader.LoadIcodeReadsBack: the parsing of the ELF header, and env_tf with its entry point, are not modelled; the image is a value that loading does not overlap, and segments are page-disjoint as the comment assumes.
- KernelRuns.EveryRunIsSafe: each kernel entry is one step under the big kernel lock; trap's own acquisition of that lock from user mode is not implemented in the source, and sched_halt is taken only when the CPU has no current environment, since it would otherwise leave a RUNNING environment without a CPU.
- Tlb.EnvFreeIsSafe: one CPU, mappings below UTOP; there is no code for TLB shootdown on other CPUs, and paging-structure caches and the accessed and dirty bits are not modelled.
- Sieve.SievePrintsThePrimes: fork, ipc_send and ipc_recv are unimplemented and taken as the rendezvous their comments describe; the limit on environments and the overflow of int are not modelled.
- Spinlock.MutualExclusion: the recorded call stack (lk->pcs) and the pause instruction are not modelled.
- Printf.VPrintFmt: arguments are a sequence of typed values; reading past them or at the wrong type gives a fixed value, and the overflow of width and precision, and %e of the most negative int, are not modelled.
- Blocks.MemMove: memory is one array without address wrap; the plain byte loops of the second definition in lib/string.c:173-205 compute the same function.
- Numbers.StrToL: signed overflow is wrap-around, as the compiled code does it.
- mem_init, mmio_map_region, mem_init_mp: the kernel's own layout is incomplete in the source, so no claim is made about it.
- System calls, fork, ipc, page-fault upcalls and sched_yield: unimplemented in the source.
- debuginfo_eip beyond stab_binsearch: linker symbols and string tables.
- kern/printf.c: its putch moves the pointer instead of counting, so the kernel's cprintf returns no count.
- Trap frames, segment registers, interrupt dispatch and the return to user mode: env_run and trap are modelled by what they do to statuses, curenv and CR3.
- Devices, the boot loader, kern/mpconfig.c, kern/monitor.c, lib/readline.c and the remaining user programs.
- The other string functions: strlen, strcpy, strcat, strncpy, strlcpy, strcmp, strncmp, strchr, strfind, memcmp and memfind.
