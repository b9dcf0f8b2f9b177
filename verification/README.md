# A verified model of the MIPS32 emulator and the ucore kernel

The repository holds a MIPS32 emulator (`src/`) and the ucore teaching kernel that runs on it (`ucore_OS/`). This
project models the parts of both where state is subtle and proves what they keep over every run. `dafny verify
dfyconfig.toml` checks it.

Code that changes state in place is a class or a method with loops, proved against functions on values; what the system
promises is then proved about those functions, step by step and over whole runs. Protocols between processes are state
machines over their atomic steps, for any number of processes and every interleaving.

| files | part of the system |
|---|---|
| `PageWords`, `Tlb`, `TlbSession`, `TlbManager` | software-managed TLB: `kern/mm/tlb.c`, and the lookup of `src/mmu.h` |
| `Mips`, `MipsInstructions` | one step of the emulator; the encoding and meaning of its instructions |
| `MipsFaults`, `MipsRestart`, `DemandPaging` | what a fault reports, precise restart, and emulator and kernel together on a TLB miss |
| `Emulator` | the same step on registers, CP0, TLB and memory in arrays |
| `Monitor`, `Philosophers` | semaphores, Hoare monitors, and the dining philosophers built on them |
| `LinkedList`, `FirstFit`, `Slob` | `list.h` rings, the first-fit page allocator, the SLOB allocator behind `kmalloc` |
| `PageRefs` | page tables and frame reference counts, range operations and `copy_range` |
| `Processes`, `Pids`, `ProcessPids` | process tree, fork, exit, wait and kill; `get_pid`; both together |
| `Scheduler`, `Timers` | round robin; the timer delta list |
| `Numbers` | `do_div`, number printing and `strtol` |
| `DiskBlocks`, `Bitmap`, `Sfs`, `SfsIo` | the SFS disk, freemap, block map and file I/O |
| `Mksfs` | the image builder, and what the kernel finds on an image it has written |
| `Counting` | facts about sequences and finite sets used by the others |

Some things the code promises or suggests do not hold always. Each is kept as the code has it, with the exact condition
under which it holds and an input at which it does not:

- `load_pgdir` and leftover TLB_P bits: `TlbSession.LoadPgdirCoherentIff`, `TlbSession.LeftoverBitBreaksCoherence`
- the miss handler after a page fault that found no frame: `TlbSession.HandleMissPresenceIff`,
  `TlbSession.NoFrameBreaksPresence`
- linking a region without merging: `FreeBlocks.InsertCoalescedIff`, `FirstFit.Manager.InitMemmap`,
  `FreeBlocks.TouchingRegionNotMerged`
- a SLOB list that is down to one entry: `Slob.CutKeepsListIff`, `Slob.ZeroSizeBreaksList`
- `exit_range` on tables still in use: `PageTables.DropTableIff`, `PageRanges.Spaces.ExitRange`,
  `PageTables.DropTableLosesUser`
- `%x` and `%o` read back as signed: `Numbers.UnsignedRoundTripIff`, `Numbers.AllOnesReadBackNegative`
- `do_div` of large numbers and by other bases: `Numbers.DivideByTen`, `Numbers.DoDiv`, `Numbers.FirstWrongEstimate`
- several whole blocks in one SFS request: `SfsIo.WholeBlocksIff`, `SfsIo.WholeBlocksWriteIff`,
  `SfsIo.SwappedBlocksMisread`
- files of an image the kernel can read: `Mksfs.ReadFile`, `Mksfs.OneBlockTooMany`
- a file that cannot grow to its new size: `Sfs.FileSystem.Truncfile`, `Sfs.GrowthRunsOut`

Where the code departs from its comments or from the MIPS32 manual the model follows the code: branches have no delay
slot, `mult` multiplies zero-extended operands, `sltiu` zero-extends its immediate, and `do_pgfault` reports success even
when no page could be allocated.

What comes from outside is a parameter: the outcome of `do_pgfault`, the page `__slob_get_free_page` returns, whether
`do_fork` finds memory, the kernel's own part of memory, the bytes of ROM, flash and serial input, and the order in which
processes run.

## Model

| member | source | states |
|---|---|---|
| `TlbSession.SessionCoherent` | ucore_OS/kern/mm/tlb.c:20-147 | From `load_pgdir` of a directory no entry of which carries TLB_P, every run of loads, stores, misses, evictions, page faults, `tlb_invalidate`, `page_insert` and `page_remove` keeps: a PTE has TLB_P iff slot TLBIDX(pte) holds its page pair with exactly ENTRYLO(pte) in its half, used slots and the free-slot stack partition the 16 slots, and no two used slots hold the same pair |
| `TlbSession.SessionTranslates` | src/mmu.h:142-193 | At every point of such a run, when the emulator's lookup hits a mapped address it returns the page-table walk's physical address, and lets a write through only if the PTE has PTE_W; TLB Modified means a write to a present read-only page |
| `TlbSession.TlbDoesNotShow` | ucore_OS/kern/mm/tlb.c:20-147 | The TLB does not show: at every point of such a session a lookup that hits goes where a plain list of the pages mapped so far says, to which misses, evictions and invalidations do nothing; writes and TLB Modified likewise |
| `TlbSession.RetryHits` | ucore_OS/kern/mm/tlb.c:28-80 | After `tlb_miss_handler` for an address the first retry cannot miss: it reaches the walk's own frame, or raises TLB Modified exactly for a write to a page without PTE_W |
| `TlbSession.HandleMissWalk` | ucore_OS/kern/mm/tlb.c:28-80 | What the miss handler does to the meaning of every address: a page that was absent is mapped to the frame and permission the page fault granted, a page that was present keeps both, and no other address changes |
| `TlbSession.LoadPgdirCoherentIff` | ucore_OS/kern/mm/tlb.c:82-86 | `load_pgdir` does not clear TLB_P, so the state it leaves is coherent if and only if no entry of the directory carried the bit |
| `TlbSession.LeftoverBitBreaksCoherence` | ucore_OS/kern/mm/tlb.c:82-86 | A concrete directory with one leftover TLB_P bit breaks coherence at `load_pgdir` |
| `TlbSession.HandleMissPresenceIff` | ucore_OS/kern/mm/tlb.c:34-79 | The miss handler keeps "only present entries are cached" if and only if it does not go on after a `do_pgfault` that returned success without a frame; that case, which can arise only while swap is off, installs an absent entry |
| `TlbSession.NoFrameBreaksPresence` | ucore_OS/kern/mm/tlb.c:34-79 | On an empty page directory a page fault that finds no frame leaves page 1 cached though it is not present |
| `TlbSession.HandleMissCoherent` | ucore_OS/kern/mm/tlb.c:28-80 | Every outcome of the miss handler (page present, page fault that maps a fresh or swapped-in page, that finds no frame, that fails) keeps coherence |
| `TlbSession.TranslateAgrees` | src/mmu.h:142-193 | In a coherent state the lookup is decided by the page table alone: a miss for an uncached page, Modified for a write to a read-only cached page, and the PTE's own target otherwise |
| `TlbSession.CoherentMirrors` | ucore_OS/kern/mm/tlb.c:28-112 | In a coherent state every slot mirrors the table, in both directions: a valid half is the ENTRYLO of a cached PTE of that page, and a half of an uncached page is invalid |
| `TlbSession.MaintenanceTransparent` | ucore_OS/kern/mm/tlb.c:28-112 | Neither a refill nor an invalidation changes the meaning of any address under the page-table walk |
| `TlbSession.PageInsertCoherent` | ucore_OS/kern/mm/pmm.c:454-472 | `page_insert` keeps coherence, writes exactly the requested PTE without TLB bits, and leaves every other PTE as it was |
| `TlbSession.PageInsertWalk` | ucore_OS/kern/mm/pmm.c:454-472 | `page_insert` maps that page to that frame with that permission, and changes the meaning of no other address |
| `TlbSession.RemovePteWalk` | ucore_OS/kern/mm/pmm.c:438-443 | `page_remove` leaves that page unmapped, and changes the meaning of no other address |
| `TlbSession.DoCoherent` | ucore_OS/kern/mm/tlb.c:28-112 | Each single step of a session keeps coherence |
| `TlbSession.RunCoherent` | ucore_OS/kern/mm/tlb.c:28-112 | Coherence over whole runs from any coherent state |
| `TlbSession.RunPresence` | ucore_OS/kern/mm/tlb.c:28-80 | Over every run whose page faults are backed by a frame, only present entries are ever cached |
| `TlbModel.InsertPageCoherent` | ucore_OS/kern/mm/tlb.c:65-79 | The refill keeps coherence in all three cases: the pair already has a slot, a free slot is popped, or a slot is evicted |
| `TlbModel.FreshCoherent` | ucore_OS/kern/mm/tlb.c:70-79 | A page neither cached nor paired with a cached page gets a slot of its own and the state stays coherent |
| `TlbModel.TakeSlotCoherent` | ucore_OS/kern/mm/tlb.c:125-142 | The slot `tlb_get_empty` returns holds nothing any more, is not on the free stack, and no other slot was disturbed |
| `TlbModel.EvictionsInTurn` | ucore_OS/kern/mm/tlb.c:125-142 | Free slots are used up first; after that every slot is evicted once before any is evicted again |
| `TlbModel.InvalidateCoherent` | ucore_OS/kern/mm/tlb.c:91-112 | `tlb_invalidate` keeps coherence, never overflows the free-slot stack, and leaves the page uncached |
| `TlbModel.FirstMatchIsFirst` | src/mmu.h:152-155 | The lookup loop stops at the first slot whose VPN2 matches, and at none if there is none |
| `PageWords.EntryLoFacts` | ucore_OS/kern/mm/tlb.h:25-28 | What the emulator decodes from ENTRYLO(pte) is valid, dirty iff PTE_W, and points at the PTE's own frame |
| `PageWords.KeyMatches` | src/mmu.h:152-155 | A key matches an address only if it is that address's EntryHi; ENTRYHI_INVALID matches no mapped address |
| `PageWords.UncacheFacts` | ucore_OS/kern/mm/tlb.c:111 | Clearing TLB_P changes neither frame nor permissions |
| `PageWords.RecacheFacts` | ucore_OS/kern/mm/tlb.c:78 | Setting TLB_P and the slot index is read back by TLBIDX and changes neither frame, permissions nor ENTRYLO |
| `TlbManager.Manager.constructor` | ucore_OS/kern/mm/tlb.c:20-26 | After initialisation the state is what `load_pgdir` specifies |
| `TlbManager.Manager.Load` | ucore_OS/kern/mm/tlb.c:83-86 | Array version of `load_pgdir`: all slots invalid, all on the free stack, equal to the specification state |
| `TlbManager.Manager.Write` | ucore_OS/kern/mm/tlb.c:149-157 | `tlb_write` changes exactly one slot |
| `TlbManager.Manager.GetEmpty` | ucore_OS/kern/mm/tlb.c:125-142 | The array version pops or evicts the very slot of the specification and records its key |
| `TlbManager.Manager.Refill` | ucore_OS/kern/mm/tlb.c:60-79 | The array version of the refill reaches exactly the specification state |
| `TlbManager.Manager.Invalidate` | ucore_OS/kern/mm/tlb.c:91-112 | The array version of `tlb_invalidate` reaches exactly the specification state |
| `TlbManager.Manager.AddrTranslate` | src/mmu.h:142-193 | The lookup loop over the TLB arrays returns what the specification lookup returns |
| `Monitor.StepInv` | ucore_OS/kern/sync/monitor.c:27-72 | Every atomic step of every process (enter, leave, each line of `cond_signal` and `cond_wait`) keeps the monitor invariant, for any number of processes and condition variables |
| `Monitor.InitInv` | ucore_OS/kern/sync/monitor.c:9-23 | A fresh monitor satisfies the invariant |
| `Monitor.RunInv` | ucore_OS/kern/sync/monitor.c:27-72 | The invariant holds after every interleaving |
| `Monitor.OneToken` | ucore_OS/kern/sync/monitor.c:27-72 | Exactly one entry token exists over mutex, `next`, the condition semaphores, handed-off processes and active processes; so at most one process is active in the monitor |
| `Monitor.TokenNeverStranded` | ucore_OS/kern/sync/monitor.c:27-72 | Either the monitor is free, or some process can take the token, or its holder can move: the token is never stranded |
| `Monitor.NoLostSignal` | ucore_OS/kern/sync/monitor.c:27-72 | A unit on `next` or on a condition always has a process there to take it; `next_count` and every `count` equal the number of processes really inside `cond_signal` and `cond_wait` |
| `Monitor.StepEffect` | ucore_OS/kern/sync/monitor.c:27-72 | What one step does to each process and each condition: only the mover changes unless it wakes a sleeper, units on a condition come only from `up` in `cond_signal` and go only by `down` in `cond_wait`, and a signal always leaves a unit or rouses a waiter |
| `Semaphore.UnitsConserved` | ucore_OS/kern/sync/sem.c:16-76 | Over every run of up, down and try_down: value plus grants equals initial value plus ups, and no process ever sleeps while there is a unit |
| `Semaphore.WokenInTurn` | ucore_OS/kern/sync/sem.c:16-54 | Sleepers are woken in the order in which they went to sleep: the one at position k by the (k+1)-th up |
| `Semaphore.SharedSem.constructor` | ucore_OS/kern/sync/sem.c:11-14 | A new semaphore has its value and no sleepers |
| `Semaphore.SharedSem.WakeOrKeep` | ucore_OS/kern/sync/sem.c:16-30 | The in-place `__up` does exactly what the step function says and keeps value and sleepers exclusive |
| `Semaphore.SharedSem.PassOrSleep` | ucore_OS/kern/sync/sem.c:32-43 | The in-place `__down`, up to the call of schedule, likewise |
| `Semaphore.SharedSem.TryPass` | ucore_OS/kern/sync/sem.c:68-76 | The in-place `try_down` likewise; it never queues |
| `Philosophers.EveryRun` | ucore_OS/kern/sync/check_sync.c:110-154 | For every ring of two or more philosophers and every interleaving: neighbours are never both EATING, `phi_take_forks_condvar` is left only by an EATING philosopher, whenever the monitor is free every HUNGRY philosopher has an EATING neighbour, and as long as somebody is in a round, somebody in a round can move |
| `Philosophers.TakeForks` | ucore_OS/kern/sync/check_sync.c:121-137 | In every run, a philosopher that goes into the monitor thinking is HUNGRY on the way and EATING when it is next outside |
| `Philosophers.PutForks` | ucore_OS/kern/sync/check_sync.c:139-154 | In every run, a philosopher that goes into the monitor eating stops by a step of its own and is THINKING when it is next outside |
| `Philosophers.OutsideMood` | ucore_OS/kern/sync/check_sync.c:110-178 | Nobody is HUNGRY outside the monitor, so every round is one of the two |
| `Philosophers.AnyoneCanEat` | ucore_OS/kern/sync/check_sync.c:110-178 | Whenever everybody is between two rounds, anybody who goes on alone eats after seven steps |
| `Philosophers.StepInv` | ucore_OS/kern/sync/check_sync.c:110-154 | Every step of every philosopher keeps the invariant, which says among other things that a possible eater has been noticed by somebody who will test for it and that a sleeper made to eat has its wake-up on the way |
| `Philosophers.RunInv` | ucore_OS/kern/sync/check_sync.c:110-154 | The invariant after every run |
| `Philosophers.FreeMonitorFair` | ucore_OS/kern/sync/check_sync.c:110-154 | While the mutex is free every HUNGRY philosopher has an EATING neighbour |
| `Philosophers.NoDeadlock` | ucore_OS/kern/sync/check_sync.c:110-178 | As long as somebody is in a round, somebody in a round can move, even if all those between two rounds have stopped |
| `LinkedList.List.constructor` | ucore_OS/libs/list.h:41-43 | `list_init` gives an empty ring |
| `LinkedList.List.InsertAt` | ucore_OS/libs/list.h:142-146 | `__list_add` between two neighbours inserts the element at that place of the ring and keeps both link directions consistent |
| `LinkedList.List.AddBefore` | ucore_OS/libs/list.h:67-69 | `list_add_before` inserts just in front |
| `LinkedList.List.AddAfter` | ucore_OS/libs/list.h:54-56 | `list_add` inserts just behind |
| `LinkedList.List.Del` | ucore_OS/libs/list.h:92-94 | `list_del` takes out that element alone, and the removed element still points at its old neighbours |
| `FreeBlocks.UniqueList` | ucore_OS/kern/mm/default_pmm.c:62-163 | Two sorted, coalesced lists with the same free pages are equal: the free list is a function of the set of free pages |
| `FreeBlocks.FreeUndoesAlloc` | ucore_OS/kern/mm/default_pmm.c:103-163 | Freeing exactly what was allocated gives back the exact list, blocks and all |
| `FreeBlocks.FreesCommute` | ucore_OS/kern/mm/default_pmm.c:133-163 | The order in which two allocations are freed does not matter |
| `FreeBlocks.InsertCoalescedIff` | ucore_OS/kern/mm/default_pmm.c:88-100 | `default_init_memmap` links without merging: the list stays coalesced if and only if the new region touches no entry |
| `FreeBlocks.TouchingRegionNotMerged` | ucore_OS/kern/mm/default_pmm.c:88-100 | Page 1 handed over behind a free page 0 stays an entry of its own |
| `FreeBlocks.InsertFacts` | ucore_OS/kern/mm/default_pmm.c:63-79 | Linking a block in address order adds exactly its pages, and keeps the list coalesced if the block touches no entry |
| `FreeBlocks.CarveFacts` | ucore_OS/kern/mm/default_pmm.c:103-130 | Taking n pages off the front of an entry keeps the list coalesced and removes exactly those pages |
| `FreeBlocks.MergeTake` | ucore_OS/kern/mm/default_pmm.c:147-159 | Merging one adjacent entry, above or below, into the block being built loses no page |
| `FirstFit.Manager.constructor` | ucore_OS/kern/mm/default_pmm.c:82-85 | The empty free list, every page reserved |
| `FirstFit.Manager.FindAbove` | ucore_OS/kern/mm/default_pmm.c:64-75 | The search of `default_list_add` finds the place in address order |
| `FirstFit.Manager.ListAdd` | ucore_OS/kern/mm/default_pmm.c:63-79 | The block is linked in order, the free pages grow by exactly its pages, and the list stays coalesced if and only if the block touches no entry |
| `FirstFit.Manager.ResetPages` | ucore_OS/kern/mm/default_pmm.c:90-95 | The page loop clears flags and sizes of exactly the region |
| `FirstFit.Manager.InitMemmap` | ucore_OS/kern/mm/default_pmm.c:88-100 | The region, and nothing else, becomes free; the invariant (sorted, disjoint, coalesced, PageProperty exactly on heads, nr_free the total) survives if and only if the region touches no entry |
| `FirstFit.Manager.FindFit` | ucore_OS/kern/mm/default_pmm.c:108-116 | The search finds the first entry of at least n pages |
| `FirstFit.Manager.AllocPages` | ucore_OS/kern/mm/default_pmm.c:103-130 | NULL iff no block has n pages; otherwise the lowest block that fits is cut at its front, the pages returned were free and are no longer, and the invariant is kept |
| `FirstFit.Manager.Take` | ucore_OS/kern/mm/default_pmm.c:117-128 | The entry found is replaced by its remainder, or removed |
| `FirstFit.Manager.MergeUp` | ucore_OS/kern/mm/default_pmm.c:147-152 | An entry that begins where the block ends is swallowed |
| `FirstFit.Manager.MergeDown` | ucore_OS/kern/mm/default_pmm.c:153-159 | An entry that ends where the block begins becomes the head of the block |
| `FirstFit.Manager.Merge` | ucore_OS/kern/mm/default_pmm.c:143-160 | After the loop the block touches no entry any more, and no page was lost or gained |
| `FirstFit.Manager.FreePages` | ucore_OS/kern/mm/default_pmm.c:133-163 | Exactly the pages given back become free, and the list is coalesced again |
| `FirstFit.Manager.AllocThenFree` | ucore_OS/kern/mm/default_pmm.c:103-163 | Allocating and freeing restores the exact list and nr_free |
| `SlobRing.InsertCyclic` | ucore_OS/kern/mm/kmalloc.c:166-180 | Linking a block where the search stopped keeps the cyclic list in address order |
| `SlobRing.RemoveCyclic` | ucore_OS/kern/mm/kmalloc.c:123-124 | Unlinking an entry keeps the cyclic list in address order |
| `SlobRing.MoveCyclic` | ucore_OS/kern/mm/kmalloc.c:125-130 | Replacing an entry by its rest keeps the cyclic list in address order |
| `SlobRing.MergeAboveFacts` | ucore_OS/kern/mm/kmalloc.c:170-174 | Merging with the entry above loses no unit |
| `SlobRing.LinkBelowFacts` | ucore_OS/kern/mm/kmalloc.c:176-180 | Merging with or linking behind the entry below leaves a coalesced list of exactly the old units and the new |
| `Slob.SearchStops` | ucore_OS/kern/mm/kmalloc.c:166-168 | The two exit tests of the search in `slob_free` hold at a node if and only if the block belongs behind it, wrap-around included |
| `Slob.FreeOutcome` | ucore_OS/kern/mm/kmalloc.c:153-185 | Everything `slob_free` keeps and changes, for every combination of the two merges |
| `Slob.CutKeepsListIff` | ucore_OS/kern/mm/kmalloc.c:123-134 | Whatever the size, `slob_alloc` leaves a list of just the remaining units with slobfree on it if and only if it found two entries or more |
| `Slob.ZeroSizeBreaksList` | ucore_OS/kern/mm/kmalloc.c:98-135 | `kmalloc(0)` asks for one unit; on the initial list it is given the arena entry, which stays listed |
| `Slob.PageFits` | ucore_OS/kern/mm/kmalloc.c:136-149 | After a page has been added every request `slob_alloc` accepts fits |
| `Slob.OneEntry` | ucore_OS/kern/mm/kmalloc.c:98-185 | A stretch of free units lies within one entry of a coalesced list |
| `Slob.ArenaIsolated` | ucore_OS/kern/mm/kmalloc.c:98-185 | No unit next to the arena block is ever free |
| `Slob.OwnedAfterCut` | ucore_OS/kern/mm/kmalloc.c:123-134 | Handing out units keeps the ownership invariant: blocks handed out are disjoint from each other and from the free list, headers record their sizes, and free plus outstanding units are 1 plus 512 per page |
| `Slob.OwnedAfterFree` | ucore_OS/kern/mm/kmalloc.c:153-185 | Freeing a block keeps the ownership invariant |
| `Slob.OwnedAfterPage` | ucore_OS/kern/mm/kmalloc.c:142-148 | Adding a page keeps the ownership invariant |
| `Slob.Heap.constructor` | ucore_OS/kern/mm/kmalloc.c:76-77 | The initial list is the arena block, linked to itself |
| `Slob.Heap.FindGap` | ucore_OS/kern/mm/kmalloc.c:164-168 | The search of `slob_free` terminates at the node behind which the block belongs |
| `Slob.Heap.Splice` | ucore_OS/kern/mm/kmalloc.c:170-182 | The stores of `slob_free`, in the code's order, give the specified links and sizes |
| `Slob.Heap.FreeBlock` | ucore_OS/kern/mm/kmalloc.c:153-185 | The freed units, and no others, become free; the list stays cyclic, in address order, disjoint and coalesced; no header of an outstanding block changes |
| `Slob.Heap.Scan` | ucore_OS/kern/mm/kmalloc.c:106-150 | One round of the search terminates and finds the first entry behind slobfree that fits, or shows that none does |
| `Slob.Heap.CutWhole` | ucore_OS/kern/mm/kmalloc.c:123-124 | An exact fit leaves the list without that entry |
| `Slob.Heap.CutPart` | ucore_OS/kern/mm/kmalloc.c:125-130 | A larger entry is replaced by its rest |
| `Slob.Heap.AddPage` | ucore_OS/kern/mm/kmalloc.c:142-148 | A page obtained becomes 512 free units |
| `Slob.Heap.Take` | ucore_OS/kern/mm/kmalloc.c:113-134 | The units taken leave the list and are recorded as outstanding |
| `Slob.Heap.Alloc` | ucore_OS/kern/mm/kmalloc.c:98-151 | A page is asked for at most once, exactly when nothing fits; NULL iff nothing fits and there is no page; otherwise the block is the front of the first fitting entry behind slobfree, owned by nobody before, and all invariants are kept; one-unit requests included unless the arena entry comes next |
| `Slob.Heap.Free` | ucore_OS/kern/mm/kmalloc.c:153-185 | Freeing an outstanding block, its size given or read from its header, returns exactly its units |
| `Slob.Heap.Kmalloc` | ucore_OS/kern/mm/kmalloc.c:218-228 | The small-block path: sizes from 4080 on trip the assertion of `slob_alloc`; otherwise the caller gets at least `size` bytes behind a header, with less than a unit to spare, in a block disjoint from all outstanding ones |
| `Slob.Heap.Kfree` | ucore_OS/kern/mm/kmalloc.c:255-280 | `kfree` returns exactly the units of the block |
| `Slob.Heap.KmallocThenKfree` | ucore_OS/kern/mm/kmalloc.c:218-280 | `kfree` undoes `kmalloc`: the exact free list is back unless a page had to be added |
| `PageTables.FreedExactlyAtZero` | ucore_OS/kern/mm/pmm.c:311-472 | In every valid state a data frame's `ref` is the number of present PTEs naming it, and it is on the free list exactly when that is zero |
| `PageTables.RemoveValid` | ucore_OS/kern/mm/pmm.c:311-345 | A removed entry reads as zero, and its frame is freed iff this was its last user |
| `PageTables.InsertValid` | ucore_OS/kern/mm/pmm.c:454-472 | The entry names the new frame; the frame named before loses one user and is freed iff that was its last; re-inserting the same frame keeps its count |
| `PageTables.MakeTableValid` | ucore_OS/kern/mm/pmm.c:246-292 | Creating a page table makes no entry appear and turns the frame into a table |
| `PageTables.DropTableIff` | ucore_OS/kern/mm/pmm.c:366-380 | Dropping a page table keeps the counts right if and only if it held no present entry |
| `PageTables.DropTableLosesUser` | ucore_OS/kern/mm/pmm.c:366-380 | Dropping a table with one present entry leaves that frame counted but unmapped |
| `PageRanges.Spaces.constructor` | ucore_OS/kern/mm/pmm.c:127-148 | Before any mapping every frame is free |
| `PageRanges.Spaces.Remove` | ucore_OS/kern/mm/pmm.c:438-443 | `page_remove` clears that entry if it is present, and no other |
| `PageRanges.Spaces.UnmapRange` | ucore_OS/kern/mm/pmm.c:348-363 | The do-while loop with its jump over missing tables clears precisely the present PTEs in range, counts and frees included |
| `PageRanges.Spaces.ExitRange` | ucore_OS/kern/mm/pmm.c:366-380 | All page tables of the range, and no others, are freed; the counts stay right if and only if none of them held a present entry |
| `PageRanges.Spaces.AllocPage` | ucore_OS/kern/mm/pmm.c:78-98 | A free frame, or nothing iff there is none |
| `PageRanges.Spaces.MakePte` | ucore_OS/kern/mm/pmm.c:246-292 | A missing page table is made exactly when there is a frame for it; no entry changes |
| `PageRanges.Spaces.Insert` | ucore_OS/kern/mm/pmm.c:454-472 | `page_insert` fails iff no frame is left for a missing table; otherwise it changes exactly that entry |
| `PageRanges.Spaces.CopyPage` | ucore_OS/kern/mm/pmm.c:400-431 | One round of `copy_range` gives the child a fresh frame with equal contents and permissions |
| `PageRanges.Spaces.CopyRange` | ucore_OS/kern/mm/pmm.c:389-434 | The child gets equal contents and permissions on fresh frames, the parent's table and memory are unchanged, and it cannot fail with two frames per page |
| `ProcessLife.InitAlone` | ucore_OS/kern/process/proc.c:933-943 | When init has no children, only idle and init exist: the assertions at the end of `init_main` hold |
| `ProcessLife.NoMissedExit` | ucore_OS/kern/process/proc.c:799-856 | No parent sleeps in `do_wait` while a child it waits for is already a zombie |
| `ProcessLife.NoOther` | ucore_OS/kern/process/proc.c:933-943 | If init has no children every process is idle or init: the parent links form a tree |
| `ProcessTree.AdoptKids` | ucore_OS/kern/process/proc.c:154-162 | Linking a child in front gives exactly the child list with it in front, both sibling directions included |
| `ProcessTree.UnlinkKids` | ucore_OS/kern/process/proc.c:166-178 | Unlinking any child (first, middle or last) gives exactly the list without it |
| `ProcessTree.AddOrphan` | ucore_OS/kern/process/proc.c:92-135 | A new process is nobody's child yet and disturbs no list |
| `ProcessTree.AdoptForest` | ucore_OS/kern/process/proc.c:154-162 | The forest is kept when an orphan is linked under an older process |
| `ProcessTree.PopForest` | ucore_OS/kern/process/proc.c:534-536 | The forest is kept, up to the half-updated list, when the dying process hands off its youngest child |
| `ProcessTree.UnlinkForest` | ucore_OS/kern/process/proc.c:166-178 | The forest is kept when a child leaves its parent's list |
| `ProcessTree.DeleteForest` | ucore_OS/kern/process/proc.c:847-855 | The forest is kept when an unlinked, childless process is freed |
| `ProcessLife.HandOverForest` | ucore_OS/kern/process/proc.c:534-543 | One round of the reparenting loop keeps the forest |
| `ProcessLife.HandOverLives` | ucore_OS/kern/process/proc.c:534-549 | One round of the reparenting loop, with its wake-up of init, keeps "nobody sleeps on a zombie" |
| `ProcessLife.ForkedWorld` | ucore_OS/kern/process/proc.c:430-497 | Fork keeps forest, wait conditions and distinct pids |
| `ProcessLife.ReapedWorld` | ucore_OS/kern/process/proc.c:840-856 | Reaping keeps forest, wait conditions and distinct pids |
| `ProcessLife.ChangedWorld` | ucore_OS/kern/process/proc.c:799-873 | Blocking, waking and killing keep forest, wait conditions and distinct pids |
| `ProcessLife.Kernel.constructor` | ucore_OS/kern/process/proc.c:952-989 | idle and its child init |
| `ProcessLife.Kernel.SetLinks` | ucore_OS/kern/process/proc.c:154-162 | The stores of `set_links` link the child in front and count it |
| `ProcessLife.Kernel.RemoveLinks` | ucore_OS/kern/process/proc.c:166-178 | The stores of `remove_links` take it out and count down |
| `ProcessLife.Kernel.Fork` | ucore_OS/kern/process/proc.c:430-497 | Fails iff nr_process has reached MAX_PROCESS or memory runs out, and then changes nothing; otherwise exactly one new child of the caller, with the given pid, runnable and waiting for nothing, while everybody else keeps state and parent; all invariants kept |
| `ProcessLife.Kernel.Exit` | ucore_OS/kern/process/proc.c:528-551 | The caller becomes a childless zombie; its children move to init in reverse order, in front of init's own; the parent, if it waited for a child, is awake, and so is init if it waited and a child handed to it has exited; everybody else is as before; all invariants kept |
| `ProcessLife.Kernel.FindProc` | ucore_OS/kern/process/proc.c:255-266 | Finds the process with that pid, or there is none |
| `ProcessLife.Kernel.FirstZombie` | ucore_OS/kern/process/proc.c:821-827 | The scan finds the first zombie child in list order, or there is none |
| `ProcessLife.Kernel.Reap` | ucore_OS/kern/process/proc.c:840-856 | Exactly that zombie disappears, from tree, list and count |
| `ProcessLife.Kernel.Wait` | ucore_OS/kern/process/proc.c:799-856 | Bad process iff there is no such child; reaps a matching zombie, with pid 0 the first in list order; otherwise sleeps; all invariants kept in each case |
| `ProcessLife.Kernel.Kill` | ucore_OS/kern/process/proc.c:860-873 | Unknown pid, process already exiting, or success, each iff; on success exactly that process has its exiting flag set, and is awake if it slept interruptibly |
| `ProcessLife.Kernel.Block` | ucore_OS/kern/sync/wait.c:114-121 | Any sleep other than in `do_wait` keeps the invariants |
| `ProcessLife.Kernel.Wakeup` | ucore_OS/kern/schedule/sched.c:59-76 | Waking any process that is no zombie keeps the invariants |
| `ProcessLife.Kernel.Switch` | ucore_OS/kern/process/proc.c:218-231 | Switching to a runnable process keeps the invariants |
| `Pids.Allocator.GetPid` | ucore_OS/kern/process/proc.c:182-213 | Terminates through restarts and wrap-around with the first pid after last_pid, going round, that no live process has; keeps "no live pid strictly between last_pid and next_safe" |
| `Pids.Allocator.constructor` | ucore_OS/kern/process/proc.c:186 | The initial last_pid and next_safe satisfy the kept fact for any live processes |
| `Pids.ExitsKeepClear` | ucore_OS/kern/process/proc.c:182-213 | Exits between two calls do not disturb the kept fact |
| `Pids.FreePid` | ucore_OS/kern/process/proc.c:183 | With fewer live processes than pids there is a free pid |
| `ProcessPids.System.Fork` | ucore_OS/kern/process/proc.c:430-497 | `do_fork` with the pid of `get_pid`: what `get_pid` needs holds because MAX_PROCESS is below MAX_PID, the pid is in range and nobody else's, the child is runnable, nobody else changes state, and both invariants are kept |
| `ProcessPids.System.constructor` | ucore_OS/kern/process/proc.c:952-989 | Both invariants hold at the start |
| `ProcessPids.System.Wait` | ucore_OS/kern/process/proc.c:799-856 | Bad process iff there is no such child; reaping frees a pid and keeps what `get_pid` relies on |
| `ProcessPids.System.Exit` | ucore_OS/kern/process/proc.c:528-551 | The caller is a childless zombie, no pid changes, and what `get_pid` relies on is kept |
| `TimerLists.AddedFiresThen` | ucore_OS/kern/schedule/sched.c:102-175 | A timer added with e ticks and not deleted fires on exactly the e-th later `run_timer_list`, whatever other timers are added or deleted in between |
| `TimerLists.FiresExactlyThen` | ucore_OS/kern/schedule/sched.c:102-175 | A pending timer with n ticks left fires at the n-th tick of every run and at no other event |
| `TimerLists.EqualDeadlines` | ucore_OS/kern/schedule/sched.c:102-175 | Equal deadlines fire in insertion order: a timer added with as many ticks as another has left fires at the same event of every run that touches neither, after the other |
| `TimerLists.FireInOrder` | ucore_OS/kern/schedule/sched.c:102-175 | Over every run, two timers that fire at the same event fire in the order in which they stand in the list |
| `TimerLists.DoBefore` | ucore_OS/kern/schedule/sched.c:102-175 | No event changes the order of two timers it does not touch |
| `TimerLists.InsertLeft` | ucore_OS/kern/schedule/sched.c:103-122 | Delta encoding: adding a timer gives it its own ticks and changes nobody else's |
| `TimerLists.InsertOrder` | ucore_OS/kern/schedule/sched.c:103-122 | A new timer goes behind all that are due no later and in front of the others, and moves none |
| `TimerLists.DeleteLeft` | ucore_OS/kern/schedule/sched.c:126-142 | Deleting a timer changes nobody else's ticks |
| `TimerLists.DeleteOrder` | ucore_OS/kern/schedule/sched.c:126-142 | Deleting a timer takes one id out of the list and moves none |
| `TimerLists.TickLeft` | ucore_OS/kern/schedule/sched.c:146-175 | A tick takes one from everybody, and exactly those that had one left fire |
| `TimerLists.ExpiredOrder` | ucore_OS/kern/schedule/sched.c:146-175 | Timers fire in list order, and the rest keep theirs |
| `TimerLists.DoValid` | ucore_OS/kern/schedule/sched.c:102-175 | Every operation keeps ids distinct, the head delta non-zero and every sum of deltas below 2^32 |
| `Timers.TimerList.constructor` | ucore_OS/kern/schedule/sched.c:46-55 | An empty list is valid |
| `Timers.TimerList.AddTimer` | ucore_OS/kern/schedule/sched.c:103-122 | The loop with its running subtraction computes the specified insertion |
| `Timers.TimerList.DelTimer` | ucore_OS/kern/schedule/sched.c:126-142 | The successor takes over the deleted delta, without overflow |
| `Timers.TimerList.RunTimerList` | ucore_OS/kern/schedule/sched.c:146-175 | The loop fires exactly the specified timers, and its assertion that the head is not due holds |
| `RoundRobin.RunsInTurn` | ucore_OS/kern/schedule/sched.c:58-100 | A process at queue position k becomes current at exactly the (k+1)-th later `schedule`, in every run |
| `RoundRobin.ScheduleHandsOver` | ucore_OS/kern/schedule/sched.c:79-100 | After `schedule` the current process is RUNNABLE; it is the one that has waited longest, the same one if it is alone, and idle iff nobody else is RUNNABLE; who gives way is last in line, and no state changes |
| `RoundRobin.WakeupWakes` | ucore_OS/kern/schedule/sched.c:59-76 | The process is RUNNABLE and last in line unless it is current or was RUNNABLE already; nobody else changes |
| `RoundRobin.OtherEvents` | ucore_OS/kern/schedule/sched.c:58-100 | A forked process is RUNNABLE and last in line; giving up the processor and reaping change that one process and no place in line |
| `RoundRobin.StepValid` | ucore_OS/kern/schedule/sched.c:58-100 | Every step keeps: the queue holds exactly the RUNNABLE processes other than current and idle, once each; so the assertion of `RR_enqueue` never fails |
| `RoundRobin.PlayValid` | ucore_OS/kern/schedule/sched.c:58-100 | The same over whole runs |
| `RoundRobin.StepPosition` | ucore_OS/kern/schedule/sched.c:58-100 | One step moves a queued process forward exactly at `schedule` |
| `Scheduler.Cpu.constructor` | ucore_OS/kern/schedule/default_sched.c:8-11 | Only idle runs and the queue is empty |
| `Scheduler.Cpu.WakeupProc` | ucore_OS/kern/schedule/sched.c:59-76 | In place: the process is RUNNABLE and last in line unless it is current, nobody else changes, and the queue invariant is kept |
| `Scheduler.Cpu.Schedule` | ucore_OS/kern/schedule/sched.c:79-100 | In place: the current process is then RUNNABLE, idle iff nobody else is, and whoever gives way is last in line; the queue invariant is kept |
| `Numbers.DecimalRoundTrip` | ucore_OS/libs/printfmt.c:245-252 | `strtol` in base 10 of an unpadded `%d` gives the number back and consumes all of it, for every 32-bit integer, the smallest included |
| `Numbers.UnsignedRoundTripIff` | ucore_OS/libs/printfmt.c:260-279 | `%x` or `%o` of an unsigned word comes back from `strtol` if and only if it is below 2^31 |
| `Numbers.AllOnesReadBackNegative` | ucore_OS/libs/printfmt.c:260-279 | The largest word, printed with `%x`, is read back as -1 |
| `Numbers.ParsePrinted` | ucore_OS/libs/string.c:216-271 | Reading printed digits of any number gives it back modulo the 32-bit word |
| `Numbers.ParseWritten` | ucore_OS/libs/string.c:216-271 | `strtol` reads a number as it is written, behind any blanks and a sign: in decimal, behind 0x or behind 0 when the base is 0, in decimal or behind 0x when it is 10 or 16 |
| `Numbers.ParseStops` | ucore_OS/libs/string.c:244-265 | Whatever follows the number and is no digit ends it, and `strtol` says where |
| `Numbers.ParseCapitals` | ucore_OS/libs/string.c:244-265 | Hexadecimal digits are read alike in capitals |
| `Numbers.DigitTable` | ucore_OS/libs/string.c:246-258 | A digit stands for its place in 0-9a-z, in either case |
| `Numbers.OnlyDigits` | ucore_OS/libs/string.c:246-258 | Nothing else is a digit |
| `Numbers.HexCharTable` | ucore_OS/libs/printfmt.c:54-69 | The printed digits are those of "0123456789abcdef" |
| `Numbers.TenEstimate` | ucore_OS/libs/mips32s.h:10-15 | The shift-and-add estimate of n / 10 fits 32 bits and is at most one too small for every n below 0x1_4000_0002 |
| `Numbers.DivideByTen` | ucore_OS/libs/mips32s.h:9-18 | `do_div` by 10 of a 64-bit number is exact if and only if the number is below 0x1_4000_0002 |
| `Numbers.FirstWrongEstimate` | ucore_OS/libs/mips32s.h:9-18 | At 0x1_4000_0002 the 32-bit estimate is zero while the quotient is 2^29 |
| `Numbers.DoDiv` | ucore_OS/libs/mips32s.h:7-33 | For every 64-bit number and every base: quotient and remainder are right if and only if the base is 8, 16 or 2^31, or is 10 and the number below the limit, or is above 3 and the number three more than it |
| `Numbers.PrintNum` | ucore_OS/libs/printfmt.c:54-69 | The recursive printing gives the digits, padded on the left to the width |
| `Numbers.PrintDecimal` | ucore_OS/libs/printfmt.c:245-279 | The `%d` conversion gives the signed decimal |
| `Numbers.StrtolDigits` | ucore_OS/libs/string.c:244-265 | The digit loop, wrapping at every step, gives the scanned value modulo the word |
| `Numbers.Strtol` | ucore_OS/libs/string.c:216-271 | Blanks, sign, base prefix and digits are read as specified |
| `MipsRestart.FaultIsPrecise` | src/cpu.h:11-59 | For every instruction word and every state outside exception level, a step that faults changes no non-zero general register, HI, LO, memory byte, TLB slot or other status bit, leaves EPC at the instruction and enters the handler |
| `MipsFaults.FaultIsReported` | src/mmu.h:142-193 | A step faults exactly when an access is refused or out of line or the instruction is a syscall or unknown. Cause then has the code of that reason (1 for a write to a valid clean page, 3 and 2 for other refused writes and reads, 5 and 4 out of line, 8, 10), BadVAddr the address, EntryHi and Context its page pair, and the rest of CP0 is as it was |
| `MipsRestart.ReturnReexecutes` | src/cpu_instructions.cc:219-223 | A handler that writes only the kernel's own bytes, may clobber k0 and k1, may change the TLB and CP0, and returns with `eret`, puts the machine back at the faulting instruction in the state in which it started, outside those bytes |
| `MipsRestart.RefillIsTransparent` | src/cpu.h:11-59 | After a miss and such a handler, an instruction that names neither CP0 nor k0 nor k1 and reads none of the kernel's bytes does what it would have done had the new TLB been there from the start |
| `MipsRestart.NestedFault` | src/cpu.h:16-24 | A fault inside exception level keeps the EPC of the first one |
| `MipsRestart.InterruptIsBetween` | src/cpu.h:46-58 | A clock interrupt comes between two instructions: the one before has taken effect and EPC is at the next |
| `MipsFaults.ClockInterrupts` | src/cpu.h:46-58 | The clock interrupts iff Count has come up to Compare and nothing masks it; Cause says so, and Count starts again whenever it has come up |
| `MipsRestart.EretResumes` | src/cpu_instructions.cc:219-223 | `eret` leaves exception level, goes to EPC and changes nothing else |
| `MipsRestart.ExecuteFault` | src/cpu_instructions.cc:3-268 | An instruction that raises has only recorded why |
| `MipsRestart.AttemptAgree` | src/cpu.h:29-44 | Such an instruction gives the same result whatever CP0, k0, k1, register zero and the kernel's bytes hold |
| `MipsMemory.StoreThenLoad` | src/mmu.h:18-90 | A word or byte stored in memory is loaded back from the same address, and no other byte, register or TLB slot has changed |
| `MipsMemory.DeviceAccess` | src/mmu.h:92-140 | A byte stored at the serial port is sent, the port is always ready, and ROM and flash are read and not written |
| `MipsInstructions.DecodeEncode` | src/cpu.cc:3-187 | The decoder reads every instruction as the opcode tables of the MIPS32 architecture write it |
| `MipsInstructions.ExecuteFrame` | src/cpu_instructions.cc:3-267 | An instruction that does not fault changes its own register and what it is for, and goes on to the next one |
| `MipsInstructions.AddThenSubtract` | src/cpu_instructions.cc:82-90 | addu and then subu of the same operand gives the first operand back, and so do addiu of an immediate and of its negative |
| `MipsInstructions.StoreThenLoadWord` | src/cpu_instructions.cc:225-265 | sw and then lw from the same place: every register can get back the word another was stored from |
| `MipsInstructions.LogicBits` | src/cpu_instructions.cc:92-110 | and, or, xor and nor work bit by bit |
| `MipsInstructions.ShiftBits` | src/cpu_instructions.cc:3-18 | sll, srl and sra move the bits, and zeros or copies of the sign come in |
| `MipsInstructions.VariableShifts` | src/cpu_instructions.cc:20-35 | The shifts by a register shift the second operand by the first |
| `MipsInstructions.SumsFit` | src/cpu_instructions.cc:82-90 | addu and subu are right as signed and as unsigned numbers whenever the result fits, and undo each other |
| `MipsInstructions.Comparisons` | src/cpu_instructions.cc:112-120 | slt is sltu with the order of the signs turned round, and sltu says whether the difference borrows nothing |
| `MipsInstructions.BranchPairs` | src/cpu_instructions.cc:122-165 | Of two opposite branches exactly one is taken; bltz goes by the sign bit |
| `MipsInstructions.BranchResult` | src/cpu_instructions.cc:143-165 | A branch goes `imm` words from the next instruction, back or forth, or there |
| `MipsInstructions.JumpResult` | src/cpu_instructions.cc:134-141 | Jumps stay in their region or go where the register says, and come back behind jal and jalr through the link register |
| `MipsInstructions.Immediates` | src/cpu_instructions.cc:167-200 | Immediate operands are register operands of the same value, sign-extended for addiu and slti alone |
| `MipsInstructions.MultiplyResult` | src/cpu_instructions.cc:73-80 | HI and LO together hold the whole product |
| `MipsInstructions.Moves` | src/cpu_instructions.cc:53-72 | HI, LO and the CP0 registers are read as they were written |
| `MipsInstructions.TlbWriteMeans` | ucore_OS/kern/mm/tlb.c:149-156 | The five instructions of `tlb_write` write the slot the kernel means, and from then on, unless an earlier slot holds the pair, its even page is translated by the word meant for EntryLo0 and the odd one by that for EntryLo1 |
| `DemandPaging.RetryTranslates` | ucore_OS/kern/mm/tlb.c:28-80 | Emulator and kernel together, with the page tables in the emulator's memory: after a miss, the kernel's handler for the address in BadVAddr and `eret`, the machine is back at the instruction and the access is translated as the tables now in memory say, or refused exactly as a write to a read-only page; these tables map every address as before the miss, except that a page that was absent is where the page fault put it |
| `DemandPaging.MissFacts` | src/mmu.h:157-180 | What `tlb_miss_handler` reads in BadVAddr and Cause is the address that missed and whether it was a write |
| `DemandPaging.LoadCompletes` | src/cpu_instructions.cc:225-251 | A load that missed completes on the retry with the value at the address the tables in memory map it to, which is the value from before the miss unless it lies in the kernel's bytes |
| `DemandPaging.RewrittenIsKernel` | ucore_OS/kern/mm/tlb.c:78 | The page-table entries the handler rewrites are necessarily among the kernel's bytes |
| `DemandPaging.HoldsWalk` | ucore_OS/kern/mm/pmm.c:246-292 | Walking directory and table words in memory gives the walk of the abstract page table |
| `Emulator.Processor.constructor` | src/cpu.h:8-9 | The reset state |
| `Emulator.Processor.AddrTranslate` | src/mmu.h:142-193 | The loop over the TLB arrays finds the slot that decides; result, exception and CP0 updates are those of the specification |
| `Emulator.Processor.RunOnce` | src/cpu.h:11-59 | One iteration of `run` on registers, CP0, TLB and memory in arrays is the specified step; when the instruction faults outside exception level no register but zero, no byte and no TLB slot has changed, EPC is at the instruction and the handler comes next |
| `Sfs.FileSystem.BmapLoad` | ucore_OS/kern/fs/sfs/sfs_inode.c:354-371 | The i-th block of the file, or one appended just past its end; out of space iff fewer free blocks than needed, and then freemap, count and inodes are as they were; no block has two owners, unused_blocks is the number of free bits, and entries past `blocks` are zero |
| `Sfs.FileSystem.BlockAlloc` | ucore_OS/kern/fs/sfs/sfs_inode.c:90-99 | The lowest bit set in the bitmap, cleared, its block zeroed; nothing iff unused_blocks is zero; the bitmap still holds the freemap |
| `Sfs.FileSystem.BlockFree` | ucore_OS/kern/fs/sfs/sfs_inode.c:105-109 | The block goes back to the bitmap and the count; the bitmap holds the freemap again |
| `Sfs.FileSystem.Lookup` | ucore_OS/kern/fs/sfs/sfs_inode.c:257-292 | The block recorded at an index below `blocks`, zero past the end, and no answer (a panic) exactly from index 1036 on |
| `Sfs.FileSystem.ExtendDirect` | ucore_OS/kern/fs/sfs/sfs_inode.c:262-271 | A direct slot filled at the end of the file |
| `Sfs.FileSystem.ExtendEntry` | ucore_OS/kern/fs/sfs/sfs_inode.c:201-245 | An index entry filled at the end of the file |
| `Sfs.FileSystem.ExtendFirstEntry` | ucore_OS/kern/fs/sfs/sfs_inode.c:201-245 | Index block and first entry: both or neither; when the second allocation fails the first is given back |
| `Sfs.FileSystem.BmapTruncate` | ucore_OS/kern/fs/sfs/sfs_inode.c:377-387 | The last block goes back to the freemap; all other blocks and files keep theirs |
| `Sfs.FileSystem.Truncfile` | ucore_OS/kern/fs/sfs/sfs_inode.c:918-962 | Succeeds iff the free blocks cover the growth, index block included; afterwards the blocks fit the size if and only if it succeeded or not even one block could be appended; every block the file keeps and every block of other files holds what it held, and new blocks are zero |
| `Sfs.GrowthRunsOut` | ucore_OS/kern/fs/sfs/sfs_inode.c:918-962 | On a disk with one free block, growing an empty file to two blocks fails and leaves it with a block but no bytes |
| `Sfs.FileSystem.SetSize` | ucore_OS/kern/fs/sfs/sfs_inode.c:634-637 | Changing the size changes no block |
| `Sfs.FileSystem.constructor` | ucore_OS/kern/fs/sfs/sfs_fs.c:149-252 | A valid file system, as found on the disk, with its freemap in a bitmap word by word |
| `SfsModel.PutAt` | ucore_OS/kern/fs/sfs/sfs_inode.c:201-245 | Writing one slot changes that slot alone, in the inode, as a word of an index block on the disk, or behind two levels of them |
| `SfsModel.KeptBytes` | ucore_OS/kern/fs/sfs/sfs_inode.c:201-344 | Blocks without an owner and index blocks are no file's data: writing to them changes no byte of any file |
| `SfsModel.AssignFacts` | ucore_OS/kern/fs/sfs/sfs_inode.c:201-292 | Giving a free block to an empty slot keeps ownership exclusive and the count right |
| `SfsModel.ReleaseFacts` | ucore_OS/kern/fs/sfs/sfs_inode.c:298-344 | Taking a block out of a slot and freeing it likewise |
| `SfsModel.AppendFacts` | ucore_OS/kern/fs/sfs/sfs_inode.c:354-371 | Appending keeps the whole invariant and extends the file's block list by that block |
| `SfsModel.AddIndexFacts` | ucore_OS/kern/fs/sfs/sfs_inode.c:219-236 | Giving a file an index block, of whatever level, changes no file |
| `SfsModel.TakeGive` | ucore_OS/kern/fs/sfs/sfs_inode.c:225-244 | A block taken and given back leaves freemap, count and every file as before |
| `SfsModel.ShrunkFacts` | ucore_OS/kern/fs/sfs/sfs_inode.c:377-387 | Shrinking keeps the whole invariant and drops exactly the last block |
| `SfsIo.Read` | ucore_OS/kern/fs/sfs/sfs_inode.c:553-639 | As many bytes as there are up to the end of the file, for requests of any length, and from which disk block each of them comes; they are the file's own when the whole blocks in the middle follow each other on the disk, which one block always does; nothing changes |
| `SfsIo.ReadBlocks` | ucore_OS/kern/fs/sfs/sfs_inode.c:619-624 | The middle part reads the blocks that follow its first one on the disk |
| `SfsIo.Write` | ucore_OS/kern/fs/sfs/sfs_inode.c:553-639 | A request at or before the end splices its bytes into the file and extends it, when several whole blocks in the middle are there and follow each other on the disk; every other byte and file is unchanged, and blocks == ceil(size / 4096) is kept; its assertion fails iff the free blocks do not cover the growth |
| `SfsIo.WriteThenRead` | ucore_OS/kern/fs/sfs/sfs_inode.c:553-639 | What was written is what is read back |
| `SfsIo.SpliceFacts` | ucore_OS/kern/fs/sfs/sfs_io.c:105-118 | A data block is no index block: writing to it leaves the block map and every invariant as they were |
| `SfsIo.WholeBlocksIff` | ucore_OS/kern/fs/sfs/sfs_inode.c:619-624 | The middle part maps only the first of its whole blocks: it reads the file for every content of the disk if and only if the file's blocks follow each other on the disk |
| `SfsIo.WholeBlocksWriteIff` | ucore_OS/kern/fs/sfs/sfs_inode.c:619-624 | The middle part maps only the first of its whole blocks: whatever is written reaches the file's blocks if and only if they follow each other on the disk |
| `SfsIo.SwappedBlocksMisread` | ucore_OS/kern/fs/sfs/sfs_inode.c:619-624 | On a valid disk where the blocks of a file are 3 and 2, reading it in one request returns other bytes than the file's |
| `SfsIo.WriteParts` | ucore_OS/kern/fs/sfs/sfs_inode.c:603-631 | First, middle and last part together write the buffer at the offset, or there is no room |
| `SfsIo.WriteBlocks` | ucore_OS/kern/fs/sfs/sfs_inode.c:619-624 | The middle part writes the blocks that follow its first one on the disk, and so the file when they are its own |
| `SfsIo.WritePart` | ucore_OS/kern/fs/sfs/sfs_inode.c:607-630 | One part writes its bytes into its block, appending the block if need be, or there is no room |
| `SfsIo.ReadPart` | ucore_OS/kern/fs/sfs/sfs_inode.c:607-631 | One part reads its bytes of its block |
| `SfsIo.SpliceWrote` | ucore_OS/kern/fs/sfs/sfs_io.c:105-118 | Writing into one block of a file changes those bytes of that file alone |
| `SfsIo.WroteBoth` | ucore_OS/kern/fs/sfs/sfs_inode.c:603-631 | Two adjacent writes are one |
| `BitmapModel.Bitmap.constructor` | ucore_OS/kern/fs/sfs/bitmap.c:19-50 | Exactly the first nbits bits are set, the padding of the last word cleared |
| `BitmapModel.Bitmap.Alloc` | ucore_OS/kern/fs/sfs/bitmap.c:54-71 | The lowest set bit is cleared, or there is none |
| `BitmapModel.Bitmap.Test` | ucore_OS/kern/fs/sfs/bitmap.c:84-88 | The bit at that index |
| `BitmapModel.Bitmap.Free` | ucore_OS/kern/fs/sfs/bitmap.c:92-97 | Exactly that bit is set |
| `BitmapModel.Bitmap.Fill` | ucore_OS/kern/fs/sfs/sfs_fs.c:128-140 | The words read from the disk hold exactly the freemap, and nothing past its end |
| `Bits.CountUpdate` | ucore_OS/kern/fs/sfs/bitmap.c:54-97 | Setting or clearing one bit changes the number of set bits by one |
| `DiskBlocks.SetWordAt` | ucore_OS/kern/fs/sfs/sfs_inode.c:205-232 | A block number written into an index block as four bytes is read back, and no other entry changes |
| `Mksfs.ReadFile` | ucore_OS/tools/mksfs.c:313-426 | Whatever files were built by whatever calls: after close and mount the kernel reads back exactly what mksfs wrote if and only if the file has no more than 1036 blocks |
| `Mksfs.OneBlockTooMany` | ucore_OS/tools/mksfs.c:398-426 | mksfs builds a file of 1037 blocks, and the kernel cannot read it |
| `Mksfs.ReadBack` | ucore_OS/kern/fs/sfs/sfs_inode.c:257-292 | The kernel's lookup returns the i-th block `append_block` recorded, with what mksfs wrote into it, and panics exactly from the 1037th on |
| `Mksfs.Image.AddBlock` | ucore_OS/tools/mksfs.c:517-530 | Allocate, write, append: fails iff the file has 32768 blocks or there are too few for it and its index blocks; otherwise that file ends with the new block and its bytes, no other file changes, and the image closed now would be a valid file system |
| `Mksfs.Image.AppendBlock` | ucore_OS/tools/mksfs.c:398-426 | A block that has been written but is nobody's becomes the last of the file, recorded directly, by the index block or by double indirection; no other file changes |
| `Mksfs.Image.UpdateCache` | ucore_OS/tools/mksfs.c:383-395 | The index block is there afterwards, new and empty if there was none, and no file and no other index block has changed |
| `Mksfs.Image.NewFile` | ucore_OS/tools/mksfs.c:202-212 | A new empty file; every other file is as it was |
| `Mksfs.OpenFile` | ucore_OS/tools/mksfs.c:517-530 | A file of full blocks but the last: the image holds exactly its contents, block by block, in as many blocks as its size takes; every other file is as it was |
| `MksfsModel.EndedGood` | ucore_OS/tools/mksfs.c:398-426 | Recording a block at the end of a file keeps the whole SFS invariant of the image (no block owned twice, freemap exact, entries past `blocks` zero), at every level of indirection |
| `MksfsModel.WithIndexGood` | ucore_OS/tools/mksfs.c:383-395 | So does adding an index block, which changes no file |
| `MksfsModel.AllocatedGood` | ucore_OS/tools/mksfs.c:174-180 | So does taking a block and writing it |
| `MksfsModel.FileAddedGood` | ucore_OS/tools/mksfs.c:202-212 | So does adding a file |
| `MksfsModel.NewBuildGood` | ucore_OS/tools/mksfs.c:224-254 | An empty image satisfies it |
| `MksfsModel.AdoptFacts` | ucore_OS/tools/mksfs.c:398-426 | A block in use that no file has can be given to any file: ownership stays exclusive, the freemap exact, and exactly that file is longer |
| `MksfsModel.ViewEnded` | ucore_OS/tools/mksfs.c:398-426 | What the builder does in its cache is that step on the file system the kernel would mount |
| `Mksfs.Image.constructor` | ucore_OS/tools/mksfs.c:224-254 | The first free block lies behind superblock, root and freemap; the root directory is empty |
| `Mksfs.Image.AllocIno` | ucore_OS/tools/mksfs.c:174-180 | The next block, each once, or nothing when the image is full |
| `Mksfs.Image.FreemapBlock` | ucore_OS/tools/mksfs.c:318-332 | The words of one freemap block have exactly the bits of the blocks never handed out |
| `Mksfs.Image.Freemap` | ucore_OS/tools/mksfs.c:313-334 | The words of the whole freemap have exactly the bits of the blocks never handed out |
| `Mksfs.Image.Close` | ucore_OS/tools/mksfs.c:313-349 | Freemap, superblock, cached index blocks and inodes on the image make up a valid file system with exactly the blocks and bytes of every file |
| `Mksfs.Mount` | ucore_OS/kern/fs/sfs/sfs_fs.c:207-224 | The free-block count at mount, bit by bit over the bitmap, equals the superblock's unused_blocks, so the assertion holds |

## Left out

- Slob.Heap.Alloc: a one-unit request, which only `kmalloc(0)` makes, when the arena entry comes next; `Slob.CutKeepsListIff` and `Slob.ZeroSizeBreaksList` say what happens then. Alignment is zero, as in every call, and the arena is not adjacent to a page.
- Slob.Heap.Kmalloc: the big-block path and `find_order`; size zero when the arena entry comes next, as for `Slob.Heap.Alloc`.
- Slob.Heap.KmallocThenKfree: size zero when the arena entry comes next, as for `Slob.Heap.Alloc`.
- Slob.Heap.Kfree: the search of the big-block list is not modelled.
- Numbers.PrintDecimal: the `-` flag and padded widths of `%d`; `Numbers.PrintNum` has the padding.
- Numbers.PrintNum: numbers that `do_div` does not divide rightly; in base 10 those from 0x1_4000_0002 on.
- PageRanges.Spaces.CopyRange: when frames run out only the failure itself is stated, not the partial copy that `exit_mmap` then takes down.
- PageRanges.Spaces.Insert: when a table is missing and there is no frame for it the source goes on with a null page (`kern/mm/pmm.c:284-285`); here `ok` is then false and nothing more is said.
- PageRanges.Spaces.MakePte: as for `PageRanges.Spaces.Insert`; `get_pte` with create never returns NULL.
- PageRanges.Spaces.AllocPage: the loop over `swap_out` that `alloc_pages` enters for one page once swap is on; here swap is off.
- PageRanges.Spaces.constructor: page tables carry no TLB bits here; `TlbSession` has those, on one page directory.
- SfsIo.Write: requests whose several whole blocks are not all there or do not follow each other on the disk, which the chunk loops of `sysfile.c` never make and which `SfsIo.WholeBlocksWriteIff` is about; offsets past the end of the file.
- SfsIo.WriteParts: as for `SfsIo.Write`.
- SfsIo.WriteBlocks: as for `SfsIo.Write`.
- SfsIo.WriteThenRead: as for `SfsIo.Write`.
- SfsIo.Read: files of more than 1036 blocks, which only mksfs makes; the device's check that a block number is on the disk, which a read at once of scattered blocks can fail.
- Sfs.FileSystem.Truncfile: files of more than 1036 blocks, as for `SfsIo.Read`.
- Sfs.FileSystem.BmapTruncate: the same files, whose blocks past the 1036th the kernel cannot reach.
- Sfs.FileSystem.BmapLoad: device errors; inodes are records, not bytes of their blocks.
- ProcessLife.Kernel.FindProc: the hash chains behind the pid lookup; processes are named by their order of creation.
- ProcessLife.Kernel.Fork: why memory runs out; `setup_kstack`, `copy_mm` and `copy_files` are one outcome.
- ProcessLife.Kernel.Exit: exit codes, open files and the address space of the dying process; init and idle do not exit.
- ProcessLife.Kernel.Wait: the check of the user's result pointer; the loop after the sleep is the next call.
- ProcessLife.Kernel.Kill: what the killed process does when it next runs.
- Scheduler.Cpu.Schedule: time slices (`RR_proc_tick`) and the context switch itself, which is an assignment to current.
- Emulator.Processor.constructor: ROM, flash and serial input are one constant map; the emulator's timing of reads from streams is not modelled.
- Emulator.Processor.RunOnce: register shifts by 32 or more, undefined in the source, are given the value of an unbounded shift; `tlbwi` with an index of 16 or more is likewise undefined and writes nothing.
- MipsRestart.RefillIsTransparent: instructions that name CP0, k0 or k1, or read the kernel's bytes, whose results depend on the handler.
- TlbSession.HandleMissPresenceIff: the outcome without a frame stands for swap being off; with swap on `alloc_pages` does not fail for one page.
- Mksfs.Image.AppendBlock: the hash lists of cached blocks.
- Mksfs.OpenFile: a build that runs out of blocks, at which the builder stops.
- Mksfs.Image.Close: inodes and the superblock are records, not bytes; directories hold no entries.
- MIPS32 instructions the emulator does not have, and delay slots, which it does not have either.
- TLB_P bits left over across context switches beyond `TlbSession.LoadPgdirCoherentIff`, and accesses through the recursive page-table window.
- The philosophers on plain semaphores, which have the same states but no monitor.
- Swap, VFS and path lookup, directories, devices, the shell, program loading, assembly and the kernel's built-in self-checks.
