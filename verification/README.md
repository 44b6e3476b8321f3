# A verified model of the OS simulator

This project models the memory manager, the scheduler and the slot timer of an
operating-system simulator written in C, and proves what they promise together:

- **Demand paging with swap.** Frames and swap slots, per-process FIFO lists,
  victim selection with global fallback, eviction, swap-in, and the user and
  kernel memory instructions of any number of interleaved processes. For every
  run, each process has one plain byte map and every frame and slot has exactly
  one owner.
- **The 5-level page tables** underneath, as tables of 64-bit words linked by
  addresses and built on demand. They refine the flat map of the paging core.
- **The allocators** on top: first-fit regions with a coalescing free list,
  contiguous kernel frames, slab pools, copies between user and kernel space.
- **The multi-level queue scheduler**: exact quotas per round, bounded waiting,
  and every process in exactly one place.
- **The timer barrier** as a system of atomic lock, flag, signal and wait steps:
  safety, no deadlock, no livelock.

`dafny verify dfyconfig.toml` checks everything.

## How it is organised

Code that updates state in place is modelled by classes and methods with loops
(`MemPhys`, `Machines`, `Kernels`, `PageWalk.Tables`, `SlabCache`, `Queues`,
`Scheduler`, `Processors`). Each of their methods is proved against a specification: a
function on values in `Paging`, `System`, `KernelFrames`, `Regions`, `Mlq` or
`PageTables`. The theorems are then about those functions:

| files | content |
|---|---|
| `Basics`, `Devices`, `Paging` | shared vocabulary; devices; paging as functions on one memory state |
| `Ownership`, `Transparency` | the ownership invariant; every paging operation keeps it and every visible byte |
| `KernelFrames`, `KernelMemory` | contiguous frames, kernel pages, process exit |
| `Regions`, `System` | free region lists; all memory instructions as one step function |
| `Bytes`, `Runs`, `Refinement`, `Reachable` | flat byte maps; theorems over whole runs and every reachable state |
| `Acceptance` | exactly when each instruction succeeds, said on the fields of the state |
| `Accounting`, `Coverage` | which regions and frames are disjoint; when they partition memory exactly |
| `Leaks`, `Witnesses` | which steps lose a frame, no leak; concrete runs |
| `MemPhys`, `Machine`, `Kernel` | the imperative devices, paging machine and kernel |
| `Bits`, `PageTables`, `PageWalk`, `PageCollect`, `PageMap` | bit layout, table trees, walks, exit traversal, refinement of the flat map |
| `Slab` | slab pools |
| `Mlq`, `Queues`, `Scheduler` | dispatcher, bounded queues, scheduler object |
| `Placement`, `Processors` | loader and CPU steps, and the object that makes them |
| `Timer` | the barrier |

Some state is not in the program and only makes statements possible: `since` and
`clock` in `Paging.Mem` (when a page became resident), `pos` in
`PageTables.Heap` (where a table was linked), `slots` in `Timer.Device`
(completed `next_slot` calls).

## Where the code differs from what it says

- `inc_vma_limit` promises to roll back when the mapping fails, but
  `vm_map_ram` returns an unsigned value, so its test `< 0` (src/mm-vm.c:153) is
  never true. The model follows the code: the limit stays raised and the
  uninitialised region node, a parameter `junk`, is enlisted. This breaks the
  region accounting exactly when the growth cannot be mapped
  (`Accounting.StepApart`); `Witnesses.UnbackedAllocSucceeds` is a run in which
  ALLOC then reports success for bytes that do not exist. Byte contents,
  ownership and the return of all frames survive it (`Runs.StepKeeps`,
  `Leaks.NoLeak`).
- `__alloc` overwrites a symbol that still holds a region. Everything stays
  disjoint, but the region is no longer accounted for (`Coverage.StepExact`), and
  if it was a kernel region its frames are lost (`Leaks.StepLeaks`,
  `Witnesses.OverwrittenKernelBlockLeaks`).
- `__free` accepts kernel regions: kernel addresses get on the user free list and
  the frames are lost (`Accounting.StepApart`, `Leaks.StepLeaks`,
  `Witnesses.FreedKernelBlockLeaks`).
- The free list does not always coalesce: the zero-length node that a used-up list
  leaves behind can stand between two free nodes that touch. `Regions.NextMerges`
  and `Regions.PrevMerges` say exactly when a neighbour is merged,
  `Regions.ZeroLengthKeepsApart` is a list where one is not.
- The symbol region of a slab object is as long as the whole pool
  (src/libmem.c:1597-1598); `SlabCache.SymbolRegionOverruns` states for which
  slots it stays inside the pool.
- Of the frame numbers below 2^40 that an entry can hold, only those below 2^35
  have a kernel address (`Bits.KernelAddrExact`).

## Model

| member | source | states |
|---|---|---|
| Transparency.SwapOutSpec | src/mm64.c:601-647 | eviction succeeds exactly when a swap slot is free and the caller or a running process has a resident page; it then evicts the oldest page of that process, and otherwise changes nothing at all |
| Transparency.SwapOutKeeps | src/mm64.c:601-647 | an eviction keeps single ownership, with the freed frame in flight, and changes no byte any process or the kernel sees |
| Ownership.FindGlobalSpec | src/mm64.c:552-599 | the search returns the tail of the FIFO of the first process (caller first, then the running list) with a resident page and removes only that entry |
| Ownership.VictimIsFirst | src/mm64.c:573-599 | the victim process is the caller if it has a resident page, else the first of the running list that has one; there is none exactly when no such process has |
| Transparency.VictimIsOldest | src/libmem.c:2018-2044 | the victim has been resident at least as long as every other resident page of its process, and its frame is not a kernel frame |
| Transparency.AllocPagesKeeps | src/mm64.c:656-696 | frame allocation hands out n frames in flight or returns every one of them, and changes no visible byte either way |
| Transparency.AllocPagesExact | src/mm64.c:656-696 | it succeeds if and only if n is at most the free frames plus the evictions that swap space and resident pages allow |
| Transparency.AllocFromFree | src/mm64.c:656-696 | as long as free frames last they are handed out from the head of the list, in order |
| Transparency.ReleaseKeeps | src/mm64.c:514-525 | releasing in-flight frames puts exactly those frames on the free list and keeps the ownership invariant and every byte |
| Transparency.ReleaseOrder | src/mm64.c:514-525 | released frames come to the head of the free list, the last one first |
| Transparency.MapFramesInv | src/mm64.c:482-504 | mapping in-flight frames to fresh pages leaves no frame in flight and keeps single ownership and the exact, age-ordered FIFO |
| Transparency.MapFramesMaps | src/mm64.c:482-504 | the n pages name the n frames in order, sit newest first at the head of the FIFO, and no other entry changes |
| Transparency.GetPageKeeps | src/libmem.c:606-663 | a page can be made resident exactly when it is present, or swapped with a free slot and a victim at hand; the returned frame backs it, no visible byte changes, and a failure changes nothing |
| Transparency.ReadByteKeeps | src/libmem.c:671-700 | a read returns the byte of the process's own page view, whichever device held it, and changes no view |
| Transparency.WriteByteKeeps | src/libmem.c:708-738 | a write changes that one byte of that page in the view of all pages, or fails and changes nothing |
| Bytes.ReadBytes | src/libmem.c:671-700 | on the flat byte map: a read returns the process's byte and changes no byte of any process or the kernel |
| Bytes.WriteBytes | src/libmem.c:708-738 | on the flat byte map: a write changes exactly one byte of one process |
| Runs.StepKeeps | src/libmem.c:419-855 | every instruction, process start, finish and exit keeps the global invariant and changes no existing user byte that it does not address, failing or not |
| Runs.RunKeeps | src/libmem.c:419-855 | the invariant holds after every run |
| Runs.UntouchedByteStays | src/libmem.c:606-738 | over a run of any length by any processes a byte keeps its value until its own process writes it or exits |
| Runs.ReadReturnsLastWrite | src/libmem.c:748-855 | swap transparency: a successful read returns the last byte written at that address by that process, across any interleaved run with evictions, swap-ins, allocations and failures |
| Refinement.StepRefines | src/libmem.c:419-855 | the exact byte map after every step, failing or not: each address of each process holds what the step stored there, nothing if its process exited, otherwise what it held, and something new exactly where a growth added a page |
| Refinement.CopyToPrefix | src/libmem.c:1646-1682 | a copy to user space that breaks off is a complete copy of the bytes before |
| Refinement.ReadReturnsLastStored | src/libmem.c:748-855 | a successful read returns the last byte stored, by WRITE, by address or by a copy from the kernel, across any interleaved run |
| Acceptance.ReadAccepts | src/libmem.c:748-785 | READ succeeds if and only if the offset lies inside the symbol, the symbol below the top of user space, and the page is resident or can be brought in; it returns that byte |
| Acceptance.WriteAccepts | src/libmem.c:820-855 | WRITE succeeds exactly there and stores the byte; otherwise nothing changes |
| Acceptance.IoAccepts | src/sys_mem.c:57-120 | access by address succeeds if and only if the address is below the break and its page is resident or can be brought in |
| Acceptance.AllocAccepts | src/libmem.c:419-495 | ALLOC refuses a bad symbol and no bytes; otherwise it succeeds whenever a free node has room or enough frames and user addresses are left, hands out the requested size, and where regions are disjoint and backed every byte of it exists |
| Acceptance.FailedGrowthEffect | src/mm-vm.c:115-166 | a growth that cannot be mapped raises the limit, adds no page, and puts exactly the bytes of the unset node on the free list |
| Acceptance.FreeAccepts | src/libmem.c:504-550 | FREE succeeds if and only if the symbol is not empty; exactly its bytes become free, the symbol is empty, and nothing else changes |
| Acceptance.KmallocAccepts | src/libmem.c:1289-1352 | KMALLOC succeeds if and only if the symbol is empty and enough consecutive frames are free; the symbol covers the lowest of them and every byte exists |
| Acceptance.CopyFromExact | src/libmem.c:1608-1644 | copy from user succeeds if and only if every offset lies inside both symbols, every user page is resident or can be brought in and every kernel byte exists, across page boundaries and any number of swap-ins |
| Acceptance.CopyToExact | src/libmem.c:1646-1682 | copy to user succeeds if and only if the same holds |
| Acceptance.CopyAccepts | src/libmem.c:1608-1682 | both copy instructions then move every byte of the range |
| Acceptance.GetPageReach | src/libmem.c:606-663 | bringing a page in changes for no other page whether it can be brought in |
| Acceptance.SpawnEffect | src/sched.c:206-238 | a process can start if and only if its pid is unused and fewer than 50 are live; it starts with an empty area, empty symbols and no byte, last on the running list |
| Acceptance.FinishEffect | src/sched.c:270-287 | a process leaves the running list if and only if it is on it; the others keep their order and nothing else changes |
| Acceptance.StoppedDoesNothing | src/sched.c:270-287 | a process that is not on the running list executes nothing |
| Runs.GrowKeeps | src/mm-vm.c:115-166 | growing an area, mapped or not, keeps the invariant and every existing byte |
| ReachableStates.OneOwner | src/mm64.c:656-696 | each frame is owned exactly once among free list, used list, frames in flight and user pages, each slot exactly once among free list and user pages |
| ReachableStates.ReachableOwnership | src/mm-memphy.c:150-203 | the same in every state reachable from a formatted machine, whose devices never change size |
| ReachableStates.ReachableFifo | src/mm64.c:482-504 | in every reachable state a FIFO list holds exactly the resident pages of its process, each once, ordered by when they became resident |
| ReachableStates.StepKernel | src/libmem.c:1608-1716 | a step changes a kernel byte only by copying user bytes over it or by releasing it at the exit of a process whose symbols cover it |
| ReachableStates.UntouchedKernelByteStays | src/libmem.c:1608-1716 | kernel memory keeps its bytes over whole runs |
| KernelFrames.ScanRuns | src/libmem.c:945-1036 | the scan of the sorted frame list finds the first run of n consecutive numbers, or there is none |
| KernelFrames.FirstRunIsLowest | src/libmem.c:945-1036 | that run starts at the lowest n consecutive free frames, and no run in the list means no such frames |
| KernelFrames.TakeRunMoves | src/libmem.c:945-1036 | exactly the frames of the run move from free to used and none is lost or duplicated |
| KernelFrames.ReleaseRunMoves | src/libmem.c:1167-1197 | exactly the used frames of the range return to the free list |
| KernelFrames.ReleaseUndoesTake | src/libmem.c:1167-1229 | release after allocate restores the free set and the used set |
| KernelMemory.KTakeKeeps | src/libmem.c:1199-1229 | a kernel allocation keeps the invariant, every user byte and every existing kernel byte |
| KernelMemory.KReleaseKeeps | src/libmem.c:1167-1197 | a release removes exactly the kernel pages of the range and changes no user byte |
| KernelMemory.KFrameIdentity | src/libmem.c:1231-1262 | a kernel address is mapped exactly when its frame is on the used list, and translates to its distance from the kernel base |
| KernelMemory.ReapUserKeeps | src/libmem.c:1931-2010 | exit removes exactly the pages of the process, keeps single ownership without them, and every other page and kernel page keeps its bytes |
| Bytes.KWriteBytes | src/libmem.c:1701-1716 | a kernel write changes exactly the addressed kernel byte and no user byte |
| Bytes.CopyFromMoves | src/libmem.c:1608-1644 | copy from user: no user byte changes, kernel bytes change only in the addressed range, and on success the range holds the user bytes, across page boundaries and swap-ins |
| Bytes.CopyToMoves | src/libmem.c:1646-1682 | copy to user: no kernel byte changes, user bytes change only in the addressed range of that process, and on success the range holds the kernel bytes |
| Bytes.CopyRoundTrip | src/libmem.c:1608-1682 | out and back is the identity; back into the same symbol leaves every process's memory as it was |
| Bytes.UserRegionRejected | src/libmem.c:1684-1716 | a user region in the kernel role is always rejected and no byte changes |
| Regions.EnlistCovers | src/mm64.c:833-866 | the coalescing insert adds exactly the bytes of the region to the bytes covered by the list, ordered or not |
| Regions.EnlistJoins | src/mm64.c:833-866 | the insert replaces the region and those of its two neighbours in the list that touch it by one node that spans them, and keeps every other node |
| Regions.EnlistCoalesces | src/mm64.c:833-866 | a coalesced list without zero-length nodes stays coalesced |
| Regions.NextMerges | src/mm64.c:853-857 | a free node that starts where the region ends is merged if and only if no zero-length node stands before it at or above the region's start |
| Regions.PrevMerges | src/mm64.c:859-863 | a free node that ends where the region starts is merged if and only if no zero-length node stands behind it below the region's start |
| Regions.ZeroLengthKeepsApart | src/mm64.c:833-866 | a list in which a zero-length node keeps two touching free nodes apart |
| Regions.EnlistOrdered | src/mm64.c:833-866 | inserting a region apart from all nodes keeps the non-empty nodes strictly ascending and disjoint, zero-length nodes included in the list |
| Regions.CutCovers | src/libmem.c:2052-2110 | first fit removes exactly the bytes it hands out, also where it leaves a zero-length node |
| Regions.CutOrdered | src/libmem.c:2052-2110 | and keeps the list ordered |
| Regions.EnlistUndoesCut | src/libmem.c:2052-2110 | on a coalesced list without zero-length nodes, giving back what was cut off restores the very same list |
| Accounting.GrowFinds | src/libmem.c:453-494 | in every reachable state, after a growth that can be mapped the second lookup of ALLOC cannot fail |
| Accounting.AllocServed | src/libmem.c:419-495 | in every reachable state, an ALLOC that can be served succeeds at the first node that fits |
| Accounting.AllocApart | src/libmem.c:419-495 | a served ALLOC, also into a symbol that holds a region, keeps regions, free nodes and kernel frames disjoint and backs every byte of the new region with a page |
| Accounting.StepApart | src/libmem.c:419-550 | a step keeps regions and free nodes pairwise disjoint below the limit, the non-empty free nodes ascending and every byte backed if and only if an ALLOC can be served and FREE does not target a kernel region |
| Accounting.RunApart | src/libmem.c:419-550 | the same over every run of such steps, whatever symbols are overwritten |
| Accounting.RunApartFromBoot | src/libmem.c:419-550 | and over every such run from boot |
| Coverage.OverwriteBreaks | src/libmem.c:441-451 | ALLOC into a symbol that holds a region always breaks the exact partition |
| Accounting.UnmappedGrowthBreaks | src/mm-vm.c:153-160 | a growth that cannot be mapped always leaves addresses below the limit without a page |
| Accounting.FreeKernelBreaks | src/libmem.c:519-546 | FREE of a kernel region always puts kernel addresses on the user free list |
| Coverage.StepExact | src/libmem.c:419-550 | a step keeps the exact partition of every area and of the used frames if and only if it is one of those steps and ALLOC targets an empty symbol |
| Coverage.FreeUndoesAlloc | src/libmem.c:504-550 | FREE after ALLOC gives back the same free bytes and the same symbol table, and the very same free list if it was coalesced without zero-length nodes |
| Leaks.KmallocExact | src/libmem.c:1315-1352 | KMALLOC into an empty symbol succeeds if and only if enough consecutive frames are free; the block starts at the lowest of them, has the requested size, and every byte of it exists |
| Coverage.KmallocComplete | src/libmem.c:1315-1352 | KMALLOC always keeps the partition: its frames become owned by exactly one symbol |
| Accounting.ReapShape | src/libmem.c:1890-2010 | in every reachable state, exit removes exactly the pages of the process and takes exactly the frames of its kernel symbols off the used list |
| Coverage.ReapComplete | src/libmem.c:1890-2010 | exit keeps the partition |
| ReachableStates.ReapReturns | src/libmem.c:1890-2010 | in every reachable state, exit adds to the free lists exactly the frames of the process's present pages, the used frames of its kernel symbols and the slots of its swapped pages, each once |
| Coverage.SoundRunAccounts | src/libmem.c:419-550 | the exact partition holds after every run of sound steps |
| Coverage.SoundRunFromBoot | src/libmem.c:419-550 | and over every such run from boot |
| Leaks.StepKeepsBacked | src/libmem.c:419-550 | in every reachable state, a step that drops no kernel symbol keeps every used frame owned by a symbol |
| Leaks.StepLeaks | src/libmem.c:419-550 | where kernel symbols own the used frames, a step loses a frame if and only if ALLOC replaces, or FREE clears, a kernel symbol that holds it |
| Leaks.OverwriteLoses | src/libmem.c:441-451 | where regions are disjoint, a served ALLOC loses a frame if and only if its symbol holds a kernel region |
| Leaks.UserTargetsLoseNothing | src/libmem.c:419-550 | a program that targets only user symbols with ALLOC and FREE never loses a frame |
| Leaks.AllExited | src/libmem.c:1963-2010 | whatever the programs did, with no process left every slot is free and every frame is free or on the kernel's used list |
| Leaks.NoLeak | src/libmem.c:1890-2010 | after every run from boot that drops no kernel symbol, with failed allocations and overwritten user symbols, once all processes have exited exactly all frames and all slots are free, each once |
| Leaks.LeaksExactly | src/libmem.c:1890-2010 | as long as ALLOC hands out user addresses only, RAM is entirely free after the last exit if and only if the run dropped no kernel symbol |
| Leaks.OrderlyLeaksExactly | src/libmem.c:419-550 | over runs from boot whose ALLOCs can be served and whose FREEs target user regions, RAM is entirely free after the last exit if and only if no ALLOC targeted a kernel symbol |
| Witnesses.FreedKernelBlockLeaks | src/libmem.c:519-546 | a run from boot in which FREE accepts a kernel block and its frame is never returned |
| Witnesses.OverwrittenKernelBlockLeaks | src/libmem.c:441-451 | a run from boot in which ALLOC overwrites the symbol of a kernel block and its frame is never returned |
| Witnesses.UnbackedAllocSucceeds | src/mm-vm.c:115-166 | a run from boot in which a second ALLOC reports success although no frame was left, and a read of the new region fails |
| MemPhys.MemPhy.constructor | src/mm-memphy.c:150-177 | a formatted device has exactly its whole frames on the free list, in order, and zero bytes |
| MemPhys.MemPhy.Write | src/mm-memphy.c:122-144 | a random-access write changes that byte only, which is a byte of its frame or of no frame, and fails exactly beyond the end |
| MemPhys.MemPhy.GetFreeFp | src/mm-memphy.c:179-203 | takes the head of the free list |
| MemPhys.MemPhy.PutFreeFp | src/mm-memphy.c:250-271 | puts the frame at the head of the free list, before all others |
| MemPhys.MemPhy.AllocateContiguous | src/libmem.c:945-1036 | returns the lowest start of n consecutive free frames, fails exactly if there is none, and moves exactly that run |
| MemPhys.MemPhy.ReleaseContiguous | src/libmem.c:1167-1197 | in place: the used frames of the range return to the free list |
| MemPhys.SwapCpPage | src/mm64.c:745-764 | the byte-wise copy replaces exactly one page by the source page, and fails exactly if one of the frames is not whole |
| Machines.Machine.FindPresentVictimInProc | src/mm64.c:552-571 | the popping loop on the FIFO list does what its specification says |
| Machines.Machine.FindGlobalVictim | src/mm64.c:573-599 | so does the scan of the running list |
| Machines.Machine.SwapOutVictimPage | src/mm64.c:601-647 | eviction in place equals the specified eviction; its page copy cannot fail |
| Machines.Machine.AllocPagesRange | src/mm64.c:656-696 | the allocation loop equals its specification, including the release of all frames on failure |
| Machines.Machine.MapRange | src/mm64.c:482-504 | the mapping loop equals its specification |
| Machines.Machine.PgGetPage | src/libmem.c:606-663 | swap-in in place equals its specification |
| Machines.Machine.PgGetVal | src/libmem.c:671-700 | a read through the physical address equals the specified read |
| Machines.Machine.PgSetVal | src/libmem.c:708-738 | a write through the physical address equals the specified write |
| Machines.Machine.KernelAllocContiguous | src/libmem.c:1199-1229 | frame choice, list surgery and page mapping together equal the specified kernel allocation |
| Machines.Machine.CollectPages | src/libmem.c:1931-2010 | the collecting half of exit equals its specification |
| Kernels.EnlistVmRgNode | src/mm64.c:833-866 | the list walk with both merges equals the specified insert |
| Kernels.GetFreeVmrgArea | src/libmem.c:2052-2110 | the list walk cuts the region off the first node with room and changes nothing else |
| Kernels.Kernel.IncVmaLimit | src/mm-vm.c:115-166 | growth in place, with the dead rollback, equals its specification |
| Kernels.Kernel.Alloc | src/libmem.c:419-495 | ALLOC in place equals its specification |
| Kernels.Kernel.CopyFromUser | src/libmem.c:1608-1644 | the copy loop, with the refusal of symbols out of range even for no bytes, equals its specification |
| Kernels.Kernel.CopyToUser | src/libmem.c:1646-1682 | the copy loop, with the refusal of symbols out of range even for no bytes, equals its specification |
| Runs.OffsetsFit | src/libmem.c:1608-1682 | offsets into a symbol stay below 2^32, so the 32-bit offsets of the copy loops are refused before they could wrap around |
| Kernels.Kernel.Execute | src/libmem.c:419-855 | every step executed in place is the step of the run theorems, result included, and re-establishes the invariant |
| Kernels.Kernel.FreePcbMemph | src/libmem.c:1890-2010 | exit executed in place is the exit step of the run theorems |
| Bits.AddressRoundTrip | src/mm64.c:261-280 | a canonical address is recovered from its five indices and offset |
| Bits.PathRoundTrip | src/mm64.c:261-280 | any five indices and offset come back from the canonical address they form |
| Bits.PathDeterminesPage | src/mm64.c:261-280 | canonical addresses with equal indices share the page and the address space |
| Bits.PteRoundTrip | include/mm64.h:66-84 | frame and slot numbers decode to what was stored if and only if they are below 2^40, with exactly one of present and swapped set |
| Bits.SwapTypeRoundTrip | include/mm64.h:66-84 | the swap type is read back from any swapped entry |
| Bits.KernelAddrExact | src/libmem.c:1132-1135 | every byte of a frame below 2^40 has a canonical kernel address if and only if the frame is below 2^35 |
| Bits.KernelFrameBack | src/libmem.c:1132-1140 | the kernel address of a frame below 2^35 maps back to it |
| Bits.KernelTranslation | src/libmem.c:1231-1262 | a mapped kernel address translates to its distance from KMEM_VADDR_BASE |
| PageTables.LinkSame | src/mm64.c:110-212 | creating a missing level changes no lookup in any address space |
| PageTables.StoreLookup | src/mm64.c:406-420 | writing an entry changes exactly one key of the flat map |
| PageWalk.SetChangesOnePage | src/mm64.c:308-420 | in terms of addresses: one page of one address space changes, no other page, process or half |
| PageWalk.UserAddressNotInKernel | src/libmem.c:1044-1107 | the kernel walk finds nothing at a user address |
| PageWalk.Tables.Walk | src/mm64.c:110-212 | the walk chooses the root by the side of the address and arrives at its leaf or fails; it changes no entry, creates nothing unless asked, always arrives with memory for five tables, and rejects non-canonical addresses |
| PageWalk.Tables.KernelWalk | src/libmem.c:1044-1107 | the kernel walk does the specified walk from the kernel root, for any address, and keeps the halves apart at kernel addresses |
| PageWalk.WalksAgree | src/libmem.c:1044-1107 | at a kernel address both walks give the same leaf and build the same tables |
| PageWalk.Tables.KernelMapPage | src/libmem.c:1142-1165 | exactly the kernel page of the frame changes, or a failed walk changes no entry |
| PageWalk.Tables.KernelClearPage | src/libmem.c:1174-1180 | exactly the kernel page of the frame loses its entry |
| PageWalk.Tables.SetFpn | src/mm64.c:346-375 | one page changes to the given frame, or a failed walk changes no entry |
| PageWalk.Tables.SetSwap | src/mm64.c:308-339 | one page changes to the given slot, or a failed walk changes no entry |
| PageWalk.Tables.GetEntry | src/mm64.c:383-399 | reading an entry creates nothing |
| PageWalk.Tables.VmapPageRange | src/mm64.c:453-525 | all or nothing: after a bad range or a failed table allocation every frame is back on the free list and no entry changed; otherwise all pages map to the given frames in order, they head the FIFO list newest first, and no other entry changed |
| PageWalk.RangeGivesPages | src/mm64.c:47-79 | a range that passes validation consists of canonical addresses of different pages |
| PageMap.MappableIsValidated | src/mm64.c:47-79 | areas can grow over exactly the user ranges that pass validation |
| PageTables.DropChangesOneSpace | src/mm64.c:1026-1083 | freeing the tables of a process clears its lookups and no other |
| PageCollect.CollectIsExact | src/libmem.c:1931-1960 | the recursive traversal finds exactly the pages with an entry, each once |
| PageMap.SetResident | src/mm64.c:346-375 | pte_set_fpn on the trees is the map update that makes a page resident; a failed one changes neither page table |
| PageMap.SetSwappedOut | src/mm64.c:308-339 | pte_set_swap on the trees is the map update that evicts a page |
| PageMap.KernelMapRange | src/libmem.c:1199-1229 | the mapping loop on the kernel tree is the update of the kernel page table, undone if a table cannot be allocated |
| PageMap.KernelClearRange | src/libmem.c:1167-1180 | the clearing loop on the kernel tree removes exactly the frames of the range |
| PageMap.TranslationAgrees | src/libmem.c:1231-1262 | translating a kernel address through the tree gives the frame of the paging core |
| PageMap.BootTables | src/mm64.c:88-105 | tables just set up hold the page tables of a machine just started |
| PageMap.TreesSurvive | src/mm64.c:110-212 | trees that gain tables only still hold the same user and kernel page tables |
| PageMap.ExitTrees | src/mm64.c:1026-1083 | without the tables of an exited process the trees are still well formed and hold the page tables without its pages |
| PageMap.WalkEnumerates | src/libmem.c:1931-1960 | the exit traversal gives back each page of the process's flat map exactly once |
| PageMap.NoRootNoPage | src/libmem.c:1931-2010 | a process without a root table has no page to give back |
| SlabCache.Slab.constructor | src/libmem.c:1354-1392 | the free list holds all slots in address order |
| Kernels.Kernel.CachePoolCreate | src/libmem.c:1425-1514 | it fails and changes nothing exactly when no slot fits, the pool id is taken or no run of free frames is long enough; otherwise the pool lies inside the lowest such run, exactly its frames are taken, and its slab is on the empty list |
| SlabCache.Pool.Alloc | src/libmem.c:1541-1606 | the k-th allocation gets slot k, it fails exactly when all slots are taken or the symbol is not empty, the free count is the free-list length, and the slab is on the one list its count dictates |
| SlabCache.SlotsDisjoint | src/libmem.c:1541-1606 | slots are pairwise disjoint and inside the pool |
| SlabCache.SymbolRegionOverruns | src/libmem.c:1597-1598 | the recorded region of slot i stays inside the pool if and only if i is 0, and overlaps every later slot |
| Mlq.DispatchChoice | src/sched.c:118-177 | the dispatcher returns nothing exactly when all queues are empty, and otherwise the head of the highest-priority queue that is eligible |
| Mlq.WaitShrinks | src/sched.c:118-177 | every dispatch serves a waiting level or lowers its measure |
| Mlq.BoundedWaiting | src/sched.c:118-177 | position k of any level of n is dispatched within (k+1)·n·(n+1) dispatches, whatever arrives in between |
| Mlq.ExactQuota | src/sched.c:127-173 | between two consecutive resets of either kind in any run, no level exceeds n-p dispatches; a level that still waits at the second reset had exactly n-p, and so had every level if the budgets were used up |
| Mlq.PassTwo | src/sched.c:139-153 | a call that resets first does what it would do on full budgets |
| Queues.Queue.Dequeue | src/queue.c:23-40 | removes the oldest entry and keeps the order |
| Queues.Queue.Purge | src/queue.c:42-64 | removes the first occurrence and keeps the order |
| Queues.Queue.Enqueue | src/queue.c:12-21 | appends, and fails exactly on a full queue |
| Queues.Queue.Find | src/sched.c:249-265 | returns the first tracked process with that pid, or nothing if there is none |
| Scheduler.Mlqs.constructor | src/sched.c:73-90 | empty queues and the full budget of a round |
| Scheduler.Mlqs.GetProc | src/sched.c:118-177 | the two passes and the housekeeping in place are one dispatch of the specification |
| Scheduler.Mlqs.PutProc | src/sched.c:179-204 | appends to the queue of the process's priority, or reports the error exit exactly on a full queue or bad priority |
| Scheduler.Mlqs.AddProc | src/sched.c:206-238 | enters the process in its queue and in the running list, or in neither |
| Scheduler.Mlqs.FinishProc | src/sched.c:270-287 | removes the process from the running list only |
| Placement.StartPlaced | src/sched.c:73-90 | exclusive placement holds at the start |
| Placement.ActPlaced | src/os.c:131-157 | every loader and CPU step keeps: queues and CPUs together hold exactly the running list |
| Placement.RetireEffect | src/os.c:141-149 | finishing leaves the CPU idle and the process nowhere: off the running list, whose order is kept, while queues, budgets and other CPUs do not change |
| Placement.RequeueEffect | src/os.c:150-157 | putting back leaves the CPU idle and the process last in the queue of its priority, and changes nothing else |
| Placement.LoadEffect | src/sched.c:206-238 | loading puts the process last in its queue and on the running list, and changes nothing else |
| Placement.FetchEffect | src/os.c:131-140 | an idle CPU gets a process if and only if one is queued: the head of some queue, which loses it |
| Placement.ExactlyOnePlace | src/sched.c:179-287 | a tracked process is at exactly one position of one queue or on exactly one CPU, and nothing else is anywhere |
| Placement.OnlyLoadHalts | src/sched.c:179-238 | putting a process back never meets a full queue; the error exit is taken exactly by loading with 50 live processes or a bad priority |
| Placement.EveryRunPlaced | src/os.c:131-157 | both hold after every run of loader and CPUs from an empty scheduler |
| Placement.FindFindsCaller | src/sched.c:249-265 | the scan of the running list for the pid of a process that some CPU holds finds that process |
| Placement.EveryProcessRuns | src/os.c:131-157 | whatever loader and CPUs do, a process at position k is given to a CPU by the time idle CPUs have asked (k+1)·140·141 times |
| Processors.Cpus.Load | src/sched.c:206-238 | loading in place is the load step, or its error exit |
| Processors.Cpus.Fetch | src/os.c:131-140 | fetching in place is the fetch step |
| Processors.Cpus.Requeue | src/os.c:150-157 | putting back in place is the requeue step, or its error exit |
| Processors.Cpus.Retire | src/os.c:141-149 | finishing in place is the retire step |
| Processors.Cpus.FindCaller | src/sched.c:249-265 | find_proc called for the process a CPU holds returns that process |
| Timer.InitInv | src/timer.c:96-119 | the protocol invariant holds when any number of devices is attached |
| Timer.StepInv | src/timer.c:22-94 | every atomic step of timer and devices, spurious wake-ups included, keeps the protocol invariant |
| Timer.RunInv | src/timer.c:22-94 | it holds after every interleaving |
| Timer.TimeAdvancesSafely | src/timer.c:22-60 | the time changes by one tick only, and never while an attached, unfinished device works in its slot |
| Timer.WorkingDeviceOnTime | src/timer.c:62-78 | a working device has returned from next_slot exactly once per tick |
| Timer.NoDeadlock | src/timer.c:22-94 | in every reachable state some thread can move, a device can be called, or the protocol is over |
| Timer.InternalDescends | src/timer.c:22-94 | every effective internal step lowers a rank |
| Timer.InternalRunsEnd | src/timer.c:22-94 | so no schedule keeps the threads busy forever between two calls |
| Timer.AtRest | src/timer.c:22-94 | and when nothing can move, every pending next_slot call has been answered unless another device still works |
| Timer.CallsStart | src/timer.c:62-94 | a working device can start a call at once, or the timer holds its event lock and releases it with its next step |
| Timer.RoundEnds | src/timer.c:22-60 | at the end of a round the timer stops if and only if it was asked to or every device had finished when scanned, and then every device has finished |
| Timer.StopIsAsked | src/timer.c:121-133 | main asks the timer to stop after joining every device thread: the request takes effect exactly when all have left |
| Timer.StopIsHeeded | src/timer.c:121-133 | after it the timer comes to rest only by stopping |

## Left out

- Interleavings inside one memory instruction: `__alloc` drops its lock around the growth syscall (src/libmem.c:462-472), so instructions are atomic steps here and finer races are not modelled.
- 64-bit wrap-around of region ends and of the raised limit, and a limit that failed growths have raised into the kernel half of the address space; ALLOC sizes are bounded by 0x7ffff000 (`System.AllocSize`), above which the page count times the page size overflows a C int.
- The products of page index and page size in `kernel_release_contiguous_region` and in the mapping loop of `kernel_alloc_contiguous_region` (src/libmem.c:1176 and 1216) are ints in the program and unbounded here.
- `malloc` succeeds everywhere except for page tables, where its failure is the property (`PageWalk.Tables`).
- Machines.Machine: its page tables are the flat maps; that the trees refine both maps, write by write, is proved separately in `PageMap`, and table-allocation failure only there and in `PageWalk`.
- Kernels.Kernel.FreePcbMemph: the release of slab pools at exit is not in it, because slab pools are not steps of the runs.
- Linked lists are sequences: relinking nodes in place and aliasing between list nodes are not captured.
- More than one area per process and the overlap check between areas (src/mm-vm.c:88-107); the program only ever creates area 0.
- Slab pools are modelled by themselves, not as steps of the runs, so the no-leak theorem is about processes without slab pools.
- The raw operations SYSMEM_MAP_OP and SYSMEM_SWP_OP, which bypass the ownership discipline.
- Sequential device mode, which is never selected (src/os.c:355).
- Which page number the exit traversal meets first is a parameter of the exit step; `PageMap.WalkEnumerates` shows that the traversal supplies an admissible order.
- Stopping of idle CPUs: an idle CPU skips the completion test (src/os.c:137-140), so no claim is made that every CPU stops.
- Time slices and instruction execution inside `cpu_routine`; only its get, put and finish transitions are steps.
- Register files: instructions return their byte or flag, and copying it into a register of the process is not modelled.
- `init_pte` and `vmap_pgd_memset`, which write entries with caller-chosen or dummy contents and are not on the paths of the modelled instructions.
- Syscall dispatch, which hands the arguments of an instruction to the function modelled here.
- The configuration file, the loading of programs, the log and the trace dumps.
