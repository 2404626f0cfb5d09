# Systems labs, modelled and proved

Dafny models of the protocols, allocators and arithmetic in this repository of systems programming labs, with proofs of
what each of them is for. The parts are independent of each other; they share `arithmetic.dfy`, a handful of facts about
products and quotients, and the option type of `wrappers.dfy`. Code that updates state in place is a class whose methods
are proved against functions on values; code that runs in several threads is a state machine whose steps are cut where a
lock is given up, and the theorems are about every schedule of every number of threads, wakeups without cause included.

- **Virtual memory** (`vm_*.dfy`). A machine of 250 frames with a two-level page walk, a 16-entry translation list and a
  swap directory keyed by page table entry. Over every legal run of process additions, segment changes, context
  switches, reads and writes, of any length, the machine gives the answers of a flat memory of zeros, segmentation
  faults included, and it gets to the end exactly if the frames for directories and tables do not run out: two for a
  process, and one for the first permitted access to 4 MB that process has not touched
  (`VirtualMemory.RunRefinesFlatMemory`, `VirtualMemory.RunCompletes`, `VirtualMemory.MachineIsFlatMemory`). A free
  frame is always taken before a page is evicted, so a run whose tables and touched pages fit in memory together writes
  nothing to swap and faults in no page twice (`WorkingSet.WorkingSetFits`). A frame is owned by an entry exactly if
  that entry is present and maps it, eviction and page faults change no page, and a hit in the translation list is
  always what the walk would give. That list adds a node on every access, hit or not: seven further accesses never drive
  a page out (`RecentPages.SevenAreRemembered`), but sixteen to one page drive out all others, so the node freed is not
  always the one used least recently (`RecentPages.OnePageFillsTheList`). The classes `Tlb`, `PhysicalKernel` and `Mmu`
  carry out tlb.c, kernel.c and mmu.c step by step and are proved equal to that machine.
- **Heap allocator** (`heap_*.dfy`). The heap is a sequence of memory cells in which a store into the middle of a header
  destroys the header. Every call keeps the heap tiled by blocks with right headers and boundary tags, and the free list
  a doubly linked list of exactly the free blocks (the back link of its head exempt). `HeapClient.Run` lets a client
  make any sequence of calls with pointers it holds: what it sees is a map from pointers to bytes, changed by its own
  calls only; `HeapClient.BytesStay` says that over a whole run. `HeapLaws.AllocateAndFree`: allocating by a split and
  freeing again restores the blocks. Free blocks come to touch exactly by freeing a block whose free upper neighbour
  lies above `tail_mem` (`HeapLaws.Release`), which does happen (`HeapLaws.FreeBlocksCanTouch`).
- **Digits of pi by map and reduce** (`pi_*.dfy`). 32-bit limbs, 128-bit words, Newton's reciprocal, Montgomery powers,
  and the distributed sum. `PiSeries.MapReduceIsPlouffe`: for any cutting of the four terms into chunks and any order of
  arrival, the reduced sum is that of the big-integer reference, 64 bits of it; `PiSeries.ComputePi` carries it out.
  That sum is the formula of BBP.py with each of its fractions truncated (`BbpFormula.PlouffeIsBbp`), and, before it is
  reduced modulo 2^64, lies within 2 digit + 51 of 2^64 16^digit times the exact formula (`BbpFormula.ResultIsClose`).
  Where the arithmetic is wrong, the exact condition is proved. `divide`, and with it `fraction`, is right for every
  dividend exactly if d + 2^128 mod d is at most 2^64, as for every d up to 2^63
  (`NewtonDivision.DivisorsThatDivideExactly`); `montgomeryModPow2` exactly for odd moduli below 2^62; `modPow2`, for
  divisors of the first kind, but for 2^0 modulo 1, 2^1 modulo 2 and the odd moduli from 2^62 on.
- **Parallel make** (`parmake_*.dfy`). Tricolour cycle detection is sound and complete over the whole sequence of goals
  with one colour map; the remaining rules are listed once each, dependencies first; and for every schedule of the
  worker pool the build ends, nothing is run twice or too early, and the states and the rules run are those of a build
  with one thread (`WorkerPoolProof.ParallelBuildIsSequential`, and `ParallelMake.Parmake` from the goals to the end).
  The broadcast is not made under the lock the waiter holds, so it can come between the last status a thread reads and
  its wait, and that thread then sleeps although there is work (`MissedBroadcast.BroadcastCanBeMissed`). The build ends
  all the same, because the first pending rule only ever waits for a thread that is awake.
- **Synchronisation** (`sync_*.dfy`). The reusable barrier separates its rounds for any number of threads and n >= 2,
  and every schedule of any number of calls ends with all of them returned but those of a round that lacks threads
  (`ReusableBarrier.EveryCallReturns`); with n = 1 one call returns and no other ever does, with n = 0 nobody waits. The
  blocking queue is first in, first out and loses no wakeup; where nobody can go on, all wait at a full queue or all at
  an empty one (`WorkQueue.CallsAreServed`). The password workers, with one NULL handed from worker to worker, handle
  every task once and all finish.
- **Block layer of minixfs** (`fs_*.dfy`). Growing a file keeps its bytes, its blocks distinct, and all other files,
  also when it fails half way; it fails exactly if more blocks are missing than unused. A read across any number of
  blocks is a slice of the flat file. A write lays the buffer over the file exactly if the buffer repeats itself where
  it crosses into another block (`MiniFile.Volume.Write`), because the code copies the start of the buffer into every
  block; for every buffer of a length that is so exactly if the write stays inside one block
  (`BlockMap.WriteIsRightInOneBlock`).
- **Line splitter** (`split_lines.dfy`). The chunks of every text of a length, in order, make up that text exactly if
  the length times one less than the number of chunks stays below 2^64 (`LineSplitter.SplittingIsExact`); no chunk
  boundary splits a line.

Machine integers are mathematical ones with their wrap-around written out. What the code takes from outside is a parameter:
whether `sbrk` can extend the heap, which commands succeed, which passwords are found, which unused block is chosen, the
Newton seed.

## Model

| member | source | states |
|---|---|---|
| KernelSpec.FirstFree | ideal_indirection/kernel.c:23-32 | the frame granted is the first one without an owner |
| KernelSpec.FirstVictim | ideal_indirection/kernel.c:39-50 | the frame evicted is the first that is neither reserved nor the asking entry's own |
| KernelSpec.EvictKeepsPages | ideal_indirection/kernel.c:41-45 | writing a page to swap and clearing its entry keeps frame ownership and the contents of every page, and frees exactly that frame |
| KernelSpec.PageInKeepsPages | ideal_indirection/mmu.c:92-97 | granting a zeroed frame and filling it from swap, if the page was evicted before, keeps every page, the loaded one included |
| KernelSpec.StoreChangesOnePage | ideal_indirection/mmu.c:119-122 | a store into the frame of a present entry changes the page of that entry and of no other |
| KernelSpec.ReclaimFails | ideal_indirection/kernel.c:22-53 | a frame is found, free or freed by an eviction, unless all frames are reserved; paging structures are never evicted and every page stays |
| KernelSpec.AskTakesFreeFirst | ideal_indirection/kernel.c:23-52 | told by the frame table alone: the first free frame, else the first frame of another entry, whose page goes to swap, else none; no other frame, owner or swapped page changes |
| KernelSpec.LoadWithFree | ideal_indirection/mmu.c:88-98 | while a frame is free a page fault takes no page away and changes no other entry |
| KernelSpec.LoadEvictsOne | ideal_indirection/mmu.c:88-98 | with no frame free a page fault takes away exactly the page in the first frame that holds one |
| KernelSpec.CountReservedUpdate | ideal_indirection/kernel.c:25 | the number of reserved frames moves only when a slot becomes or stops being reserved |
| KernelSpec.AskForTable | ideal_indirection/kernel.c:22-53 | a frame for a page table is fresh, maps nothing and has nothing in swap; it is refused exactly if all frames are reserved |
| KernelSpec.AskForDirectory | ideal_indirection/kernel.c:22-53 | a frame for a directory is fresh and empty, and no page changes; it is refused exactly if all frames are reserved |
| KernelSpec.LoadKeepsPages | ideal_indirection/mmu.c:88-98 | loading an absent page, with eviction if need be, makes it present and keeps every page |
| KernelMemory.PhysicalKernel.EvictFrame | ideal_indirection/kernel.c:41-45 | the in-place eviction is the eviction the lemmas are about |
| KernelMemory.PhysicalKernel.AskKernelForFrame | ideal_indirection/kernel.c:22-53 | the first free frame is granted and nothing else changes; only if none is free the first page that may go is evicted, alone; else the request fails |
| KernelMemory.PhysicalKernel.WritePageToDisk | ideal_indirection/kernel.c:84-103 | the swap directory gains the page the entry maps, under the entry's address |
| KernelMemory.PhysicalKernel.ReadPageFromDisk | ideal_indirection/kernel.c:105-117 | the entry's frame holds its swapped page, or is untouched if there is none |
| TlbList.Tlb.GetPte | ideal_indirection/tlb.c:11-44 | the relinking of the list looks a page up and moves its first node to the head, keeping the list linked |
| TlbList.Tlb.AddPte | ideal_indirection/tlb.c:46-72 | a new head is added, and a list of 16 loses its tail |
| TlbList.Tlb.Flush | ideal_indirection/tlb.c:74-77 | the list becomes one node for page 0 without an entry |
| MmuSpec.PromoteMovesOne | ideal_indirection/tlb.c:11-44 | moving a node to the front permutes the list and changes no lookup |
| MmuSpec.MovedToFront | ideal_indirection/tlb.c:11-72 | a lookup puts the first node of its page in front, an addition a new one; all others keep their order, and only the last of 16 is lost |
| MmuSpec.IndexOfPage | ideal_indirection/tlb.c:14-37 | the first node of a page is the one found, despite duplicates |
| MmuSpec.FindSegment | ideal_indirection/segments.c:32-49 | a segment is found exactly if one covers the address, and it does cover it |
| MmuSpec.FirstSegmentDecides | ideal_indirection/mmu.c:30-52 | the first segment that reaches around the address decides, by its write bit for a write and its read bit for a read; with none nothing is permitted |
| MmuSpec.WalkInjective | ideal_indirection/mmu.c:61-81 | two pages of any processes never share an entry |
| MmuSpec.KernelStepKeepsMemory | ideal_indirection/kernel.c:22-53 | a kernel step that keeps the pages of all entries keeps the memory of every process and every walk |
| MmuSpec.FaultTableKeepsMemory | ideal_indirection/mmu.c:61-81 | a missing page table is created empty: no byte of memory changes, existing walks stay, and the walk of the page now exists |
| MmuSpec.FaultPageKeepsMemory | ideal_indirection/mmu.c:88-98 | a page fault changes no byte of memory and no walk, and makes the page present |
| MmuSpec.TransferIsFlat | ideal_indirection/mmu.c:111-127 | the copy returns the page's bytes, or changes exactly the addressed slice of that page, and the marks mean nothing to memory |
| MmuSpec.StoreIsFlat | ideal_indirection/mmu.c:119-122 | a store through an entry changes one page of one process |
| VirtualMemory.TouchIsFlat | ideal_indirection/mmu.c:88-127 | bringing a page in, copying and remembering the translation keeps the invariant and has the flat effect |
| VirtualMemory.TranslateIsFlat | ideal_indirection/mmu.c:54-127 | translation succeeds exactly if frames do not run out, has the flat effect, and counts misses and faults exactly |
| VirtualMemory.HitMeansWalk | ideal_indirection/tlb.c:11-44 | a hit in the translation list is the entry the two-level walk of the current process gives |
| VirtualMemory.AccessIsFlat | ideal_indirection/mmu.c:22-128 | a segmentation fault exactly if no permission, and then nothing in memory changes; otherwise the flat effect; counters exact |
| VirtualMemory.SecondAccessHits | ideal_indirection/mmu.c:54-124 | the same process accessing the same page again misses no translation and faults no page |
| RecentPages.AccessUses | ideal_indirection/mmu.c:54-124 | a permitted access looks its page up in the list and adds it, whether it hit or not |
| RecentPages.PushedByTwo | ideal_indirection/tlb.c:11-72 | one access pushes any other page back by at most two places |
| RecentPages.SevenAreRemembered | ideal_indirection/tlb.c:11-72 | a page is still found after any seven further accesses |
| RecentPages.OnePageFillsTheList | ideal_indirection/tlb.c:59-64 | sixteen accesses to one page drive every other page out |
| VirtualMemory.AddDirectoryKeepsMemory | ideal_indirection/mmu.c:166-170 | a new directory maps nothing and changes no other process |
| VirtualMemory.NewDirectoryWalks | ideal_indirection/mmu.c:166-170 | every walk of the new process is empty, all other walks are as before |
| VirtualMemory.AddSpaceKeepsMemory | ideal_indirection/mmu.c:166-238 | a new process is all zeros, no other process changes, and it needs two reserved frames and one to page with |
| VirtualMemory.AddProcessKeepsMemory | ideal_indirection/mmu.c:164-239 | the same for the machine with its segments |
| VirtualMemory.StepKeepsInv | ideal_indirection/mmu.c:22-239 | every operation keeps ownership, tables and translations right |
| MmuSpec.TableAddedOnce | ideal_indirection/mmu.c:61-98 | a table fault and a page fault, in either order, add walks in the one region of 4 MB that was touched |
| VirtualMemory.FirstTableAdded | ideal_indirection/mmu.c:166-238 | a new process starts with the first region of 4 MB, and no other process gains one |
| VirtualMemory.RunsOutMeans | ideal_indirection/mmu.c:61-81 | frames run out exactly if the reserved ones, and the table if it is missing, take all of them |
| VirtualMemory.AccessCharges | ideal_indirection/mmu.c:22-128 | an access takes one reserved frame if it is permitted and the first to its region, else none, and fails exactly if there is none left |
| VirtualMemory.AddCharges | ideal_indirection/mmu.c:164-239 | a new process takes two reserved frames and fails exactly if they are not to be had |
| VirtualMemory.StepCharges | ideal_indirection/mmu.c:22-239 | what an operation takes in frames follows from the flat memory and the regions touched so far, and it fails exactly if they run out |
| VirtualMemory.StepRefines | ideal_indirection/mmu.c:22-239 | every operation gives the answer and the memory of the flat operation |
| VirtualMemory.RunRefinesFlatMemory | ideal_indirection/mmu.c:22-239 | over every legal run the outcomes are those of a flat memory, up to where frames run out |
| VirtualMemory.RunCompletes | ideal_indirection/mmu.c:22-239 | a run of any length is served to its end exactly if the frames reserved before it and those it needs, counted by regions of 4 MB newly touched, stay below the total |
| VirtualMemory.MachineIsFlatMemory | ideal_indirection/mmu.c:16-20 | from the initial machine every legal run gives the answers of a flat memory of zeros, all of them exactly if the frames it needs stay below the total |
| VirtualMemory.FlatRunLength | ideal_indirection/mmu.c:22-128 | the flat memory answers every operation |
| VirtualMemory.GrowAndShrink | ideal_indirection/segments.c:8-26 | growing moves one end of one segment away by whole pages, shrinking undoes it, also where addresses wrap |
| WorkingSet.TouchedIsResident | ideal_indirection/mmu.c:54-127 | with free frames a page is resident after an access exactly if it was or is the one accessed |
| WorkingSet.AccessWithFree | ideal_indirection/mmu.c:22-128 | an access with a free frame for each of its faults takes exactly those, evicts nothing and keeps every resident page resident |
| WorkingSet.AddSpaceWithFree | ideal_indirection/mmu.c:166-238 | a new process takes four frames and evicts nothing; its two pages of testing memory are resident, no others of it |
| WorkingSet.AccessMarks | ideal_indirection/mmu.c:95-127 | the page accessed is present and marked accessed, dirty exactly if it was or this is a write, and writable and for users if just faulted in |
| WorkingSet.RunFits | ideal_indirection/mmu.c:22-239 | a run whose frames are all free pages nothing out and raises one page fault for each table and each page it is the first to touch |
| WorkingSet.WorkingSetFits | ideal_indirection/kernel.c:22-53 | from the initial machine, a run whose directories, tables and touched pages fit in memory behaves as a flat memory, leaves swap empty and faults in nothing twice |
| MmuDevice.Mmu.constructor | ideal_indirection/mmu.c:16-20 | a new device is the initial machine |
| MmuDevice.Mmu.ReadWrite | ideal_indirection/mmu.c:22-128 | the in-place routine is the specified access, on memory, frame table, swap, list and counters |
| MmuDevice.Mmu.Locate | ideal_indirection/mmu.c:54-85 | the entry comes from the list or the walk, the list is promoted, misses and table faults are counted |
| MmuDevice.Mmu.Serve | ideal_indirection/mmu.c:88-127 | the page is made present if it is not, then copied; one more page fault exactly if it was absent |
| MmuDevice.Mmu.WalkTables | ideal_indirection/mmu.c:61-81 | the in-place walk creates a missing table as specified |
| MmuDevice.Mmu.LoadPage | ideal_indirection/mmu.c:88-98 | the in-place page fault is the specified one |
| MmuDevice.Mmu.CopyBytes | ideal_indirection/mmu.c:111-127 | the in-place copy and marks are the specified transfer |
| MmuDevice.Mmu.FirstSegment | ideal_indirection/segments.c:32-49 | the scan finds the first covering segment |
| MmuDevice.Mmu.AddProcess | ideal_indirection/mmu.c:164-239 | the in-place creation of a process is the specified one |
| MmuDevice.Mmu.NewTables | ideal_indirection/mmu.c:222-238 | the first table and the two pages of testing memory are created as specified |
| HeapMemory.ChainCovers | malloc/alloc.c:99-106 | walking the headers from any block visits exactly the blocks above it, and their bytes and metadata add up to the rest of the heap |
| HeapMemory.Before | malloc/alloc.c:108-117 | below every block but the first there is one that ends where it starts |
| HeapMemory.RetileLayout | malloc/alloc.c:119-153 | cutting a range between block boundaries differently leaves the heap tiled |
| HeapMemory.LivePayloadsAreDisjoint | malloc/alloc.c:10-21 | user bytes of two blocks never overlap, nor do they overlap any header, link or tag |
| HeapMemory.LinkStore | malloc/alloc.c:155-185 | storing a link touches no header, tag, other link or user byte |
| HeapAllocator.FirstFit | malloc/alloc.c:303-309 | the block taken is the first of the free list that is large enough |
| HeapAllocator.WithoutAt | malloc/alloc.c:168-185 | taking out a node of a list of distinct nodes joins what was before it to what was behind it |
| HeapAllocator.SetPrevEffect | malloc/alloc.c:157-164 | a back link store changes that link only |
| HeapAllocator.SetNextEffect | malloc/alloc.c:157-164 | a forward link store changes that link only |
| HeapAllocator.FlagEffect | malloc/alloc.c:147 | flagging a block changes its flag only, and the heap stays tiled |
| HeapAllocator.MergeEffect | malloc/alloc.c:94-97 | one new header and one new tag turn a range of blocks into one block |
| HeapAllocator.Grown | malloc/alloc.c:187-204 | a block appended at the break keeps the heap tiled and every block as it was |
| HeapAllocator.SplitEffect | malloc/alloc.c:206-226 | the two headers and tags of a split tile the old block, every other block is untouched |
| HeapAllocator.TakenLive | malloc/alloc.c:206-236 | taking a free block, split or whole, makes exactly it live, large enough, and changes no live block |
| HeapAllocator.TakenSlack | malloc/alloc.c:228-236 | a block taken is less than 64 KiB and metadata larger than asked for, and a rest cut off is at least 64 KiB |
| HeapAllocator.FreedLive | malloc/alloc.c:335-364 | freeing ends the life of exactly one block, whatever it is merged with |
| HeapAllocator.StoreEffect | malloc/alloc.c:268-268 | a store into a live block's bytes leaves the heap, the list and all other blocks intact |
| HeapAllocator.Heap.Neighbours | malloc/alloc.c:99-117 | the lookups find the block above, unless it lies above tail_mem, and through its tag the block below, or NULL for the first |
| HeapAllocator.Heap.InsertFree | malloc/alloc.c:155-166 | the node becomes the head of a list that stays linked, and no user byte changes |
| HeapAllocator.Heap.RemoveFree | malloc/alloc.c:168-185 | the node leaves the list, which stays linked although a new head keeps a stale back link |
| HeapAllocator.Heap.UpdateNodeSize | malloc/alloc.c:94-97 | the block grows to the end of the other block's tag |
| HeapAllocator.Heap.CoalesceThreeBlocks | malloc/alloc.c:119-129 | both free neighbours and the block become one free block; everything live is kept |
| HeapAllocator.Heap.CoalesceTwoBlocksBefore | malloc/alloc.c:131-139 | the free block below absorbs the block; the list is as it was; everything live is kept |
| HeapAllocator.Heap.CoalesceTwoBlocksAfter | malloc/alloc.c:141-153 | the block absorbs the free block above and becomes the head of the list; everything live is kept |
| HeapAllocator.Heap.FreeAlone | malloc/alloc.c:360-363 | without free neighbours the block becomes free and head of the list |
| HeapAllocator.Heap.Free | malloc/alloc.c:335-364 | NULL and free blocks change nothing; otherwise the exact merged range, the exact new list, the exact tail_mem, and everything else live kept |
| HeapAllocator.Heap.AllocNew | malloc/alloc.c:187-204 | the heap grows by exactly one block at its end, or nothing changes; tail_mem is set by the first block only |
| HeapAllocator.Heap.AllocFreeSplit | malloc/alloc.c:206-226 | the rest of the block becomes a free block at the head of the list, and tail_mem does not lie below it |
| HeapAllocator.Heap.AllocFree | malloc/alloc.c:228-236 | the free block is taken, split if it is at least 64 KiB and metadata too large |
| HeapAllocator.Heap.FindFit | malloc/alloc.c:301-309 | the walk ends at the first fit, or at NULL if there is none |
| HeapAllocator.Heap.Malloc | malloc/alloc.c:294-317 | NULL exactly for size 0 or with no fit and no more heap; the heap grows only if no free block fits; a new block, and every live byte kept |
| HeapAllocator.Heap.Store | malloc/alloc.c:268-268 | a store inside a live block keeps the heap and all other blocks |
| HeapAllocator.Heap.Calloc | malloc/alloc.c:261-271 | as malloc of the wrapped product, with all those bytes zero |
| HeapAllocator.Heap.Realloc | malloc/alloc.c:412-437 | NULL, 0 and fitting sizes as documented; otherwise a block that was not live with all old bytes, the old one gone, or nothing changed; all other blocks kept |
| HeapAllocator.Heap.Grow | malloc/alloc.c:429-436 | the move to a larger block |
| HeapClient.SbrkGetsTheRequest | malloc/alloc.c:188 | sbrk is asked for the block and its metadata exactly if their sum is below 2^63 |
| HeapClient.LargestRequestWraps | malloc/alloc.c:188 | the largest request asks sbrk for 39 bytes |
| HeapClient.CallocProduct | malloc/alloc.c:263 | the product is the one asked for exactly if the size is at most the largest word divided by the count |
| HeapClient.HeldRangesAreDisjoint | malloc/alloc.c:294-364 | the bytes behind two pointers a client holds never overlap |
| HeapClient.Step | malloc/alloc.c:261-437 | each call does to the client's map from pointers to bytes what its documentation says, and nothing else |
| HeapClient.Run | malloc/alloc.c:261-437 | any sequence of allowed calls is served, and the heap ends tiled and linked, holding exactly what the client holds |
| HeapClient.BytesStay | malloc/alloc.c:119-236 | over any run, the bytes behind a pointer stay until the client itself stores, frees or reallocates there |
| HeapLaws.SplitThenFree | malloc/alloc.c:206-226 | freeing the first part of a split block finds the rest free and seen, and joins them to the old block |
| HeapLaws.AllocateAndFree | malloc/alloc.c:294-364 | a request served by a split and the free of its result restore the blocks, or join the block with a free one below, and put it in front of the list |
| HeapLaws.FreedNeighbours | malloc/alloc.c:335-364 | what the free block is made of, and that nothing else changed |
| HeapLaws.FreeKeepsSeparated | malloc/alloc.c:343-364 | where no free blocks touch, none do after a free exactly if the block above is not both free and above tail_mem |
| HeapLaws.TakenKeepsSeparated | malloc/alloc.c:206-236 | allocating from the list makes no free blocks touch |
| HeapLaws.GrownKeepsSeparated | malloc/alloc.c:187-204 | nor does growing the heap |
| HeapLaws.Allocate | malloc/alloc.c:294-317 | malloc makes no free blocks touch |
| HeapLaws.Release | malloc/alloc.c:335-364 | free makes free blocks touch exactly if the block above is free and above tail_mem |
| HeapLaws.FreeBlocksCanTouch | malloc/alloc.c:99-106 | three allocations and two frees after which two free blocks touch |
| Limbs.AddCarryInOut | mapreduce/pi/pidigits.h:113-120 | the comparison against one summand, with or without carry in, is the carry out |
| Limbs.AddCarryInOut64 | mapreduce/pi/pidigits.h:135-142 | the same for 64-bit words |
| Limbs.AddCarryOut | mapreduce/pi/pidigits.h:106-110 | the wrap shows in the comparison |
| Limbs.SubBorrowOut | mapreduce/pi/pidigits.h:150-154 | the borrow shows in the comparison |
| Limbs.SubBorrowInOut | mapreduce/pi/pidigits.h:157-164 | the comparison is the borrow out, with or without borrow in |
| Limbs.MultHi | mapreduce/pi/pidigits.h:172-174 | high and low half make up the product, and the high half leaves room for a carry |
| Limbs.AddColumns | mapreduce/pi/pidigits.h:241-252 | the carry chain over the eight halves loses nothing |
| Limbs.MultFull64 | mapreduce/pi/pidigits.h:214-252 | the full 128-bit product, for all words |
| Wide.LessIsLess | mapreduce/pi/pidigits.h:449-463 | comparing limbs from the top compares numbers |
| Wide.AddSmall | mapreduce/pi/pidigits.h:519-545 | addition of a limb modulo 2^128 |
| Wide.Add | mapreduce/pi/pidigits.h:547-573 | addition modulo 2^128 |
| Wide.Sub | mapreduce/pi/pidigits.h:583-595 | subtraction modulo 2^128 |
| Wide.Mult128 | mapreduce/pi/pidigits.h:863-896 | the full 256-bit product, for all inputs |
| Wide.Mult128Hi | mapreduce/pi/pidigits.h:898-907 | its high half is the product divided by 2^128 |
| Wide.Mult128Lo | mapreduce/pi/pidigits.h:909-920 | the product modulo 2^128 |
| Wide.MultSmall | mapreduce/pi/pidigits.h:923-927 | the product with a word modulo 2^128 |
| NewtonDivision.StepError | mapreduce/pi/pidigits.h:980-982 | a truncated Newton step never overshoots, and its error is the square of the old one plus less than one divisor |
| NewtonDivision.ThreeSteps | mapreduce/pi/pidigits.h:979-982 | three steps from the seed leave an error of at most d + 1 |
| NewtonDivision.FinalCheck | mapreduce/pi/pidigits.h:984-987 | the check on 64 bits corrects that error |
| NewtonDivision.LargestDivisor | mapreduce/pi/pidigits.h:984-987 | the error the check could not see does not occur for the one divisor where it could |
| NewtonDivision.ErrorWord | mapreduce/pi/pidigits.h:985 | the checked word is the low word of 2^128 - d x |
| NewtonDivision.RecipNewton | mapreduce/pi/pidigits.h:967-990 | the reciprocal is 2^128 divided by d, rounded down, for every d from 2 on |
| NewtonDivision.Estimate | mapreduce/pi/pidigits.h:1002-1005 | the quotient estimate is right or one short, and exactly when |
| NewtonDivision.Correction | mapreduce/pi/pidigits.h:1006-1009 | after the correction, quotient and remainder are right if divisor plus remainder stay within 2^64; else the quotient is one short and the remainder that much off |
| NewtonDivision.Divide | mapreduce/pi/pidigits.h:1002-1010 | quotient and remainder for every dividend and divisor; right exactly under a condition on the two, and for every dividend if the divisor is a good one |
| NewtonDivision.GoodDivisorDivides | mapreduce/pi/pidigits.h:1006-1009 | with d + 2^128 mod d at most 2^64 every dividend is divided right |
| NewtonDivision.BadDivisorFails | mapreduce/pi/pidigits.h:1006-1009 | for every other divisor d, the dividend d (2^128 / d) + 2^64 - d is divided wrong |
| NewtonDivision.DivisorsThatDivideExactly | mapreduce/pi/pidigits.h:1002-1010 | the divisors for which every dividend is divided right are exactly those with d + 2^128 mod d at most 2^64 |
| NewtonDivision.SmallDivisorsDivideExactly | mapreduce/pi/pidigits.h:1002-1010 | every divisor up to 2^63 is a good one |
| NewtonDivision.LargeDivisorsCanFail | mapreduce/pi/pidigits.h:1006 | a divisor near 2^64 and a dividend that is divided wrong |
| NewtonDivision.DivMod | mapreduce/pi/pidigits.h:948-964 | the conventions for 0 and 1, else as divide, and right for every good divisor |
| NewtonDivision.Fraction | mapreduce/pi/pidigits.h:1155-1165 | 64 bits of the fractional part, right exactly if the division is, and so for every good divisor |
| Montgomery.CountLeadingZeros64 | mapreduce/pi/pidigits.h:271-313 | the window search gives 64 minus the bit length, 64 for zero |
| Montgomery.NarrowWindow | mapreduce/pi/pidigits.h:282-306 | each halving keeps the top of the number in the window |
| Montgomery.HighestSetBit64 | mapreduce/pi/pidigits.h:318-320 | the highest power of two not above the number |
| Montgomery.SeedInverse | mapreduce/pi/pidigits.h:1024 | the seed is minus the inverse to three bits |
| Montgomery.BitsDouble | mapreduce/pi/pidigits.h:1026 | a step doubles the number of right bits |
| Montgomery.FixedPointIsInverse | mapreduce/pi/pidigits.h:1027 | where the iteration stops, all bits are right |
| Montgomery.Inverse | mapreduce/pi/pidigits.h:1022-1031 | the iteration ends with m x = -1 modulo R |
| Montgomery.OddCancels | mapreduce/pi/pidigits.h:1022-1031 | an odd factor can be cancelled modulo a power of two |
| Montgomery.QuotientRight | mapreduce/pi/pidigits.h:1061-1068 | the sum divides by R exactly, fits 128 bits, and is below 2 m |
| Montgomery.MontgomeryMult | mapreduce/pi/pidigits.h:1039-1074 | the result is below m and times R congruent to the product |
| Montgomery.FactorIs | mapreduce/pi/pidigits.h:1117-1125 | the shifted 2 is the residue of 2 R below 2^62 and 0 from there on |
| Montgomery.PowerStep | mapreduce/pi/pidigits.h:1131-1137 | one bit of the exponent moves the power on by squaring and doubling |
| Montgomery.Pow2NotDivisible | mapreduce/pi/pidigits.h:1114-1144 | a power of two is never 0 modulo an odd number above 1 |
| Montgomery.MontgomeryModPow2 | mapreduce/pi/pidigits.h:1114-1144 | 2^p modulo m exactly for odd m below 2^62; from there to 2^63 the result is 0 |
| PowerModulo.SquaredResidue | mapreduce/pi/pidigits.h:1090 | squaring a residue, or the unreduced 2, doubles the exponent |
| PowerModulo.TopPrefix | mapreduce/pi/pidigits.h:1087-1088 | the loop may start below the highest bit, since the part above it is 1 |
| PowerModulo.EvenStep | mapreduce/pi/pidigits.h:1090-1097 | squaring, reducing, doubling and subtracting is the bit step the lemmas are about |
| PowerModulo.BitIsResidue | mapreduce/pi/pidigits.h:1090-1097 | one bit of the exponent moves the residue of the power on, for every good modulus |
| PowerModulo.ChainIsPower | mapreduce/pi/pidigits.h:1087-1099 | the bits together give 2^exponent modulo every good modulus, but 2 itself for exponent 1 |
| PowerModulo.EvenPower | mapreduce/pi/pidigits.h:1087-1099 | the loop from the second highest bit down computes the chain of bit steps |
| PowerModulo.EvenModulusCanFail | mapreduce/pi/pidigits.h:1090-1097 | 2^190 modulo 0xFD00000000000000 comes out wrong, because that modulus is not a good divisor |
| PowerModulo.ModPow2 | mapreduce/pi/pidigits.h:1078-1100 | for a good modulus 2^exponent exactly if the exponent is 0 and the modulus not 1, the modulus is odd and below 2^62, or it is even and not 2^1 modulo 2; for any even modulus the chain of bit steps |
| PiSeries.TailsAgree | mapreduce/pi/BBP.py:88-95 | the reference tail, which stops by another test than the mapper's, has the same sum |
| PiSeries.SeriesInt | mapreduce/pi/BBP.py:74-103 | the two loops compute one series of the formula modulo 2^64 |
| PiSeries.ReferenceTailLoop | mapreduce/pi/BBP.py:88-95 | the loop with its test in the middle sums the tail |
| PiSeries.PlouffeInt | mapreduce/pi/BBP.py:106-117 | the signed sum of the four series, corrected by the digit |
| BbpFormula.TermIsQuotient | mapreduce/pi/BBP.py:80 | a term, made of a modular power, is 2^(64+p) divided by its base, modulo 2^64 |
| BbpFormula.TermsAreQuotients | mapreduce/pi/BBP.py:79-83 | the first loop adds up such quotients |
| BbpFormula.TailIsQuotients | mapreduce/pi/BBP.py:88-95 | the loop of the tail adds up all quotients that are left, down to the last power of two |
| BbpFormula.SeriesIsQuotients | mapreduce/pi/BBP.py:74-103 | a series is the sum of 2^(64+s-4k) / (o+8k), truncated, over all k with a numerator, modulo 2^64 |
| BbpFormula.PlouffeIsBbp | mapreduce/pi/BBP.py:7-9 | the result is the sum over k of 4/(8k+1) - 2/(8k+4) - 1/(8k+5) - 1/(8k+6), each scaled by 2^64 16^(digit-k) and truncated, less the digit, modulo 2^64 |
| BbpFormula.TermIsClose | mapreduce/pi/BBP.py:111-115 | truncating the four fractions of one k loses less than 1 and gains less than 3 |
| BbpFormula.RestIsSmall | mapreduce/pi/BBP.py:7-9 | the summands of the formula from n on add up to at most 5 16^-n |
| BbpFormula.ResultIsClose | mapreduce/pi/BBP.py:7-9 | before reduction the result differs by at most 2 digit + 51 from 2^64 16^digit times any longer partial sum of the formula |
| PiSeries.ComputeTerms | mapreduce/pi/mapper_pi.cpp:13-36 | wrapping 64-bit sums of modular powers and fractions give the exact terms modulo 2^64 |
| PiSeries.ComputeTerm | mapreduce/pi/mapper_pi.cpp:22-29 | one summand: the exact 64 bits of the fraction of 2^exponent by the modulus |
| PiSeries.ComputeTail | mapreduce/pi/mapper_pi.cpp:39-57 | the tail of a series modulo 2^64 |
| PiSeries.Mapper | mapreduce/pi/mapper_pi.cpp:60-90 | a job's signed contribution modulo 2^64, the digit correction in the first tail |
| PiSeries.Reduce | mapreduce/pi/reducer_pi.cpp:24-34 | folding wrapped sums gives the sum of all values modulo 2^64 |
| PiSeries.TotalPermutes | mapreduce/pi/reducer_pi.cpp:24-34 | the order in which values arrive does not matter |
| PiSeries.PrintTermChunks | mapreduce/pi/create_pi_input.py:40-58 | the work list is the equal chunks of the iterations, then the end mark, for every chunk size |
| PiSeries.EqualChunks | mapreduce/pi/create_pi_input.py:43-52 | consecutive chunks that cut the iterations completely, all of the chunk size but perhaps the last |
| PiSeries.TermJobsSum | mapreduce/pi/mapper_pi.cpp:60-90 | however a term is cut, the outputs of its jobs add up to the whole series |
| PiSeries.TermJobsRunnable | mapreduce/pi/mapper_pi.cpp:13-36 | up to digit 2^59 all powers and fractions of a term are in the range where they are right |
| PiSeries.MapReduceIsPlouffe | mapreduce/pi/mapper_pi.cpp:13-90 | for every digit, every cutting and every order of arrival, the reduced sum is the reference's |
| PiSeries.RunMappers | mapreduce/pi/mapper_pi.cpp:60-90 | the mappers emit the specified values |
| PiSeries.ComputePi | mapreduce/pi/create_pi_input.py:34-37 | work list, mappers and reducer together compute the reference sum |
| RuleGraph.PathClosesCycle | parallel_make/parmake.c:259-260 | a path that returns to one of its vertices reaches a cycle |
| RuleGraph.RankFalls | parallel_make/parmake.c:281-286 | along a path from a finished vertex everything is finished and the rank falls |
| RuleGraph.OrderedReachesNoCycle | parallel_make/parmake.c:281-286 | a finished vertex reaches no cycle and only finished vertices |
| RuleGraph.SameReach | parallel_make/parmake.c:375-381 | removing vertices takes no descendant from a finished vertex |
| RuleGraph.ListedDescendants | parallel_make/parmake.c:304-322 | a list with dependencies first contains everything its goals reach |
| RuleGraph.RemoveVertex | parallel_make/parmake.c:381 | exactly that vertex goes, and from every other one exactly the edges to it |
| RuleCycles.GreyAgain | parallel_make/parmake.c:259-260 | meeting a grey vertex that is being visited means a cycle |
| RuleCycles.Enter | parallel_make/parmake.c:264-266 | greying a white vertex keeps the colours right and leaves fewer white ones |
| RuleCycles.Leave | parallel_make/parmake.c:281-286 | a vertex whose children are black can turn black |
| RuleCycles.Make.Tricolor | parallel_make/parmake.c:255-287 | 1 exactly if the target reaches a cycle, whatever earlier calls left; grey then, else black |
| RuleCycles.Make.TestGoals | parallel_make/parmake.c:362-370 | every goal is judged rightly with one colour map |
| RuleCycles.GoalColours | parallel_make/parmake.c:379-388 | after all tests a goal is grey exactly if it reaches a cycle |
| RuleCycles.Make.FilterGoals | parallel_make/parmake.c:372-388 | kept are exactly the goals that reach no cycle, removed exactly the grey vertices, for every order of the keys |
| RuleCycles.Make.GetRules | parallel_make/parmake.c:304-322 | the recursion ends, lists the targets and only their descendants, dependencies first, nothing twice |
| RuleCycles.TargetsOfDeps | parallel_make/parmake.c:311-312 | what dependencies reach, the target reaches |
| RuleCycles.Make.GetRulesInOrder | parallel_make/parmake.c:296-301 | exactly the descendants, each once, dependencies first |
| RuleCycles.ValidDescendants | parallel_make/parmake.c:372-396 | what is listed in the reduced graph is what the good goals reach in the original one |
| RuleCycles.Make.Prepare | parallel_make/parmake.c:342-396 | reported are the goals that reach cycles; listed is exactly what the others reach in the original graph, each once and with all its original dependencies before it |
| WorkerPool.FirstNotValid | parallel_make/parmake.c:121-132 | the dependency whose state is returned is the first that is not valid |
| WorkerPool.MeaningOfRun | parallel_make/parmake.c:167-206 | a rule that runs is valid exactly if its commands succeed, one that does not exactly if it is a file without dependencies |
| WorkerPool.SequentialIsMeaning | parallel_make/parmake.c:152-236 | the build with one thread, rule by rule down the list, gives these states and runs exactly the rules that should run, each once |
| WorkerPool.InitialOk | parallel_make/parmake.c:395-400 | the pool starts in the invariant |
| WorkerPoolProof.StatusMeans | parallel_make/parmake.c:67-149 | run_status of a pending rule says what a sequential build would do with it, or that a dependency is undecided |
| WorkerPoolProof.FirstWaitsForBusy | parallel_make/parmake.c:219-224 | the first pending rule only ever waits for a busy worker |
| WorkerPoolProof.TakeStep | parallel_make/parmake.c:167-211 | taking a rule off the list keeps every rule pending, held or decided |
| WorkerPoolProof.WaitStep | parallel_make/parmake.c:219-224 | a worker that reads on in its scan or goes to sleep leaves another one awake |
| WorkerPoolProof.BroadcastStep | parallel_make/parmake.c:189-193 | a broadcast, made outside the waiter's lock, keeps the first pending rule in the care of a worker that is awake, whoever it misses |
| WorkerPoolProof.BeginStep | parallel_make/parmake.c:156-232 | a worker that starts a scan or exits keeps wakeups and exits right |
| WorkerPoolProof.ApplyKeepsInv | parallel_make/parmake.c:152-236 | every step of every worker, with a state read, the decision to sleep and the broadcast apart, and every spurious wakeup, keeps the invariant |
| WorkerPoolProof.StartsWhenDepsValid | parallel_make/parmake.c:167-186 | commands start once, and only when all dependencies are valid |
| WorkerPoolProof.Run | parallel_make/parmake.c:152-236 | the invariant holds after any sequence of events |
| WorkerPoolProof.SomeThreadCanStep | parallel_make/parmake.c:156-232 | unless all threads have exited, some thread can go on |
| WorkerPoolProof.TurnDecreases | parallel_make/parmake.c:152-236 | every step of a thread makes a measure smaller |
| WorkerPoolProof.SpuriousCosts | parallel_make/parmake.c:221 | a spurious wakeup raises the measure by one scan of the list |
| WorkerPoolProof.SchedulesEnd | parallel_make/parmake.c:152-236 | no schedule is longer than that measure and a fixed amount for each spurious wakeup in it |
| WorkerPoolProof.FinalIsSequential | parallel_make/parmake.c:398-402 | when all have exited, every rule has the state its dependencies and commands give it, and exactly the rules that should run were started, once each |
| WorkerPoolProof.AllSettled | parallel_make/parmake.c:67-149 | in the end a rule was run exactly if all its dependencies are valid and it is no file without any, and is valid exactly if it is such a file or its commands succeeded |
| WorkerPoolProof.ParallelBuildIsSequential | parallel_make/parmake.c:398-402 | every schedule of any number of threads ends, with all threads gone, and the states and the rules run are those of the build with one thread |
| MissedBroadcast.BroadcastCanBeMissed | parallel_make/parmake.c:189-221 | two threads reach a state in which one sleeps although the only pending rule could run, since the broadcast came before its wait |
| ParallelMake.GoalsAreBuilt | parallel_make/parmake.c:395-402 | however the threads are scheduled they stop, and what the good goals reach is built, and nothing else |
| ParallelMake.Parmake | parallel_make/parmake.c:342-402 | from the goals to the end: the cyclic goals are reported, and exactly what the others reach is built as one thread would |
| ReusableBarrier.ArriveKeepsInv | critical_concurrency/barrier.c:34-43 | an arrival that is not the last keeps the invariant |
| ReusableBarrier.OpenKeepsInv | critical_concurrency/barrier.c:36-40 | the last arrival opens the barrier with all n arrived, and leaves first |
| ReusableBarrier.LeaveKeepsInv | critical_concurrency/barrier.c:46-50 | a departure that is not the last keeps the invariant |
| ReusableBarrier.CloseKeepsInv | critical_concurrency/barrier.c:46-50 | the last departure closes the barrier after exactly n departures |
| ReusableBarrier.MoveKeepsInv | critical_concurrency/barrier.c:30-43 | going to sleep and waking up keep the invariant |
| ReusableBarrier.StepKeepsInv | critical_concurrency/barrier.c:26-56 | every step of every thread keeps the invariant |
| ReusableBarrier.TurnMeans | critical_concurrency/barrier.c:30-50 | at an open barrier a gathered thread that was woken returns and an arriving one waits; at a closed one a gathered thread waits on and an arriving one gathers, or returns as the last |
| ReusableBarrier.Run | critical_concurrency/barrier.c:26-56 | the invariant holds after any sequence of events |
| ReusableBarrier.RoundsAreSeparate | critical_concurrency/barrier.c:26-56 | nobody leaves before n arrived, exactly n leave each round, nobody enters before all have left, sleepers' conditions still hold |
| ReusableBarrier.ThreadsStayTogether | critical_concurrency/barrier.c:26-56 | with exactly n threads, completed rounds differ by at most 1 |
| ReusableBarrier.PossibleDecreases | critical_concurrency/barrier.c:26-56 | every turn that can be taken makes a measure smaller |
| ReusableBarrier.SchedulesEnd | critical_concurrency/barrier.c:26-56 | no schedule is longer than that measure and two steps for each spurious wakeup |
| ReusableBarrier.StoppedMeans | critical_concurrency/barrier.c:30-50 | where no thread can go on the barrier is closed, and all are outside for good or wait in a round of fewer than n |
| ReusableBarrier.EveryCallReturns | critical_concurrency/barrier.c:26-56 | for n >= 2, any number of threads and calls and any schedule: it ends, and all calls have returned but those of a round that lacks threads; with n threads all have |
| ReusableBarrier.SomeoneIsAwake | critical_concurrency/barrier.c:30-43 | with at least n threads inside, however many are outside, one of those inside is awake |
| ReusableBarrier.SmallStep | critical_concurrency/barrier.c:26-56 | for n = 0 and n = 1 no step makes the barrier wait for a round; with n = 0 the step of a thread outside is a whole call |
| ReusableBarrier.OneCallReturns | critical_concurrency/barrier.c:30-40 | for n = 1, any number of threads and any run, one call returns and no other ever does |
| ReusableBarrier.NobodyWaits | critical_concurrency/barrier.c:30-50 | for n = 0, any number of threads and any run, every call returns in one step |
| WorkQueue.Queue.Push | critical_concurrency/queue.c:77-90 | the linked list gains the item at its end |
| WorkQueue.Queue.Pull | critical_concurrency/queue.c:103-112 | the first item is returned and leaves the list |
| WorkQueue.StepKeepsInv | critical_concurrency/queue.c:67-118 | every critical section keeps order, bound, and the reason of every sleeper |
| WorkQueue.PulledIsPrefix | critical_concurrency/queue.c:67-118 | for all calls and schedules, what was pulled is a prefix of what was pushed, and no wakeup is lost |
| WorkQueue.PushMeans | critical_concurrency/queue.c:67-92 | a push that finds room leaves its item behind all others, wakes all sleepers and returns; else it sleeps and nothing else changes |
| WorkQueue.PullMeans | critical_concurrency/queue.c:97-117 | a pull that finds an item takes the one pushed first of those left, wakes all sleepers and returns; else it sleeps |
| WorkQueue.PossibleDecreases | critical_concurrency/queue.c:67-118 | a call pays for its own steps and those of its broadcast |
| WorkQueue.SchedulesEnd | critical_concurrency/queue.c:67-118 | no schedule is longer than its calls and spurious wakeups allow |
| WorkQueue.CallsAreServed | critical_concurrency/queue.c:67-118 | where no woken thread is left all have returned, or all that wait are pushes to a full queue, or pulls from an empty one |
| PasswordWorkers.TakeTaskKeepsInv | password_cracker/cracker1.c:78-80 | tasks are taken in order, each by one worker |
| PasswordWorkers.TakeNullKeepsInv | password_cracker/cracker1.c:78-125 | a worker meets NULL only when all tasks are taken |
| PasswordWorkers.HandleKeepsInv | password_cracker/cracker1.c:87-118 | a handled task is counted once, recovered or failed |
| PasswordWorkers.ReturnKeepsInv | password_cracker/cracker1.c:125 | NULL goes back for the next worker |
| PasswordWorkers.StepKeepsInv | password_cracker/cracker1.c:67-127 | every step of every worker keeps the invariant |
| PasswordWorkers.ApplyKeepsInv | password_cracker/cracker1.c:67-127 | so does every event, a wakeup that nobody caused included |
| PasswordWorkers.SpuriousKeepsInv | critical_concurrency/queue.c:100-101 | a worker woken without cause looks again |
| PasswordWorkers.SomeoneCanStep | password_cracker/cracker1.c:78-125 | as long as a worker has not finished, one can go on |
| PasswordWorkers.FinishedMeansHandled | password_cracker/cracker1.c:167 | at the end every task was handled once, recovered is the number of tasks that can be cracked, and failed that of the others |
| PasswordWorkers.CountInSet | password_cracker/cracker1.c:98-100 | among distinct tasks the counter is the number of those that are cracked |
| PasswordWorkers.StepDecreases | password_cracker/cracker1.c:67-127 | every step makes a measure smaller |
| PasswordWorkers.ScheduleKeepsInv | password_cracker/cracker1.c:67-127 | every schedule, spurious wakeups included, keeps the invariant and is no longer than the measure and three steps for each such wakeup |
| PasswordWorkers.AllTasksAreHandled | password_cracker/cracker1.c:129-167 | for any number of tasks and threads every schedule, spurious wakeups included, ends, with all workers finished, every task handled once, and the counters right |
| BlockMap.WithBlockGrows | finding_filesystems/minixfs_provided.c:93-100 | a fresh zeroed block in an empty place changes no byte of the file and nothing of other files |
| BlockMap.WithTableGrows | finding_filesystems/minixfs_provided.c:62-78 | a fresh table without entries changes no byte of the file |
| BlockMap.GrowthKeepsContents | finding_filesystems/minixfs_provided.c:81-125 | growth keeps the contents and the zeros behind them |
| BlockMap.StoredBytes | finding_filesystems/minixfs.c:282-283 | copying into a block changes exactly those positions of the file |
| BlockMap.WriteIsRightInOneBlock | finding_filesystems/minixfs.c:289-296 | every buffer of a length repeats itself as a write would need exactly if the write stays in one block |
| BlockMap.UseOne | finding_filesystems/minixfs_utils.c:81-89 | marking an unused block leaves one unused block less |
| BlockMap.MissingAreGaps | finding_filesystems/minixfs_provided.c:89-123 | the blocks missing are the places without one, and the table from the 11th on |
| BlockMap.UnusedAreCounted | finding_filesystems/minixfs_utils.c:112-130 | the count of unused blocks is the size of their set |
| MiniFile.BlocksForMeans | finding_filesystems/minixfs.c:245-248 | place k is wanted exactly if k blocks are fewer bytes than the size |
| MiniFile.WantedAreMissing | finding_filesystems/minixfs.c:269 | what a write to a position wants are the places below it without a block, and the table if it reaches past the tenth |
| MiniFile.Volume.SetDataUsed | finding_filesystems/minixfs_utils.c:81-89 | one mark is set, numbers out of range change nothing |
| MiniFile.Volume.FirstUnusedData | finding_filesystems/minixfs_utils.c:112-130 | some unused block, or -1 exactly if there is none |
| MiniFile.FirstEmpty | finding_filesystems/minixfs_provided.c:24-34 | the first place without a block |
| MiniFile.Volume.AddDataBlockToInode | finding_filesystems/minixfs_provided.c:18-36 | an unused block enters the first empty direct place and is marked used; -1 and 0 change nothing |
| MiniFile.Volume.AddDataBlockToIndirectBlock | finding_filesystems/minixfs_provided.c:38-56 | the same for the table of indirect blocks |
| MiniFile.Volume.AddSingleIndirectBlock | finding_filesystems/minixfs_provided.c:58-79 | an empty table is added if there is none, and no byte changes |
| MiniFile.Volume.MinBlockcount | finding_filesystems/minixfs_provided.c:81-125 | 0 exactly if no more blocks, the table from 11 on included, were missing than unused, and then exactly those were taken; the file and all others keep their bytes, also on failure |
| MiniFile.Volume.GetBlock | finding_filesystems/minixfs.c:68-83 | the lookup, direct or indirect, finds the block of the file |
| MiniFile.Volume.Read | finding_filesystems/minixfs.c:308-350 | exactly the slice of the contents, across any number of blocks, and the new offset |
| MiniFile.Volume.ReadBlock | finding_filesystems/minixfs.c:338-346 | one more block of a read |
| MiniFile.Volume.Write | finding_filesystems/minixfs.c:250-305 | -1 exactly when too large or when more places below its end, with the table, lack a block than are unused, and then the contents stay; otherwise the buffer laid over the zero-extended contents exactly if the buffer repeats itself across blocks |
| MiniFile.Volume.CopyAll | finding_filesystems/minixfs.c:277-296 | every byte of the copied range, from the place in the buffer the code takes it from |
| MiniFile.WriteIsOverlay | finding_filesystems/minixfs.c:277-299 | the bytes written make up the buffer laid over the file exactly if the buffer repeats itself where it crosses into another block |
| MiniFile.WrittenFile | finding_filesystems/minixfs.c:298-299 | with the size raised to its end the file is well formed and other files are kept |
| MiniFile.CopyChunk | finding_filesystems/minixfs.c:289-296 | one more block of a write |
| LineSplitter.LineAfter | mapreduce/splitter.c:106-114 | the place behind the next newline and behind no later one, or the end |
| LineSplitter.LineAfterMonotone | mapreduce/splitter.c:106-114 | seeking from a later place never ends earlier |
| LineSplitter.NextLine | mapreduce/splitter.c:106-114 | the pointer loop finds that place |
| LineSplitter.GetSubrange | mapreduce/splitter.c:98-104 | the offsets in 64-bit arithmetic, never outside the text; proportional and in order if no product wraps |
| LineSplitter.WritePortion | mapreduce/splitter.c:116-152 | a chunk is written from its boundary to the next one, and is empty if that lies before it |
| LineSplitter.ChunksArePrefix | mapreduce/splitter.c:116-152 | if no product wraps, the first chunks make up the text up to their boundary |
| LineSplitter.ChunksAreTheText | mapreduce/splitter.c:116-152 | if no product wraps, all chunks in order are the text |
| LineSplitter.NoLineIsSplit | mapreduce/splitter.c:106-134 | wrap or not, each boundary is 0, the end, or just behind a newline |
| LineSplitter.ChunksGrow | mapreduce/splitter.c:116-152 | wrap or not, the chunks together leave nothing out |
| LineSplitter.OffsetFallsBack | mapreduce/splitter.c:98-104 | the first product that wraps gives an offset below the one before it |
| LineSplitter.WrapRepeatsText | mapreduce/splitter.c:98-152 | if a product wraps, the chunks of a text of empty lines are longer than the text |
| LineSplitter.SplittingIsExact | mapreduce/splitter.c:98-152 | for file sizes and counts as the code gets them, the chunks of every text of a length make up that text exactly if the length times one less than the count is below 2^64 |

## Left out

- Virtual memory: removing a process and cleaning up its swap files (the name removed lacks the suffix that was written, so
  reused entry addresses would bring back old pages); adding a process id that exists; the duplicated buffer of a write.
- Virtual memory: when no frame can be had the code goes on with address 0; here the operation has no outcome. Addresses are
  frame and index numbers, so the truncation of a frame address to 20 bits does not appear.
- Virtual memory: a frame is either bytes or a table of entries, not both views of the same memory.
- HeapAllocator.Heap.Malloc: does not cover requests whose size and metadata reach 2^63, because sbrk then gets another
  amount (HeapClient.SbrkGetsTheRequest says exactly when).
- HeapAllocator.Heap.Calloc: does not cover products that reach sbrk so either; HeapClient.CallocProduct says when the
  product itself is the one asked for.
- HeapAllocator.Heap.Realloc: does not cover requests whose size and metadata reach 2^63, for the same reason.
- HeapAllocator.Heap.Grow: the part of realloc that moves the block, with the same bound.
- HeapAllocator.Heap.Free: covers a second free of a pointer only while its block has not been merged into another one.
- Heap: alignment, addresses near the end of the address space, other users of sbrk; fresh heap memory reads as zero bytes.
- Pi: the floating-point seed is replaced by what it has to satisfy (NewtonDivision.GoodSeed); the GPU and compiler-specific
  branches, parsing and printing of job lines, and result widths other than 64 bits. The division of scale_pow by 4 in
  create_pi_input.py:41 is read as the integer division of Python 2.
- PowerModulo.ModPow2: requires odd moduli to be below 2^63, because from there on the shift by 64 is undefined. For even
  moduli that are not good divisors it fixes the result (`PowerModulo.PowerChain`) but not for which exponents it is right.
- Montgomery.MontgomeryModPow2: requires a modulus below 2^63, because above it the shift by 64 is undefined.
- PiSeries.ComputePi: requires a digit below 2^59, so that no modulus leaves the range where powers are right.
- Parallel make: targets that have dependencies and exist as files (there the code compares file times and ignores the
  states of dependencies); the parser; printing. Targets are numbers, commands succeed or fail as a given set says.
- Parallel make: run_status reads the rule's own state and those of its dependencies in one step; a worker started on a
  rule runs its commands in one step.
- Barrier: errors of the thread library. Queue: creation and destruction of the lock, queue_destroy.
- Password workers: hashing and the search itself (a given set says which passwords are found), and parsing of the input.
- Block layer: path lookup and creation, directories, virtual files, unlinking, permissions, timestamps.
- Block layer: any unused block may be chosen where the code throws a coin; that its loop ends is not proved. A write of no
  bytes looks up a block it does not touch; that lookup is not modelled.
- The other labs: deadlock-resistant locks (its cycle test never reports one), the scheduler (its queue is not part of this
  model), shells, network, chat room and tracing, whose behaviour is mostly system calls; vectors, strings and lookups.
