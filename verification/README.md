# A verified model of the kernel's algorithms

This project models, in Dafny, the parts of a small AArch64 teaching kernel that can be separated from
the hardware, and proves what they promise: the page and small-object allocator, address spaces, the
scheduler and thread table, deferred interrupt work, the timer queue, the device tree and archive
parsers, and the boot transfer over a serial line.

`dafny verify dfyconfig.toml` checks everything.

| files | what they model |
|---|---|
| `Bits`, `Lists`, `Bytes`, `Options` | binary arithmetic on frame numbers and words, lists of distinct entries, byte memory, missing values |
| `Buddy`, `BuddyRuns`, `BuddyForm` | the buddy allocator as written: splitting, merging, allocating, releasing |
| `BuddyCanon`, `BuddyReserve`, `BuddyHistory` | canonical form, the reservation pass, whole histories from boot |
| `BuddyMisaligned`, `BuddyIntended` | histories that go wrong; the allocator with the merge as it was meant |
| `PageAllocator`, `SmallObjects`, `KernelHeap` | the allocator as it updates its records and lists; bins on top of pages |
| `PageTable`, `DemandPaging`, `MmapSearch`, `AddressSpace` | four-level tables built on demand, faults, the address search of `sys_mmap`, and the code that does these |
| `Scheduler`, `Threads` | the thread table and run queue as a machine with endless runs, and the code |
| `MemoryMap`, `Ownership`, `Processes` | pages, words and the fixed addresses of a thread; which thread owns which block, through create, fork, exec, mmap and reap |
| `IrqEvents`, `Timers`, `TimerList` | nested prioritised interrupt work, timers, and the linked ring that holds them |
| `DeviceTree`, `Cpio`, `BootTransfer` | the binary formats and the transfer protocol |

Where the source changes state step by step there is a class or method with the source's loops, proved
against a specification on values; what the source promises is then proved of the specification.

## How the allocator is specified

A ghost field `owner` says of each frame which head's block it lies in. The invariant is that the block
of a head is the aligned block that *contains* it (`Partition`), that a left-over record of order `j`
agrees with its head on the low `j` bits (`Leftovers`), and that the lists hold exactly the free heads,
each once (`Listed`). Left-over agreement is what makes the merge test sound although heads may sit in
the upper half of their blocks.

## What turned out false of the code

For each there is a failing input, and a theorem that says exactly when the code is right.

- A merge keeps the freed frame as head even when it is the upper half. From every boot that leaves four
  pages together, calls lead to two callers with the same frame (`OverlapAfterBoot`), and releasing
  everything need not restore the free lists (`ReleasingNeedNotRestore`). A range is its block exactly
  when its head is the base (`GivenIsBlock`); heads stay bases exactly when no merge is done from the
  upper half, in one release (`FreeKeepsAligned`) and in a run (`RunKeepsAligned`), which is exactly when
  a release does what was meant (`LowFreeIsFree`). With the merge as it was meant, `BuddyIntended` proves
  the canonical form for all runs.
- `kfree` sends the first bin of a slab page to the page allocator: `ReleaseLiveBin` in both directions,
  and `PageStartIsHandedOut` for a run that gets there.
- Requests above 0x40000 bytes get a single page (`OrderIsLeast`, `OversizedGetsOnePage`).
- Reserving an empty range inside a free block leaves mergeable siblings apart (`ReserveKeepsNoSiblings`,
  `EmptyRangeIsHarmful`).
- The area test of the fault handler includes the upper end (`FaultKeepsSound`, `FaultAtSharedEnd`); the
  first mapping of a thread lies at such an end (`FirstMappingTouchesText`).
- `mapping` does not align the physical address (`LeafBit`, `EntryIsExact`, `TextInABin`).
- `sys_mmap` tests the limit before rounding and with a 64-bit sum that may wrap (`GivenEndsBelowLimit`,
  `GivenPastTheLimit`, `GivenTheTopPage`), and does not guard its overlap test against the wrap either
  (`GivenIsApart`, `GivenOverAnArea`); `MmapKeepsAreas` says exactly when the list of areas stays in
  order. It recurses forever exactly when there is no place (`MmapReturns`, `NoPlaceForAll`). It can put
  an empty area, or one whose sum wraps, at a fixed address (`StartsAreTaken`, `EmptyAtDevice`,
  `GivenTheDevice`), which a fork then does not copy (`AddMapping`, `SysFork`).
- The emptiness test of `run_irq_event` is outside the critical section (`TakeFromEmpty`, `WhatTakeFinds`).
- The header matcher of the loader never compares the first byte (`FirstByteIsNotCompared`,
  `WrongFirstByte`), and images of 2^31 bytes and more are not transferred (`TransferIsRight`).

One more difference is not the subject of a theorem: `cpio_traverse` returns -1 for a missing file where
its callers test for NULL. The model returns not-found.

## Model

| member | source | states |
|---|---|---|
| `Bits.FlipIsXor` | lib/malloc.c:77-79 | `idx ^ (1 << val)`, modelled as `Flip`, changes bit `val` and no other |
| `Bits.FlipBlock` | lib/malloc.c:77-79 | the buddy lies in the other half of the block of twice the order, at the same place in it, and the buddy of the buddy is the frame itself |
| `Bits.CutIsDivMod` | lib/malloc.c:154 | block number and place in the block are quotient and remainder by 2^k |
| `Bits.OrBit` | lib/mmu.c:105 | bitwise or on numbers sets exactly the bits set in either operand |
| `Buddy.StaleIsLower` | lib/malloc.c:136-147 | a frame that is not a head has a record of strictly lower order than its block: what an earlier merge left behind never looks like a head of this order |
| `Buddy.SplitOwner` | lib/malloc.c:81-88 | who owns each frame after a split: only the frames of the new half change hands, to the buddy |
| `Buddy.SplitKeepsInv` | lib/malloc.c:81-88 | a split keeps the invariant: blocks of heads partition the frames, left-over records agree with their heads, the lists hold exactly the free heads, each once |
| `Buddy.MatchIsHead` | lib/malloc.c:141-142 | a record of equal order across the merge bit belongs to a live head, whatever happened before |
| `Buddy.MergeSafety` | lib/malloc.c:136-145 | the record that passes the merge test is the live free head of exactly the sibling block |
| `Buddy.MergeKeepsInv` | lib/malloc.c:136-151 | a merge keeps the invariant, for the code as written (the freed frame stays head, upper half or not), and the buddy really is on the list it is unlinked from |
| `BuddyRuns.OrderIsLeast` | lib/malloc.c:91-110 | the order is the least one that holds the request; exactly the requests above the largest block get order 0 instead of an error |
| `BuddyRuns.OversizedGetsOnePage` | lib/malloc.c:91-110 | such a request: 0x40001 bytes get one page |
| `BuddyRuns.SupplyIsFirst` | lib/malloc.c:111-120 | the list taken from is the first nonempty one from the order up |
| `BuddyRuns.SplitDownKeeps` | lib/malloc.c:122-127 | splitting down keeps the invariant, ends at the order asked for, and changes no used block and not the set of free frames |
| `BuddyRuns.MergeUpKeeps` | lib/malloc.c:161-162 | merging up keeps the invariant, stops only where the test fails, and changes no used block and not the set of free frames |
| `BuddyRuns.AllocEffect` | lib/malloc.c:90-134 | an allocation makes one new used block of the least fitting order, out of free frames only; every other used block and every other free frame stays |
| `BuddyRuns.FreeEffect` | lib/malloc.c:153-164 | a release makes exactly the frames of the block free and leaves every other used block as it was |
| `BuddyForm.AllocNoPairs` | lib/malloc.c:90-134 | after an allocation no free head is left that passes the merge test |
| `BuddyForm.FreeNoPairs` | lib/malloc.c:153-164 | after a release no free head is left that passes the merge test |
| `BuddyForm.MergeUndoesSplit` | lib/malloc.c:81-151 | the merge test passes right after a split, and merging gives back the state before, but for one left-over record |
| `BuddyForm.FreeUndoesAlloc` | lib/malloc.c:90-164 | allocating and releasing at once restores every list, in order, and every head: for the code as written, aligned or not |
| `BuddyCanon.AllocKeepsForm` | lib/malloc.c:90-134 | allocation keeps heads at their block bases and leaves no two free siblings |
| `BuddyCanon.MergeUpClimbs` | lib/malloc.c:161-162 | how high a release merges can be read off the records before it |
| `BuddyCanon.FreeKeepsAligned` | lib/malloc.c:145-164 | heads stay at block bases if and only if no merge of this release is done from the upper half |
| `BuddyCanon.FreeKeepsNoSiblings` | lib/malloc.c:136-164 | no two free siblings are left if and only if at no order reached the free sibling block is headed by another frame than the one the test looks at |
| `BuddyCanon.LowerHalvesStrandNothing` | lib/malloc.c:136-164 | with aligned heads and merges from lower halves only, nothing is stranded |
| `BuddyCanon.FreeRegion` | lib/malloc.c:136-164 | without free siblings, an aligned block of free frames lies inside one free block |
| `BuddyCanon.FreeListsDetermined` | lib/malloc.c:136-164 | with aligned heads and no free siblings, the free frames determine every free list as a set |
| `BuddyReserve.NeverSplitsOnePage` | lib/malloc.c:260-276 | a single page is never split: it is inside the rounded range or outside it |
| `BuddyReserve.BlockIsRun` | lib/malloc.c:258-259 | the frames of an aligned block are the run of 2^v frames from its head |
| `BuddyReserve.ReserveOneKeepsInv` | lib/malloc.c:258-279 | one entry reserved, skipped or split: the invariant is kept, lists above are untouched, and the entry is gone from its list exactly when it meets the range |
| `BuddyReserve.WalkStep` | lib/malloc.c:257-280 | one turn of the walk: everything before the new position is clear of the range, and only frames of the range stop being free |
| `BuddyReserve.ReserveLevelTakes` | lib/malloc.c:257-280 | one pass over one list leaves no block of that order that meets the range |
| `BuddyReserve.ReserveSubtracts` | lib/malloc.c:246-283 | from aligned heads, the free frames afterwards are the free frames before minus the page-rounded range, which `InRangeIs` tells by its ends, and heads stay aligned |
| `BuddyReserve.PageDownIs` | lib/malloc.c:252 | rounding the start down gives the multiple of 0x1000 at or below it, less than a page away |
| `BuddyReserve.PageUpIs` | lib/malloc.c:253 | rounding the end up gives the least multiple of 0x1000 at or above it, and 0 in the last page of the 64-bit range, where the sum wraps |
| `BuddyReserve.InRangeIs` | lib/malloc.c:246-283 | a page is in the rounded range if and only if one of its bytes could be: its address is below `end`, `start` is below the next page, and the end does not wrap |
| `BuddyReserve.ReserveTakes` | lib/malloc.c:246-283 | from aligned heads, told by `start` and `end`: a frame stops being free if and only if the range reaches its page |
| `BuddyReserve.HalvesInFront` | lib/malloc.c:268-279 | the halves of an entry that is split go to the front of the next list, the held one first |
| `BuddyReserve.ReserveKeepsNoSiblings` | lib/malloc.c:246-283 | no two free siblings are left if and only if the rounded range is nonempty, or is empty and inside no free block |
| `BuddyHistory.InitForm` | lib/malloc.c:44-57 | at boot all frames are free, in aligned blocks of the largest order, without free siblings |
| `BuddyHistory.LastBlockFirst` | lib/malloc.c:44-57 | the last blocks are handed out first: with nothing reserved, any first request gets the block of the last 64 frames |
| `BuddyHistory.BootForm` | lib/malloc.c:61-74 | after the boot reservations exactly the frames outside every rounded range are free, heads are block bases, and no free siblings are left when every range is nonempty once rounded or meets no free block |
| `BuddyHistory.BootTakes` | lib/malloc.c:61-74 | told by the ends of the ranges: a frame is free after boot if and only if no range reaches its page |
| `BuddyHistory.NonemptyIsHarmless` | lib/malloc.c:252-253 | ranges that are nonempty once rounded qualify, and so does an empty one at or below the first frame |
| `BuddyHistory.EmptyRangeIsHarmful` | lib/malloc.c:246-283 | an empty range inside a free block, reserved first, leaves mergeable siblings apart |
| `BuddyHistory.RunKeepsNoPairs` | lib/malloc.c:90-164 | the invariant and the absence of mergeable pairs hold in every run of allocations and releases |
| `BuddyHistory.BootThenRun` | lib/malloc.c:33-164 | from boot, after any run: blocks handed out are pairwise disjoint; and when every boot range is nonempty once rounded or meets no free block, allocate-then-release is the identity on the lists |
| `BuddyHistory.GivenIsBlock` | lib/malloc.c:133 | the range a caller is told to use is its block if and only if the head is the base of the block |
| `BuddyHistory.SinglePagesAreExact` | lib/malloc.c:133 | single pages are always exactly their block, and no two of them overlap |
| `BuddyHistory.RunKeepsAligned` | lib/malloc.c:136-164 | code as written: every state of a run has its heads at block bases if and only if no merge of the run is done from the upper half |
| `BuddyHistory.LowerHalvesKeepForm` | lib/malloc.c:90-164 | code as written, runs without a merge from the upper half: heads stay block bases and no free siblings are left |
| `BuddyHistory.ReleasingAllRestores` | lib/malloc.c:90-164 | code as written, runs without a merge from the upper half: releasing everything that the run allocated restores every free list as a set |
| `BuddyMisaligned.GivenRangesOverlap` | lib/malloc.c:136-164 | from every state with heads at block bases and a free block of four pages or more, some calls lead to two callers that are told to use the same frame, because a merge from the upper half keeps the upper frame as head |
| `BuddyMisaligned.Drain` | lib/malloc.c:111-127 | from every such state, single-page allocations lead to one whose next page is cut off such a block |
| `BuddyMisaligned.SixCalls` | lib/malloc.c:136-164 | the six calls from there |
| `BuddyMisaligned.FourCalls` | lib/malloc.c:136-164 | four calls that allocate two pages and release them, the lower one first, and leave a list that was empty with two entries |
| `BuddyMisaligned.ReleasingNeedNotRestore` | lib/malloc.c:136-164 | from every such state without free siblings, some calls lead to a state from which a run that releases all it allocates does not restore the free lists: the order of releases matters |
| `BuddyMisaligned.OverlapAfterBoot` | lib/malloc.c:33-164 | the overlap is reached from every boot that leaves an aligned run of four pages that no reserved range reaches |
| `BuddyMisaligned.OverlapAfterFixedBoot` | lib/malloc.c:66-74 | a boot with the two fixed reservations is one of them |
| `BuddyIntended.LowMergeIsMerge` | lib/malloc.c:136-151 | merge as meant, the lower half becoming the head: it is the merge as written, done from the lower half |
| `BuddyIntended.LowMergeUpKeeps` | lib/malloc.c:161-162 | merge as meant: merging up keeps the invariant, heads at block bases and the set of free frames, and ends where no free sibling is left |
| `BuddyIntended.LowFreeEffect` | lib/malloc.c:153-164 | merge as meant, any release: exactly the block becomes free, other used blocks stay, heads stay block bases, and no free siblings are left |
| `BuddyIntended.LowFreeIsFree` | lib/malloc.c:136-164 | the release as written does what was meant if and only if none of its merges is done from the upper half |
| `BuddyIntended.LowRun` | lib/malloc.c:90-164 | merge as meant: every run of allocations and releases, in any order, ends in a state with the invariant, heads at block bases, and no free siblings |
| `BuddyIntended.GivenRangesAreApart` | lib/malloc.c:133 | merge as meant, after any run: every range given out is exactly its block, and no two overlap |
| `BuddyIntended.ReleasingInAnyOrderRestores` | lib/malloc.c:90-164 | merge as meant: releasing in any order everything that a run allocated restores every free list as a set |
| `BuddyIntended.BootIsCanonical` | lib/malloc.c:61-74 | boot ends in a state from which such runs start |
| `BuddyIntended.LowFreeUndoesAlloc` | lib/malloc.c:90-164 | merge as meant: allocating and releasing at once restores every list, in order, and every head |
| `PageAllocator.Frames.constructor` | lib/malloc.c:33-57 | the initial lists and records |
| `PageAllocator.Frames.GetBuddy` | lib/malloc.c:77-79 | the buddy, by the order in the record |
| `PageAllocator.Frames.SplitFrame` | lib/malloc.c:81-88 | the record and list updates are exactly one split |
| `PageAllocator.Frames.CombinePage` | lib/malloc.c:136-151 | merges if and only if the test passes, and is exactly one merge |
| `PageAllocator.Frames.AllocPage` | lib/malloc.c:90-134 | the loops compute exactly the specified allocation, and keep the invariant |
| `PageAllocator.Frames.FreePage` | lib/malloc.c:153-164 | the loop computes exactly the specified release, and keeps the invariant |
| `PageAllocator.Frames.ReservePage` | lib/malloc.c:246-283 | from aligned heads a frame stops being free if and only if the range from `start` to `end` reaches its page; the new records and lists are exactly those of the specified pass |
| `PageAllocator.Frames.ReserveLists` | lib/malloc.c:255-281 | the outer loop, over the lists from the highest order down |
| `PageAllocator.Frames.ReserveList` | lib/malloc.c:257-280 | the inner loop over one list |
| `PageAllocator.Frames.ReserveEntry` | lib/malloc.c:258-279 | one turn of the inner loop, with the position it goes on from |
| `SmallObjects.ClassFromIsLeast` | lib/malloc.c:179-185 | the class is the least one whose bins hold the request |
| `SmallObjects.BinSizes` | lib/malloc.c:169 | the bins are of 32, 64, 128, 256 and 512 bytes |
| `SmallObjects.FilledMembers` | lib/malloc.c:172-175 | the list after cutting a page: the old entries and the bins of the page, each once |
| `SmallObjects.MultiplesInStretch` | lib/malloc.c:172-175 | the bins of a page are exactly the multiples of the bin size in it |
| `SmallObjects.NewSlabEffect` | lib/malloc.c:166-176 | a new slab page keeps the heap invariant and hands out nothing |
| `SmallObjects.MallocSmall` | lib/malloc.c:213-221 | a request of at most 512 bytes gets one bin of the least fitting class, from a slab page, and nothing else changes hands |
| `SmallObjects.MallocLarge` | lib/malloc.c:226-228 | a larger request gets one page of the least fitting order, never a slab page |
| `SmallObjects.ReleaseLiveBin` | lib/malloc.c:231-244 | releasing a live bin keeps the heap sound if and only if the bin is not at the start of its page; then it goes back to the class it came from; otherwise the page under other live bins becomes free |
| `SmallObjects.MallocUndoesRelease` | lib/malloc.c:178-211 | a bin that has just gone back to its class is the one that the next request of the class gets, and the heap is then as before |
| `SmallObjects.ReleaseLivePage` | lib/malloc.c:231-244 | releasing a page releases that page and leaves every bin alone |
| `SmallObjects.FirstBinIsTakenLast` | lib/malloc.c:172-175 | every slab has a page-start bin: it is the last entry of the list its page makes |
| `SmallObjects.PageStartIsHandedOut` | lib/malloc.c:178-202 | from every heap with no bin of a class left, as many requests as a page has bins make a page-start bin live, and releasing that one breaks the heap |
| `SmallObjects.FirstHeap` | lib/malloc.c:40-48 | the heap without slab pages, which boot starts from, is such a heap |
| `SmallObjects.BinInsidePage` | lib/malloc.c:166-176 | a bin lies inside its own page |
| `SmallObjects.LiveBinsDisjoint` | lib/malloc.c:178-202 | live bins, of any classes, do not overlap |
| `SmallObjects.BinsOutsidePages` | lib/malloc.c:213-229 | no live bin lies in the block of a live page |
| `SmallObjects.RunKeepsHeld` | lib/malloc.c:213-244 | through any run that never releases a page-start bin, what is not released stays handed out, at its class or order |
| `KernelHeap.KHeap.FromPageGetBins` | lib/malloc.c:166-176 | exactly the specified new slab |
| `KernelHeap.KHeap.FillBins` | lib/malloc.c:172-175 | the loop over the page |
| `KernelHeap.KHeap.AllocBin` | lib/malloc.c:178-202 | exactly the specified bin allocation |
| `KernelHeap.KHeap.FreeBin` | lib/malloc.c:204-211 | the bin goes to the list of the class its page records |
| `KernelHeap.KHeap.Kmalloc` | lib/malloc.c:213-229 | exactly the specified allocation, invariant kept |
| `KernelHeap.KHeap.Kfree` | lib/malloc.c:231-244 | exactly the specified release, page-start bins included |
| `PageTable.TableEntryLinks` | lib/mmu.c:113-117 | a new link is present and leads to the table it was made for |
| `PageTable.TableEntryBits` | lib/mmu.c:113-114 | the bits of a link: those of the address of the table, and 0, 1, 2 and 10: valid, table, memory type 1, accessed |
| `PageTable.LeafAddress` | lib/mmu.c:104-105 | the entry for a page is present and carries the address bits of the physical address |
| `PageTable.LeafBits` | lib/mmu.c:104-105 | the bits of an entry for a page: those of the address and of the flags, and 0, 1, 2, 10 and 53: valid, page, memory type 1, accessed, not executable by the kernel |
| `PageTable.ProtFlagBits` | lib/mmu.c:88-95 | the flags have bit 54 if and only if the protection is without execution, bit 7 if and only if it is without writing, bit 6 if and only if it has reading, and no other bit |
| `PageTable.ProtectedPage` | lib/mmu.c:87-106 | for an aligned page the entry has its address, and of the bits outside the address field exactly the fixed ones and those three by the protection |
| `PageTable.LeafBit` | lib/mmu.c:104-105 | a bit of the entry is the intended attribute if and only if the physical address, which is not aligned here, does not set it where the attributes do not |
| `PageTable.LeafOfPage` | lib/mmu.c:104-105 | for an aligned page the entry is its address and the attributes, side by side |
| `PageTable.ProtFlagsOutsideAddress` | lib/mmu.c:88-95 | protection flags leave the address field alone |
| `PageTable.PathIsPageNo` | lib/mmu.c:102 | the four indices together are exactly the 48-bit page number |
| `PageTable.LinkKeepsDescents` | lib/mmu.c:110-115 | linking a zeroed table changes no walk but those that now come to it |
| `PageTable.LeafWrite` | lib/mmu.c:103-106 | writing a last-level entry changes the translation of one page and of no other |
| `PageTable.MapFromIsRight` | lib/mmu.c:99-119 | the walk of the given page yields exactly the new entry, every other page translates as before, and the tables stay a tree of pairwise distinct pages |
| `PageTable.MapFromTakes` | lib/mmu.c:110-115 | the tables in use grow by exactly the pages taken |
| `AddressSpace.RunIsRange` | lib/mmu.c:121-126 | mapping page after page maps exactly the range, each page to its own physical page |
| `AddressSpace.Space.constructor` | lib/sched.c:130-138 | a zeroed root table translates nothing |
| `AddressSpace.Space.NextTable` | lib/mmu.c:109-117 | one turn of the level loop |
| `AddressSpace.Space.LastTable` | lib/mmu.c:100-118 | the level loop |
| `AddressSpace.Space.Mapping` | lib/mmu.c:99-119 | the level loop remaps exactly one page and keeps the tree |
| `AddressSpace.Space.MappingSetProt` | lib/mmu.c:87-96 | remaps exactly one page and keeps the tree; for an aligned page, the entry has its address and, bit by bit, the attributes of the protection |
| `AddressSpace.Space.MapPages` | lib/mmu.c:121-126 | the page loop |
| `AddressSpace.Space.AddVma` | lib/mmu.c:33-42 | the rounded area at the end of the list |
| `AddressSpace.Space.AreaAt` | lib/mmu.c:64-67 | the loop finds the first area whose closed range holds the address |
| `AddressSpace.Space.HandleAbort` | lib/mmu.c:59-85 | maps if and only if an area is found and the low six bits of the syndrome are 4 to 7, a translation fault; otherwise the thread is killed and no table changes |
| `DemandPaging.AreaIsUnique` | lib/mmu.c:64-67 | at most one area holds a page |
| `DemandPaging.RemapKeepsSound` | lib/mmu.c:80 | a new translation is sound if and only if some area gives it |
| `DemandPaging.FaultKeepsSound` | lib/mmu.c:59-85 | a fault keeps every translation right if and only if its address is below the end of the area found, or another area would map the page by the very same entry |
| `DemandPaging.FaultTwice` | lib/mmu.c:59-85 | a second fault at the address changes no translation |
| `DemandPaging.FaultsKeepSound` | lib/mmu.c:59-85 | after any sequence of faults below the ends of the areas they find, every translation is the entry that `mapping` computes for the area that holds the page |
| `DemandPaging.EntryIsExact` | lib/mmu.c:80-105 | that entry leads to the same offset of the area's memory, and its bits outside the address field are exactly the fixed ones, bit 54 without execution, bit 7 without writing and bit 6 with reading, if and only if the memory is page-aligned |
| `DemandPaging.SoundIsPrecise` | lib/mmu.c:80-105 | all translations are so if and only if the areas in use lie over page-aligned memory |
| `DemandPaging.FaultsMapExactly` | lib/mmu.c:59-105 | after any sequence of such faults over page-aligned memory, every translated page lies in an area, is mapped to that area's memory at the same offset, and has, bit by bit, the attributes of its protection |
| `DemandPaging.TextInABin` | lib/sched.c:69 | a program of at most 512 bytes, whose text lies in a bin: its page is mapped to the start of the slab page, and from this bin read-only against its protection |
| `DemandPaging.NewAreaKeepsSound` | lib/mmu.c:33-42 | a new area leaves the translations right |
| `DemandPaging.RunKeepsSound` | lib/mmu.c:33-85 | in any run of such faults and new areas every translation is the entry computed for the area that holds the page |
| `DemandPaging.RunMapsExactly` | lib/mmu.c:33-105 | and is exact if the areas at the end lie over page-aligned memory |
| `DemandPaging.FaultAtSharedEnd` | lib/mmu.c:65 | a thread with a mapping right behind its text: a fault on the first page of the mapping is answered from the text, which is right if and only if the memory of one happens to follow that of the other |
| `MmapSearch.SkipsNothing` | lib/syscall.c:232-242 | every start from the address looked at up to the end of the area in the way meets that area: no gap is skipped |
| `MmapSearch.FindsAbove` | lib/syscall.c:222-250 | without a wrap the recursion settles on the lowest place at or above where it looks |
| `MmapSearch.FindsAfterWrap` | lib/syscall.c:222-250 | with no place above, it wraps once and settles on the lowest place of all |
| `MmapSearch.NeverEnds` | lib/syscall.c:222-250 | with no place at all, no number of recursive calls is enough |
| `MmapSearch.GivesLowestAbove` | lib/syscall.c:222-250 | what is given when the first look clashes and there is a place above it |
| `MmapSearch.GivesLowestAfterWrap` | lib/syscall.c:222-250 | what is given when there is no place above it |
| `MmapSearch.GivesNothing` | lib/syscall.c:222-250 | when nothing is ever given |
| `MmapSearch.MmapReturns` | lib/syscall.c:222-250 | for every 64-bit hint and length: the call returns if and only if its first look fits, or the space has a place for the length; for lengths that wrap every sum, if the area it meets first from its hint, or from 0, ends where the sum comes round below the limit |
| `MmapSearch.GivesOne` | lib/syscall.c:222-250 | a call gives one address |
| `MmapSearch.NoPlaceForAll` | lib/syscall.c:222-250 | a request in a thread's areas that never returns |
| `MmapSearch.GivenFits` | lib/syscall.c:227-247 | for every 64-bit hint and length: whatever is given is page-aligned and passes the test against every area |
| `MmapSearch.GivenIsApart` | lib/syscall.c:225-247 | for every 64-bit hint and length, told from hint, length and areas: the range given meets no area if and only if its sum does not wrap or every area ends at or below the address |
| `MmapSearch.GivenIs` | lib/syscall.c:222-250 | what is given, told from hint, length and areas: the first look if it fits; otherwise 0 or a place below the limit, or, for a length that wraps every sum, the end of an area |
| `MmapSearch.HugeGives` | lib/syscall.c:222-250 | which area that is |
| `MmapSearch.ModestEndsBelowWord` | lib/syscall.c:225-247 | for requests whose sums do not wrap it ends below 2^64 |
| `MmapSearch.GivenEndsBelowLimit` | lib/syscall.c:225-229 | for every 64-bit hint and length: what is given ends below the limit if and only if the first look fits and ends below it, or does not fit and the length wraps no later sum |
| `MmapSearch.ModestEndsBelowLimit` | lib/syscall.c:225-229 | for requests that do not wrap: if and only if the request does not fit, rounded, at a hint that passes the test of the limit only before rounding |
| `MmapSearch.StartsAreTaken` | lib/syscall.c:230-247 | a nonempty area is given the start of another, such as the device, if and only if that is its first look, fits, and the sum wraps, or its length wraps every sum and the search ends there |
| `MmapSearch.EmptyAtDevice` | lib/syscall.c:230-247 | an empty one can be given the start of the device area |
| `MmapSearch.GivenTheDevice` | lib/syscall.c:225-247 | and so can a nonempty one whose sum wraps |
| `MmapSearch.FirstMappingTouchesText` | lib/syscall.c:230-247 | the first mapping of a thread without a hint lies right behind its text |
| `MmapSearch.NewAreaIsDisjoint` | lib/syscall.c:246 | an area inside the space that fits keeps the list pairwise disjoint |
| `MmapSearch.MmapKeepsAreas` | lib/syscall.c:222-250 | for every 64-bit hint and length: the list with the area given is page-aligned, inside the 48-bit space and pairwise disjoint if and only if the request keeps to the space |
| `MmapSearch.ModestKeepsToSpace` | lib/syscall.c:225-229 | requests that do not wrap do |
| `MmapSearch.GivenPastTheLimit` | lib/syscall.c:225-229 | in the areas of a thread: one byte at 0xffffffffe001 passes the test and is given the page at the limit |
| `MmapSearch.GivenTheTopPage` | lib/syscall.c:225-237 | in the areas of a thread: a hint in the last page of the 64-bit range, whose sum wraps to 0, is given that page |
| `MmapSearch.GivenOverAnArea` | lib/syscall.c:225-237 | in the areas of a thread: a length whose sum wraps to 0 is given a range that meets the stack |
| `AddressSpace.Space.FirstInTheWay` | lib/syscall.c:231-237 | the loop finds the first area in the way |
| `AddressSpace.Space.SysMmap` | lib/syscall.c:222-250 | the recursion gives exactly the specified address and adds exactly that area; the list stays page-aligned, inside the space and disjoint if and only if the request keeps to the space |
| `Scheduler.SchedulePicks` | lib/sched.c:30-37 | the scan ends, and picks the next thread in queue order that is no zombie, going round at most once; nothing else changes |
| `Scheduler.CreateKeepsValid` | lib/sched.c:104-148 | slots in use and queue entries stay the same set, each once; a slot in use is never given again, before or after the numbers have run out; the new thread runs, in front, and no other changes; while there are numbers the slot is a new one, after that the lowest that is free |
| `Scheduler.CreateFails` | lib/sched.c:108-119 | creation fails if and only if every slot is in use |
| `Scheduler.SlotsComeBackLate` | lib/sched.c:106-119 | in every run, a slot that is given a second time is given after the numbers have run out |
| `Scheduler.KillKeepsValid` | lib/sched.c:150-153 | a thread that is ended is a zombie, still queued; nothing else changes |
| `Scheduler.EndAndScan` | lib/sched.c:150-155 | after the scan that follows it is not the thread that runs |
| `Scheduler.EndedStaysEnded` | lib/sched.c:30-155 | in every run: until its slot is given to a new thread an ended thread does not run again, no scan selects it, and the next reaping takes it out of the queue and frees its slot |
| `Scheduler.ReapKeepsValid` | lib/sched.c:39-63 | reaping removes exactly the zombies and frees exactly their slots |
| `Scheduler.NonZombiesKeepOrder` | lib/sched.c:39-63 | reaping keeps the order of the rest |
| `Scheduler.NextKeepsValid` | lib/sched.c:30-155 | the table invariant is kept by every event |
| `Scheduler.RunStaysValid` | lib/sched.c:30-155 | the table invariant holds in every state of every endless run |
| `Scheduler.ScheduleGetsNearer` | lib/sched.c:30-37 | a scan selects the thread or comes strictly nearer to it, by (round still needed, entries ahead) |
| `Scheduler.OthersKeepNear` | lib/sched.c:104-155 | forks, exits, kills and reaps never take the scan farther from the thread |
| `Scheduler.NearUntil` | lib/sched.c:30-155 | the measure never grows along a run before the thread is selected |
| `Scheduler.NoStarvation` | lib/sched.c:30-37 | in every endless run in which scans keep happening, a thread that stays alive is selected at some later step |
| `Threads.ThreadTable.constructor` | lib/sched.c:9-21 | all slots unused, idle created in slot 0 |
| `Threads.ThreadTable.ThreadCreate` | lib/sched.c:104-148 | exactly the specified creation, or none if and only if every slot is in use |
| `Threads.ThreadTable.Reschedule` | lib/sched.c:30-37 | the do-while loop computes exactly the specified scan |
| `Threads.ThreadTable.ThreadExit` | lib/sched.c:150-155 | the thread that runs becomes a zombie, still queued, and another that is none runs; no other slot changes |
| `Threads.ThreadTable.SysKillPid` | lib/syscall.c:186-200 | idle, unused slots and the last slot are left alone; any other thread becomes a zombie, still queued, a thread that is none runs, and no other slot changes |
| `Threads.ThreadTable.ReapEntry` | lib/sched.c:42-60 | one turn of the loop: unlink or go on |
| `Threads.ThreadTable.ReapOn` | lib/sched.c:42-60 | one turn takes the reaping one entry on |
| `Threads.ThreadTable.ReapAll` | lib/sched.c:42-61 | the loop |
| `Threads.ThreadTable.KillZombies` | lib/sched.c:39-63 | deleting while iterating removes exactly the zombies |
| `Ownership.GrowKeepsOwned` | lib/mmu.c:33-42 | new blocks of one thread keep single ownership of all blocks |
| `Ownership.AreaBlocksAre` | lib/sched.c:51-57 | what is freed with an area: its record, and its memory if it has some of its own |
| `Ownership.BlocksAre` | lib/sched.c:43-60 | the blocks of a thread are its kernel stack, the records of its areas, and the memory that they own |
| `Ownership.NewProcKeepsOwned` | lib/sched.c:124-138 | a new thread with its own kernel stack keeps single ownership |
| `Ownership.DropKeepsOwned` | lib/sched.c:43-60 | freeing all blocks of a thread keeps single ownership of the rest |
| `Ownership.ClearKeepsOwned` | lib/syscall.c:68-81 | freeing the areas of a thread leaves it its kernel stack |
| `Ownership.CopiedAndFixed` | lib/syscall.c:131-140 | the copied and the skipped areas are together the areas of the parent |
| `Processes.System.ThreadCreate` | lib/sched.c:124-138 | data, stacks and root table are fresh and pairwise different |
| `Processes.System.AddVma` | lib/mmu.c:33-42 | the record is a fresh block of the thread |
| `Processes.System.FreeArea` | lib/sched.c:51-57 | memory and record of an area are freed, each once |
| `Processes.System.FreeAreas` | lib/sched.c:50-58 | the loop frees each block of the list once |
| `Processes.System.SetUp` | lib/sched.c:68-75 | the four standard areas, in order, with their addresses, rounded sizes and protections; what is allocated for them is exactly their records |
| `Processes.System.SetUpProgram` | lib/sched.c:65-78 | the same, and the text holds the program |
| `Processes.SetUpForFaults` | lib/sched.c:68-75 | these areas are the ones that the fault handler and the address search find in a new thread |
| `Processes.System.ExecThread` | lib/sched.c:65-78 | a thread with exactly these four areas, the text of the size of the file and holding it, no other thread changed; the blocks allocated are exactly those of the thread and its root table |
| `Processes.System.SysExec` | lib/syscall.c:63-118 | exactly these four areas, the text of the size of the file and holding it, and the old kernel stack; no other thread changed; the blocks in use are those before, without all of the old areas, each freed once, and with exactly those of the new ones |
| `Processes.System.AddMapping` | lib/syscall.c:246 | exactly one more area, behind the others, of the rounded size over memory of its own, which with its record is all that is allocated; all threads stay regular; the thread keeps its standard form if and only if the area is not at one of the two fixed addresses |
| `Processes.System.CopyArea` | lib/syscall.c:131-140 | one area is copied over a fresh block with the same contents |
| `Processes.System.CopyAreas` | lib/syscall.c:131-140 | the loop copies exactly the areas not at a fixed address, in order, and allocates exactly the blocks of the copies |
| `Processes.System.SysFork` | lib/syscall.c:120-147 | the child has the intervals and protections of the parent, over fresh blocks with equal contents, a kernel stack with equal contents, and the two fixed areas; the ranges and protections are a permutation of the parent's if and only if the parent is in standard form; what is allocated is exactly the blocks of the child and those of `thread_create` that no area records; nothing of the parent changes |
| `Processes.System.Reap` | lib/sched.c:43-60 | stack and areas of a zombie are freed, each block once |
| `IrqEvents.InsertKeepsOrder` | lib/event.c:22-31 | the queue stays in order of urgency, and of arrival among equals |
| `IrqEvents.StepKeepsInv` | lib/event.c:15-57 | the invariant is kept by every step, with an interrupt between any two |
| `IrqEvents.RunKeepsInv` | lib/event.c:15-57 | the invariant holds in every run |
| `IrqEvents.HandlersAreNested` | lib/event.c:46-55 | handlers on the stack have strictly decreasing numbers from outer to inner |
| `IrqEvents.LevelBelow` | lib/event.c:46-55 | the current priority is at least as urgent as everything on the stack |
| `IrqEvents.StartsInOrder` | lib/event.c:36-52 | a handler that starts is the most urgent queued event, the oldest among equals, more urgent than every running one, and starts for the first time |
| `IrqEvents.OutermostDrains` | lib/event.c:36-57 | when the outermost activation has returned, every event of number below 0x10000 has run exactly once and the priority is the idle one |
| `IrqEvents.Undisturbed` | lib/event.c:36-57 | an activation that no interrupt disturbs runs exactly the events more urgent than the level it found, and puts that level back |
| `IrqEvents.TakeFromEmpty` | lib/event.c:37-45 | a run in which an activation is about to take from an empty queue, because the emptiness test is outside the critical section |
| `IrqEvents.WhenTakeFindsNothing` | lib/event.c:37-45 | one interrupt in that gap leaves nothing to take if and only if everything queued, the new event included, is more urgent than the current level |
| `IrqEvents.WhatTakeFinds` | lib/event.c:37-45 | over all runs, however many interrupts come in that gap and however they nest: what the activation then finds queued is exactly what was queued or has arrived and is not more urgent than the level, so it finds nothing if and only if all of it was more urgent |
| `IrqEvents.StepKeepsPresent` | lib/event.c:36-57 | nothing that runs inside takes an event that is not more urgent than the level outside |
| `IrqEvents.QuietTakesFindSomething` | lib/event.c:37-45 | in runs without an interrupt in that gap there is always something to take |
| `IrqEvents.EventQueue.AddIrqEvent` | lib/event.c:15-34 | the loop inserts exactly in front of the first event of larger number |
| `IrqEvents.EventQueue.TakeNext` | lib/event.c:38-50 | the critical section takes the head if and only if it is more urgent than the current level; with an empty queue it takes the list head for an event |
| `Timers.InsertKeepsOrder` | lib/timer.c:125-136 | the queue stays sorted by expiry, by age among equals |
| `Timers.StepKeepsInv` | lib/timer.c:64-139 | under additions, passing time and fires whose callbacks add tasks: the comparator is the earliest expiry, no task fires early, fired expiries never decrease |
| `Timers.StepKeepsTasks` | lib/timer.c:64-139 | a step loses no task and makes none up: what was queued is queued or has fired, and the count grows by the tasks added |
| `Timers.AddsExactly` | lib/timer.c:106-139 | adding tasks adds exactly those, numbered in turn, each to expire its value after now, and counts them |
| `Timers.FireLeaves` | lib/timer.c:64-82 | after a fire on a nonempty queue the tasks are the old ones without the first, and exactly one per value that the callback adds, to expire that much after now; the comparator is the first expiry |
| `Timers.RunKeepsInv` | lib/timer.c:64-139 | both hold over every run |
| `TimerList.TimerQueue.ListAdd` | include/list.h:38-53 | the four pointer writes insert exactly there and keep the ring consistent in both directions |
| `TimerList.TimerQueue.ListDel` | include/list.h:55-62 | the two pointer writes remove exactly that node |
| `TimerList.TimerQueue.FindLater` | lib/timer.c:125-136 | the walk stops at the first later task, or the head |
| `TimerList.TimerQueue.AddTimerTask` | lib/timer.c:106-139 | the ring refines the sorted sequence, and the comparator is set to its first expiry |
| `TimerList.TimerQueue.Reprogram` | lib/timer.c:77-81 | the comparator after a fire |
| `TimerList.TimerQueue.TimerHandler` | lib/timer.c:64-82 | on a nonempty ring: the tasks linked afterwards are the old ones without the first and exactly one per value that the callback adds, all counted, and the comparator is the first expiry, or far ahead when there is none; one fire of the machine |
| `TimerList.TimerQueue.RunCallback` | lib/timer.c:76 | the tasks linked afterwards are the old ones and exactly one per value, to expire that much after now, all counted |
| `DeviceTree.Swap32Twice` | lib/dtb.c:11-16 | swapping the bytes of a word twice gives it back |
| `DeviceTree.Swap64Twice` | lib/dtb.c:18-27 | the same for 64 bits |
| `DeviceTree.Swap64Bytes` | lib/dtb.c:18-27 | the eight bytes come out in the opposite order |
| `DeviceTree.ReadsBig` | lib/dtb.c:42 | a big-endian word in memory is read as its value |
| `DeviceTree.TurnReadsToken` | lib/dtb.c:41-62 | one turn reads one encoded token, makes its call, and goes on right behind it |
| `DeviceTree.PassesOver` | lib/dtb.c:42-61 | a word that is no token is passed over, without a call |
| `DeviceTree.TraverseReadsTokens` | lib/dtb.c:29-63 | an encoded token stream is called back token by token and consumed to exactly its last byte |
| `DeviceTree.TraverseReadsTree` | lib/dtb.c:29-63 | the tokens of a tree in pre-order, with NOPs anywhere, are called back, NOPs apart, as exactly the tree, names and values included |
| `DeviceTree.FlattenCalls` | lib/dtb.c:41-61 | the flattening of a tree, node by node, is told as the tree |
| `DeviceTree.EraseIsCore` | lib/dtb.c:57-58 | passing over NOPs in the calls is leaving them out of the tokens |
| `DeviceTree.BlobCallsAreTheTree` | lib/dtb.c:29-63 | the same from the header of a blob |
| `DeviceTree.NodeCallsTell` | lib/dtb.c:29-63 | a node is determined by its calls, whatever follows |
| `DeviceTree.CallsDetermineTree` | lib/dtb.c:29-63 | two trees with the same calls are the same tree |
| `DeviceTree.TokensDetermineTree` | lib/dtb.c:29-63 | no two trees have the same tokens |
| `DeviceTree.TakeToken` | lib/dtb.c:42-61 | the body of the loop is exactly one specified turn |
| `DeviceTree.FdtTraverse` | lib/dtb.c:29-63 | the loop ends on any input, malformed ones included, and makes exactly the specified calls; none for a wrong magic number |
| `Bytes.AlignUp4` | lib/util.c:3-5 | the least multiple of four that is not smaller |
| `Bytes.StrLen` | lib/string.c:37-42 | the first NUL |
| `Bytes.StringLength` | lib/string.c:37-42 | the loop |
| `Bytes.CStringAt` | lib/string.c:37-42 | a stored string without NUL is read back |
| `Cpio.ReadsNumber` | lib/cpio.c:9-28 | a field of hexadecimal digits of either case is read as the number it writes |
| `Cpio.DigitsAre` | lib/cpio.c:15-24 | the digits are those of either case, with their values, and no other character |
| `Cpio.StopsAtForeign` | lib/cpio.c:9-28 | a field with another character after its first digits is read as those digits, shifted once more |
| `Cpio.HexWrites` | lib/cpio.c:9-28 | eight digits write every number below 2^32 |
| `Cpio.ParseHexStr` | lib/cpio.c:9-28 | the loop, which ends at the first other character after shifting once more |
| `Cpio.StrNCmp` | lib/string.c:13-22 | zero if and only if all `len` bytes agree, past NULs too; otherwise the sign of the first difference |
| `Cpio.SameStrings` | lib/cpio.c:71 | equal lengths and equal bytes mean the same string, and the eleven-byte trailer test matches exactly that name |
| `Cpio.ParseHeader` | lib/cpio.c:30-55 | data and next header lie behind the header, inside memory: the search moves forward |
| `Cpio.CpioParseHeader` | lib/cpio.c:30-55 | exactly the specified result, error cases included |
| `Cpio.EntryReads` | lib/cpio.c:30-55 | a stored file is parsed to its name, its contents and the place right behind it; the trailer to the end mark |
| `Cpio.FindsFirst` | lib/cpio.c:57-85 | in an archive of any files the search gives exactly the contents of the first file of the name, or not-found when there is none |
| `Cpio.AllVisible` | lib/cpio.c:44-45 | every file can be found if and only if none is called like the trailer |
| `Cpio.CpioTraverse` | lib/cpio.c:57-85 | the loop ends on any memory and gives exactly the specified result |
| `BootTransfer.HeaderIsAccepted` | btlder/c8763.c:15-23 | from any index the header is accepted at its fifth byte, not before |
| `BootTransfer.FirstByteIsNotCompared` | btlder/c8763.c:17-22 | from any index: of five bytes with no acceptance within the first four, the fifth is accepted if and only if the last four are right and the first did not carry the matcher on from a later index |
| `BootTransfer.WrongFirstByte` | btlder/c8763.c:17-22 | any byte but the one waited for, and at index 0 any at all, followed by the last four is accepted |
| `BootTransfer.C8763Reader` | btlder/c8763.c:8-33 | the three loops are exactly the specified loader, on any input |
| `BootTransfer.SendImage` | protocol.py:26-63 | the sending program is exactly the specified sender, for any replies |
| `BootTransfer.SizeGrows` | btlder/c8763.c:24-29 | the size is assembled from its four big-endian bytes |
| `BootTransfer.LoaderMovesOn` | btlder/c8763.c:8-33 | reading the next byte of the stream takes the loader to its next state and echoes the next expected echo, or none |
| `BootTransfer.ReceivingKeepsInv` | btlder/c8763.c:8-33 | a step of the loader keeps the two-channel invariant |
| `BootTransfer.SendingKeepsInv` | protocol.py:26-63 | a step of the sender keeps the two-channel invariant: every echo is the expected one |
| `BootTransfer.RejectsEcho` | protocol.py:27-63 | the sender ends with an error at an echo if and only if it is not the byte sent |
| `BootTransfer.LoadsStream` | btlder/c8763.c:8-33 | fed the whole stream, from any index, the loader enters the image and has sent exactly the echoes |
| `BootTransfer.SendsStream` | protocol.py:26-63 | given exactly the right echoes, the sender finishes and has written the whole stream, for every image whose size four bytes hold |
| `BootTransfer.StepLowersRank` | protocol.py:26-63 | every step of either party brings the end nearer |
| `BootTransfer.StuckMeansDone` | btlder/c8763.c:30-33 | when neither party can move, the transfer is done if and only if the size is below 2^31 |
| `BootTransfer.TransferIsRight` | protocol.py:26-63 | for every interleaving and any matcher index: no echo is wrong, a kernel that is entered is the image, runs are short, and a run that cannot go on has transferred the image if and only if it is below 2^31 bytes |

## Left out

- BuddyRuns.AllocEffect: requires a free block of the order or above; when memory is exhausted the source prints a message and goes on with a list head taken for a frame, which is not modelled.
- BuddyHistory.InitForm: takes the records that `init_allocator` does not write to be zero in memory.
- BuddyHistory.RunKeepsNoPairs: callers release only what they hold, each once.
- BuddyReserve.ReserveSubtracts: for aligned heads, as at boot, where the pass is used; the range ends are below 2^64 minus a page or wrap as in the source.
- SmallObjects.RunKeepsHeld: for runs that never release a page-start bin; `ReleaseLiveBin` says what such a release does.
- AddressSpace.Space.Mapping: requires three fresh pages from the allocator and flags outside the address field; exhausted memory is not modelled.
- AddressSpace.Space.MapPages: requires enough fresh pages; the same.
- AddressSpace.Space.SysMmap: requires that the recursion ends; `MmapReturns` says exactly when it does.
- MmapSearch.GivenEndsBelowLimit: in a thread with some area below the limit, which every thread has.
- DemandPaging.FaultsKeepSound: for faults below the upper end of the area found; `FaultKeepsSound` says exactly when the others are right.
- DemandPaging.FaultsMapExactly: for areas over page-aligned memory; `EntryIsExact` says exactly when an entry is right.
- IrqEvents.StepKeepsInv: a step that takes from an empty queue is not enabled in the machine; `WhatTakeFinds` says exactly when the source would do it, and `TakeNext` what it then does.
- IrqEvents.EventQueue.TakeNext: what the list head holds in place of an event is unwritten memory, taken as a parameter; what the call of its handler does is not modelled.
- Processes.System.SysExec: for a file that is found; that `sys_exec` zeroes the root table is the constructor of `Space`, which starts from one.
- Scheduler.NoStarvation: supposes endless runs in which `schedule` is called again and again, and reaping by idle only; the first switch in `exec_thread`, which sets the current thread directly, is not a step of these runs.
- Processes.System.SysFork: block contents are abstract values, copied whole; the text of a started thread is such a value too. The saved registers and signal state that fork and exec set are not modelled.
- BuddyHistory.ReleasingAllRestores: for the code as written only of runs without a merge from the upper half; `ReleasingNeedNotRestore` shows that other runs fail, and `BuddyIntended.ReleasingInAnyOrderRestores` is the claim for all runs with the merge as it was meant.
- BuddyHistory.LowerHalvesKeepForm: the same; `RunKeepsAligned` says exactly which runs keep heads at block bases.
- BuddyHistory.BootThenRun: the identity only for boot ranges that are nonempty once rounded or meet no free block; `EmptyRangeIsHarmful` shows one that is not.
- Processes.System.ThreadCreate: data, user stack and root table of a thread belong to it only through its areas; the source leaks those that no area records (the old root table, the data of a forked child).
- Timers.StepKeepsInv: each operation is one step, as the list is not locked in the source; ticks do not wrap 64 bits, and expiries in seconds are ticks by then.
- Bytes.StrLen: memory beyond the data reads as zero, and lengths are not cut to 32 bits.
- Cpio.FindsFirst: names are NUL-free and contents and names shorter than 2^32 bytes, as the format can express them.
- BootTransfer.TransferIsRight: one transfer from the loader's start, with empty channels; bytes are not lost, the buffer at 0x80000 is the sequence of the bytes stored so far, and the second round of the outer loop, reached only if the kernel returns, is not modelled.
- Reclaiming page tables (`free_pages`): its validity guard is inverted, so it skips every table that `mapping` builds.
- Context switches, exception entry, translation-buffer maintenance: assembly; a switch is the change of the current thread.
- Signals (`lib/signal.c`), mailbox, reboot, UART registers and ring buffers, shell, printing.
- The reading of the initial-file-system addresses and of the first memory reservation from the device tree: one load each.
- The boot-time identity mapping: constants only.
