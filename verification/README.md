# A model of the kernel's state-keeping core

A Dafny model of the parts of a small x86-64 kernel that keep its state: paged memory, the pool
allocator under its lock, file mappings and their write-back, the description tree, coalesced disk
requests, the scheduler, signal handlers, driver modules and interrupt vectors. The C++ sources do not
compile; each member models the algorithm a function is meant to implement, in its own loops and
data, and the comment beside it says where the text differs. Where the text is a definite other
algorithm a member named `...AsWritten` keeps it, with a lemma saying for exactly which inputs it does
what is meant.

| file | models |
|---|---|
| `PageTypes`, `Bitmap` | page sizes and rounding; the physical page bitmap, its two scans and the kernel allocator |
| `Paging`, `Effects`, `FaultHandlers` | all owners of memory as one machine with faults, swapping and realloc; what each step does to entries, bitmap and bytes; the handlers on mutable state |
| `Moves`, `MovedBytes`, `SwapRoom`, `Accounting` | what a realloc moves and when it fails, and freeing as written; the bytes it carries; the room on partitions; `used_memory` |
| `PageTree`, `PageTable`, `Reach`, `EntryBits`, `Translation` | the four-level tree in one array, walk, search, mapping; what processor and search reach; the 64-bit entry; paging seen through the tree |
| `Pool`, `PoolLock`, `PoolRequests`, `PoolCount` | `Hash`, the interleavings of processors under `King`'s lock, what callers get, and its count |
| `Listeners`, `MappingEffects`, `FileMaps` | mappings of file pages, their 8-bit counters, eviction |
| `Vfs` | mounting and path lookup |
| `Disk` | coalescing of physically contiguous pages |
| `Scheduler`, `SchedulerEffects`, `Signals` | picking, hand-over and teardown; the override queue |
| `Modules`, `Vectors` | drivers and quirks; interrupt vectors |

In each state machine the run theorems quantify over every sequence of steps from every initial state
of the stated form.

## What the code does not meet

Each of these has a lemma giving the exact condition or a concrete run.

- A run of pages that ends with the last page of memory is never found (`Bitmap.ScanMissesLastPage`, `Bitmap.LastPageMissed`).
- `mem_free` and `mem_realloc` look at the frame field alone, whatever the page's mode: freeing a page never touched clears frame 0 and freeing a swapped one the frame its disk position names, and a moved page of either kind comes out as a present one in that frame (`Moves.ReleaseAsWrittenOwns`, `Moves.FreeingUntouchedTakesFrame0`, `Moves.ParkAsWrittenOwns`).
- `mem_free` leaves a RESERVE entry that the next touch backs again, so `used_memory` is wrong after every free of a page (`Accounting.FreeAsWrittenAccounts`). Also when the entries do go, it is wrong after a refused free or a realloc that changes the number of pages (`Accounting.StepAccounts`).
- A `mem_realloc` that does not fit has lost its frames (`Moves.ReallocLeaks`).
- A swapped page comes back from the partition it went to exactly when that one and all before it hold SWAP partitions (`FaultHandlers.NumberComesBack`).
- Room on a partition is never given back: every page brought back and every swapped block given up leaves it used (`SwapRoom.NextOwnsRoom`, `SwapRoom.PageInKeepsRoomUsed`).
- Shrinking a pool section copies the old length over its neighbours (`Pool.ShrinkingKeepsOthers`, `Pool.ShrinkingReallocOverruns`).
- The father check of `vmtree_fetch` knows small pages only (`PageTree.FetchAsWrittenFindsSmallOnly`).
- The documented layout of file entries shares a bit between page number and taken, and a page that was swapped comes back without its user and exec bits (`EntryBits.FilePageSharesTaken`, `EntryBits.SwapCycleKeeps`).
- `pool_free` is not under the lock: live allocations stay apart, and the pool linearizes in runs where no free is under way while another operation is (`PoolLock.UnlockedRunsLinearize`), but not in all (`PoolLock.UnlockedFreeOvertakes`, `PoolLock.NoOrderExplains`); two frees at once lose a change of `count` (`PoolCount.CountDrifts`, `PoolCount.UnlockedCountRaces`).
- Listener counts drift when a page is mapped twice through one descriptor, when FMAP finds no address space, when a mapped descriptor is closed, and wrap at 256 (`Listeners.MapConserves`, `Listeners.CloseConserves`, `FileMaps.CycleFrees`).
- A pass kills threads that processors run (`Scheduler.NextSafe`, `Scheduler.KillingRunningBreaks`), and a thread that is timed out is never picked again (`Scheduler.StrandedForever`).
- Being timed out is not the only way to lose a thread: a processor that asks for help and is itself the first that has executed nothing loses what it finds, and one that was handed a thread, which does not count as executed, loses it with the next hand-over (`Scheduler.NextLosesNone`, `Scheduler.SelfHelpLoses`, `Scheduler.SecondHelpLoses`).
- Dispatch by device count finds every device only of directories whose count fits their stride (`Vectors.AsWrittenFindsExactly`, `Vectors.LoneDeviceIsMissed`).
- A signal handler's registers are not saved apart: the thread resumes with those of the last entry (`Signals.ResumesWhereInterrupted`, `Signals.HandlerLeavesItsRegisters`).
- Removing a driver that is not at the top leaves the slot of the problem it solved leading nowhere (`Modules.RemovalDangles`).

## Model

| member | source | states |
|---|---|---|
| `PageTypes.RoundUpCovers` | kernlib/pagerounds.cpp:12-18 | the intended rounding is the least number of pages that hold the bytes, and tosmallpage is its 4096-byte case |
| `PageTypes.RoundUpAsWrittenNeverCovers` | kernlib/pagerounds.cpp:12-18 | with its branches as written the rounding is wrong for every size |
| `Bitmap.Kingmem.GetFreeIdentity` | runtime/mem/core.h:230-253 | the skipping scan answers what a plain page-by-page search for an aligned free run would, for every size and memory length, and ends |
| `Bitmap.Kingmem.GetFreePhys` | runtime/mem/core.h:201-229 | the first aligned free blocks in ascending order, with a flag saying whether there were enough, and all there are when there were not |
| `Bitmap.FreeBlocksIsAll` | runtime/mem/core.h:201-229 | a page number is in the specification's list exactly when an aligned free block starts there |
| `Bitmap.FreeBlocksAscend` | runtime/mem/core.h:201-229 | that list is in strictly ascending order |
| `Bitmap.SkipMissesNothing` | runtime/mem/core.h:216-220 | jumping from a used page to the next aligned block passes over no aligned free run |
| `Bitmap.ScanMissesLastPage` | runtime/mem/core.h:235-252 | the scan agrees with a search of all memory exactly when the first fit does not end with the last page |
| `Bitmap.LastPageMissed` | runtime/mem/core.h:235-252 | one free page of memory: there for the search, missed by the scan |
| `Bitmap.UsedLastPageMissesNone` | runtime/mem/core.h:235-252 | with the last page used the scan misses nothing |
| `Bitmap.Kingmem.ManipulatePhys` | runtime/mem/core.h:255-270 | exactly the pages of the given blocks are set or cleared |
| `Bitmap.SetBlocksAt` | runtime/mem/core.h:255-270 | a page is set or cleared exactly when one of the blocks covers it |
| `Bitmap.Kingmem.Malloc` | kernlib/mem.h:3-8 | the first fit is claimed; without one nothing changes |
| `Bitmap.Kingmem.MFree` | kernlib/mem.h:9-12 | exactly the pages of the run are cleared |
| `FaultHandlers.Vm.MRealloc` | kernlib/mem.h:14-20 | the new run is found while the old is still held; unless it is shorter it gets the old bytes and no other byte changes; the old run is released even when there is no new one |
| `Paging.RunsKeep` | runtime/mem/core.h:201-481 | over every run of allocation, mapping, faults, swapping, realloc, exit and file pages a bitmap bit is set exactly when one owner holds the frame, no owners overlap in memory, on a partition or in virtual addresses of one process, and every byte stored is where its entry points |
| `Paging.NextKeeps` | runtime/mem/core.h:201-481 | each single step keeps that invariant |
| `Paging.BackKeeps` | runtime/mem/core.h:417-420 | first touch of a reserved page keeps it |
| `Paging.SwapOutKeeps` | runtime/mem/core.h:387-396 | swapping a page out keeps it, contents included |
| `Paging.SwapInKeeps` | runtime/mem/core.h:433-454 | bringing a swapped page back keeps it, contents included |
| `Paging.ReleaseKeeps` | runtime/mem/core.h:296-305 | giving a block up keeps it |
| `Paging.RenameKeeps` | runtime/mem/core.h:173-176 | a block changing hands keeps it, contents included |
| `Paging.StoreKeeps` | runtime/mem/core.h:399-411 | a store through a present entry changes one byte of its owner and nothing of anyone else's |
| `Paging.ReallocKeeps` | runtime/mem/core.h:320-334 | mem_realloc keeps it, on its failure paths too |
| `Effects.SoftFaultBacks` | runtime/mem/core.h:417-420 | first touch gives a page never touched the first aligned free run of its length, exactly when there is one before the scan's end; that run alone is taken, and no other block, byte or bit changes |
| `Effects.HardFaultBringsIn` | runtime/mem/core.h:433-454 | a swapped page comes into the first aligned free run with every byte it had, exactly when there is one, and nothing else changes |
| `Effects.SwapPageTakesOut` | runtime/mem/core.h:387-396 | a page goes to the first partition with a long enough free run, with every byte it had, exactly when there is one; its frames alone come free |
| `Effects.FaultsElsewhereChangeNothing` | runtime/mem/core.h:412-455 | in any other state of the entry the three change nothing |
| `Effects.SysMallocReserves` | runtime/syscalls/018_SYS_MALLOC.cpp:11-14 | the pages are there, untouched, all or none, and nothing else changed |
| `Effects.HasNoneIsClear` | runtime/mem/core.h:66-89 | for entries of at least a page there is room exactly when none of the process spans a page of the run |
| `Effects.SysFreeGivesBack` | runtime/mem/core.h:296-305 | the pages go, with exactly their frames, when all of them are there, and else nothing changes |
| `Effects.KernelMallocObtains` | kernlib/mem.h:3-8 | a new block of the length in the first aligned free run exactly when there is one, and nothing else changes |
| `Effects.LoadPageObtains` | runtime/vfs/core.h:53-58 | the same for a file page |
| `Effects.KernelFreeGivesBack` | kernlib/mem.h:9-12 | the block goes, with exactly its frames |
| `Effects.ExitGivesBack` | runtime/mem/core.h:456-481 | the entries of the process go with exactly their frames; every other owner keeps its blocks and every byte |
| `Effects.StoreChangesOneByte` | runtime/mem/core.h:399-411 | a store changes the one byte, for its owner alone |
| `Paging.LoadReturnsLastStore` | runtime/mem/core.h:351-455 | paging is invisible: after any steps that neither store at a virtual address nor give its page up, the process reads there the byte it last stored, and no other entry spans the address |
| `Translation.PagingIsInvisible` | runtime/mem/core.h:121-149 | the same through the hardware: after such steps, in any tree with the process' entries, the walk for the address lands on an entry; where it is present memory holds the byte last stored at the address it translates to, where it is not the page is on disk |
| `Translation.WalkFindsEntry` | runtime/mem/core.h:121-132 | the walk lands on the entry that spans the address, and a present one translates to the block's frame plus the offset |
| `Translation.TreeForEnters` | runtime/mem/core.h:90-111 | entries that lie over no other and in line with their sizes can all be in one tree |
| `Translation.NextAligned` | runtime/mem/core.h:66-89 | every step keeps entries in line that is given addresses as vmtree_fetch answers them |
| `Paging.BlockReadsLastStore` | runtime/mem/core.h:351-455 | the same for every owner, kernel blocks, arrays of realloc and file pages included, by offset in the block |
| `Paging.SwappedFrameUnreachable` | runtime/mem/core.h:387-396 | a frame released by a swap-out is free and no entry of any owner leads to it |
| `SwapRoom.NextOwnsRoom` | runtime/mem/core.h:387-455 | partitions go on counting as used exactly the pages that hold a block over exactly the steps that neither bring a swapped block back nor give one up |
| `SwapRoom.RunOwnsRoom` | runtime/mem/core.h:387-455 | so over every run of such steps |
| `SwapRoom.PageInKeepsRoomUsed` | runtime/mem/core.h:433-455 | a page comes back and leaves its partition full with nothing on it |
| `Paging.ExitFreesItsFrames` | runtime/mem/core.h:456-481 | after teardown the process has no entry, and exactly the frames its entries covered are free again |
| `Accounting.StepAccounts` | runtime/syscalls/019_SYSFREE.cpp:9-10 | used_memory equals the pages reserved after a step exactly when the step frees only pages that were reserved, and reallocs to as many as before or, where it does not fit, from none |
| `Accounting.StepAdds` | runtime/syscalls/018_SYS_MALLOC.cpp:11-14 | what every step adds to the pages a process has reserved |
| `Accounting.RunsAccount` | runtime/syscalls/018_SYS_MALLOC.cpp:11-14 | over every run of such steps used_memory equals the 4096-byte pages reserved |
| `Moves.ReallocSucceeds` | runtime/mem/core.h:320-334 | a realloc of reserved pages succeeds exactly when an address was found, its range is free but for the pages that move, and the bitmap has a frame for each page more |
| `Moves.ReallocMoves` | runtime/mem/core.h:320-334 | then the old pages, place and contents, are found in order under the new addresses, with fresh ones behind |
| `MovedBytes.ReallocCarriesBytes` | runtime/mem/core.h:320-334 | every byte of an old page is found at its new address, and what was last stored at the one is what was last stored at the other |
| `MovedBytes.MovedByteIsRead` | runtime/mem/core.h:320-334 | the process reads at the new virtual address what it last stored at the old one |
| `MovedBytes.ReallocKeepsOthers` | runtime/mem/core.h:320-334 | whether it fits or fails, an owner that does not move keeps its block, every byte and what it last stored |
| `MovedBytes.ReallocBacksNew` | runtime/mem/core.h:325-328 | the new pages are in memory |
| `MovedBytes.ReallocRefused` | runtime/mem/core.h:320-323 | of pages that are not all there, or to fewer, nothing moves |
| `Moves.ReallocLeaks` | runtime/mem/core.h:320-334 | it loses no frame exactly when it fits or had no page to begin with |
| `Moves.ReleaseAsWrittenOwns` | runtime/mem/core.h:296-305 | freeing as written leaves every frame its one owner exactly when the page is in memory or nobody owns a frame its field names |
| `Moves.FreeingUntouchedTakesFrame0` | runtime/mem/core.h:296-305 | freeing a page never touched takes frame 0 from its owner |
| `Moves.ParkAsWrittenOwns` | runtime/mem/core.h:165-179 | moving pages as written leaves every frame its one owner exactly when all of them are in memory |
| `Accounting.FreeAsWrittenAccounts` | runtime/mem/core.h:300-303 | with the RESERVE entries it leaves, used_memory is right after mem_free exactly when it freed nothing |
| `Accounting.EmptyAllLeaves` | runtime/mem/core.h:300-303 | every page it frees stays entered and reserved, exactly their frames come free |
| `FaultHandlers.Vm.SoftfaultHandler` | runtime/mem/core.h:412-432 | a page never touched gets the first aligned free run exactly when there is one, that run alone is taken and nothing else changes; a segmentation fault exactly without an entry |
| `FaultHandlers.Vm.HardfaultHandler` | runtime/mem/core.h:433-455 | makes exactly the page-in transition; anything not swapped is a segmentation fault, and a swap number without partition kills and gives the new frame back |
| `FaultHandlers.Vm.SwapEntry` | runtime/mem/core.h:387-396 | makes exactly the swap-out transition: room on the first partition that has some, contents written, frame freed |
| `FaultHandlers.Vm.SwapProcess` | runtime/mem/core.h:360-398 | is the swap-out of each entry in turn |
| `FaultHandlers.SwapEachKeeps` | runtime/mem/core.h:360-398 | swapping a whole process out loses no byte |
| `FaultHandlers.SwapEachTakesOut` | runtime/mem/core.h:360-398 | of the entries swapped out one is still in memory afterwards only when no partition has a free run of its length |
| `FaultHandlers.FindRun` | kontrol.h:29-41 | the room looked for on a partition is its first long enough free run |
| `FaultHandlers.Vm.FindPartition` | runtime/mem/core.h:388-393 | the first partition with a long enough free run, and the run; none exactly when no partition has one |
| `FaultHandlers.Vm.WriteOut` | runtime/mem/core.h:394-396 | the page goes to its place on disk, its frame back, and nothing else changes |
| `FaultHandlers.NumberComesBack` | runtime/mem/core.h:437-446 | the swap number written for a partition leads back to it exactly when it and all before it are occupied SWAP partitions |
| `FaultHandlers.FindNumbered` | runtime/mem/core.h:437-446 | the loop counts occupied SWAP partitions down |
| `FaultHandlers.CopyIsOverwrite` | kernlib/mem.h:14-20 | copying byte after byte between places that do not overlap moves the bytes as they were |
| `PageTree.WalkIsClosedForm` | runtime/mem/core.h:121-132 | on a laid tree the level-by-level walk lands on the entry that level offset plus address by page size gives, at the first large page or the depth asked for |
| `PageTree.TablesTile` | runtime/mem/core.h:90-111 | tables of different entries never overlap, each level's fill exactly the next level, all lie within the tree |
| `PageTree.EntryVmInverse` | runtime/mem/core.h:139-149 | entryto_vm and the closed form are inverse at every level, up to the offset in the page |
| `PageTree.MappedTranslates` | runtime/mem/core.h:286-295 | an address in a mapped run translates to target plus its distance from the start |
| `PageTree.OthersTranslate` | runtime/mem/core.h:286-319 | rewriting the entries of a run changes no translation outside it |
| `PageTree.MarkingKeepsTranslations` | runtime/mem/core.h:127 | the taken bits the walk leaves change no translation |
| `PageTree.FetchAsWrittenFindsSmallOnly` | runtime/mem/core.h:82 | the father check as written accepts an unused run exactly when it is one of small pages |
| `PageTable.ProcessTree.constructor` | runtime/mem/core.h:90-111 | a new tree is laid whole |
| `PageTable.ProcessTree.Lay` | runtime/mem/core.h:90-111 | every entry of every level is the default, directories pointing at consecutive tables of the next level |
| `PageTable.ProcessTree.VmtoEntry` | runtime/mem/core.h:121-132 | lands on the closed form's entry and marks as taken exactly the entries on the way |
| `PageTable.ProcessTree.RunIsFree` | runtime/mem/core.h:75-79 | true exactly when the run is present, untaken and within one directory |
| `PageTable.ProcessTree.TryRun` | runtime/mem/core.h:74-86 | true exactly when the run is free and under no large page; a failed try marks nothing at its level or below |
| `PageTable.ProcessTree.VmtreeFetch` | runtime/mem/core.h:66-89 | the first run of the length that is unused, in one directory and under no large page; none exactly when there is none |
| `PageTable.ProcessTree.MemMap` | runtime/mem/core.h:286-295 | every address of the fetched run translates to target plus its offset, every other one as before; every entry of the run is present, taken, mapped and for userspace; fails only when no run exists |
| `PageTable.ProcessTree.MemUnmap` | runtime/mem/core.h:307-319 | all or nothing: the entries go back to default exactly when every one of the run is a user mapping within the level; else no translation changes |
| `PageTable.ProcessTree.Lend` | drivers/nonvolatile_storage/README.cpp:113-126 | mapping a buffer and unmapping it again restores every translation, and the same run can be found again |
| `PageTable.ProcessTree.TakeBack` | drivers/nonvolatile_storage/README.cpp:126 | unmapping what has just been mapped succeeds and leaves only marks |
| `PageTable.UnmapKeepsForm` | runtime/mem/core.h:307-319 | unmapping keeps the tree well formed |
| `PageTable.TouchedWellformed` | runtime/mem/core.h:127 | so does marking a walk |
| `PageTable.LendProof` | runtime/mem/core.h:286-319 | mem_unmap undoes mem_map: it succeeds and leaves only marks |
| `PageTable.UnmappedIsFree` | runtime/mem/core.h:307-319 | a run that was mapped is free again once unmapped |
| `Reach.WalkMarksPath` | runtime/mem/core.h:121-132 | a walk marks the one entry of each level that the address lies under, and changes nothing else |
| `Reach.MappedIsReached` | runtime/mem/core.h:286-295 | every entry on the processor's way to an address of a mapped run is present |
| `Reach.MappedIsNotFetched` | runtime/mem/core.h:66-89 | no search, at any level, answers a run that shares an address with a mapped one |
| `Reach.LaidIsFree` | runtime/mem/core.h:90-111 | a tree just laid is well formed and every run within one directory is free |
| `Reach.LaidIsReached` | runtime/mem/core.h:90-111 | the processor walks it down to the last level for every address |
| `EntryBits.FieldsReadBack` | runtime/mem/core.h:113-120 | frame, mode, cache type, user and exec bits, disk position and swap number written into an entry are read back unchanged, for every value that fits |
| `EntryBits.WordsWriteBack` | runtime/mem/core.h:42-49 | decoding and encoding a word gives the word back exactly for the words a writer can leave, so fields never overlap |
| `EntryBits.SwapOutReadsBack` | runtime/mem/core.h:351-356 | exchanging for swap answers the frame whole and leaves the entry absent, SWAPPED, taken and naming its place on disk |
| `EntryBits.SwapCycleKeeps` | runtime/mem/core.h:452 | out to disk and back an entry is what it was, but for the frame, exactly when it was a RESERVE, WRITEBACK one without user and exec bits |
| `EntryBits.SwapAsWrittenIsLost` | runtime/mem/core.h:351-356 | as written a swapped entry never reads as SWAPPED and never loses present |
| `EntryBits.DiskAsWrittenReadsBack` | runtime/mem/core.h:351-356 | as written the disk position is read back exactly when it is 0 |
| `EntryBits.FrameAsWrittenReadsBack` | runtime/mem/core.h:137 | the frame decoder as written is right exactly when bits 56 to 58 are clear, so never for a taken entry |
| `EntryBits.HardwareReadsAnotherFrame` | runtime/mem/core.h:292-293 | the processor reads the frame the kernel wrote exactly for frame 0 |
| `EntryBits.CacheAsWrittenReadsBack` | runtime/mem/core.h:113-120 | the cache type as written survives exactly when it is odd, and opens the page to user mode from 4 on |
| `EntryBits.UnmapModeReads` | runtime/mem/core.h:314 | the mode test of mem_unmap as written refuses every mapped page |
| `EntryBits.FaultModesRead` | runtime/mem/core.h:416-435 | the mode tests of both fault handlers as written meet a mode only in words whose mode is 0; teardown's ignores the mode bits |
| `EntryBits.FileEntryReadsBack` | runtime/syscalls/020_SYSFMAP.cpp:14-16 | descriptor and page written by fmap are read back by the fault handler exactly when they are 0 |
| `EntryBits.FilePageSharesTaken` | runtime/mem/core.h:46-49 | in the documented layout bit 8 of the page is the taken bit: exactly the pages that have it can be both read back and taken |
| `Pool.Hash.constructor` | kontrol.h:22-27 | an empty pool satisfies the invariant that count is the number of occupied slots |
| `Pool.Hash.Alloc` | kontrol.h:29-51 | the first long enough free run is marked, counted and answered by its first slot; else a growable pool grows; contents stay |
| `Pool.AllocatedTakes` | kontrol.h:29-51 | exactly the first free run of the length is taken, else new slots behind the last where the pool may grow, else nothing |
| `Pool.Hash.Free` | kontrol.h:52-56 | exactly the section is cleared; count stays right exactly when all of it was occupied |
| `Pool.Hash.Realloc` | kontrol.h:57-67 | release, then allocate, then copy: the new slots, answer and contents in full |
| `Pool.ReallocKeepsPrefix` | kontrol.h:57-67 | realloc to no less keeps the old contents, also into an overlapping run, and touches nothing else |
| `Pool.ReallocKeepsOthers` | kontrol.h:62-67 | realloc changes no slot outside the old and the new run, whatever the pool holds, exactly when the new length is not shorter or what the copy runs over lies in the section |
| `Pool.ShrinkingKeepsOthers` | kontrol.h:57-67 | with the run alloc answers, exactly when the new length is not shorter or no free run of it ends before the section |
| `Pool.ShrinkingReallocOverruns` | kontrol.h:62-67 | a shrinking realloc that overwrites another section |
| `Pool.FreeUndoesAlloc` | kontrol.h:29-56 | free gives back the slots from before, plus what the pool grew by |
| `Pool.FreeAsWrittenClears` | kontrol.h:53 | the loop of free as written clears the right slots exactly at the start of the pool |
| `Pool.OccupiedSet` | kontrol.h:38-54 | how marking or clearing a section moves the count |
| `PoolLock.RunIsSafe` | kontrol.h:71-111 | in every interleaving of any number of processors allocating, freeing, reallocating and growing, at most one is inside the lock and calendar is set exactly while one is |
| `PoolLock.LiveNeverOverlap` | kontrol.h:88-111 | in every interleaving, with free locked or as written, live allocations never overlap and all their slots are set |
| `PoolRequests.RunAnswersRequests` | kontrol.h:88-111 | over every run the operations finished are the requests let in, one for one: the kind, the section given back and the length asked for |
| `PoolRequests.LetInBegins` | kontrol.h:71-87 | a request that is let in is under way, its section no longer live, nothing else touched |
| `PoolRequests.FinishMakesLive` | kontrol.h:88-111 | the run answered becomes live under a new number with exactly the length asked; no other live section changes |
| `PoolRequests.OperationsEnd` | kontrol.h:88-111 | in every run an operation is done before its processor has worked a bounded number of steps, whatever others do |
| `PoolRequests.SetIsLive` | kontrol.h:88-111 | over every run, with free locked or as written, whenever no operation is under way a slot is set exactly when it lies in a live section |
| `PoolLock.LockedRunsLinearize` | kontrol.h:88-111 | with free under the lock the finished allocs, frees and reallocs, in order, are a sequential run of the pool with the same answers, growth included, and the slots are what it leaves whenever calendar is 0 |
| `PoolLock.UnlockedRunsLinearize` | kontrol.h:88-111 | with free as inherited, outside the lock, so is every run in which no free is under way while another operation is |
| `PoolLock.UnlockedFreeOvertakes` | kontrol.h:88-111 | with free as inherited, outside the lock, a run in which an allocation answers slot 1 after both slots were freed during its scan |
| `PoolLock.OvertakenScanStartsRight` | kontrol.h:88-111 | that run starts from a proper state |
| `PoolLock.NoOrderExplains` | kontrol.h:88-111 | no place for that allocation among the two frees gives its answer |
| `PoolCount.LockedCountIsRight` | kontrol.h:29-56 | with free under the lock, over every run, count is the number of occupied slots whenever calendar is 0 |
| `PoolCount.CountDrifts` | kontrol.h:29-56 | with free locked or not, over every run, whenever no operation is under way count is off by exactly what writes of stale values took back |
| `PoolCount.UnlockedCountRaces` | kontrol.h:52-56 | a run of two frees outside the lock that ends with no slot in use and a count of 1 |
| `Listeners.ListenersCountHolders` | runtime/syscalls/020_SYSFMAP.cpp:13-44 | over every run a page's counter is the number of live descriptors that mark it plus the strays of the run, modulo 256 |
| `Listeners.NextAgrees` | runtime/syscalls/020_SYSFMAP.cpp:13-44 | each step moves the counter with the holders but for its own stray, which is 0 for all but FMAP and SYSCLOSE |
| `MappingEffects.MapHolds` | runtime/syscalls/020_SYSFMAP.cpp:13-44 | FMAP marks the run, adds the descriptor to the holders of its pages and raises their counters by one if there was room; no other mark, page or descriptor changes |
| `MappingEffects.UnmapReleases` | runtime/syscalls/021_SYS_FUNMAP.cpp:29-32 | when all pages are marked FUNMAP clears the run's marks, takes exactly the descriptor from the holders of its pages and lowers their counters by one; else nothing changes |
| `MappingEffects.KillTakesDescriptors` | kernlib/KILL.cpp:8-19 | PKILL leaves the process no descriptor, others theirs, and memory and disk of every page |
| `MappingEffects.TouchLoads` | runtime/vfs/core.h:53-58 | a page read is in memory afterwards, from disk if it was not before |
| `MappingEffects.CycleWritesBack` | runtime/vfs/core.h:153-174 | exactly the pages in memory with counter 0 go out, to disk |
| `Listeners.MapConserves` | runtime/syscalls/020_SYSFMAP.cpp:38-44 | FMAP keeps the counts right exactly when it finds room and had none of the pages mapped, or none and had them all |
| `Listeners.CloseConserves` | runtime/syscalls/003_SYSCLOSE.cpp:7-9 | closing a descriptor keeps them right exactly when it has nothing mapped |
| `Listeners.MappedTwiceMiscounts` | runtime/syscalls/020_SYSFMAP.cpp:38-44 | a page mapped twice through one descriptor is counted wrong |
| `Listeners.ClosedMappedMiscounts` | runtime/syscalls/003_SYSCLOSE.cpp:7-9 | closing a descriptor that has a page mapped leaves the page counted wrong |
| `FileMaps.UnmapAsWrittenLosesCount` | runtime/syscalls/021_SYS_FUNMAP.cpp:29-30 | without clearing the marks exactly the pages released are counted wrong |
| `FileMaps.KillReleasesAll` | kernlib/KILL.cpp:8-19 | after PKILL the process holds no page, every other descriptor what it held |
| `FileMaps.CycleFrees` | runtime/vfs/core.h:153-174 | in every reachable state write-back takes a page out exactly when holders and strays make a multiple of 256, without strays and under 256 holders exactly when nobody maps it, and what it takes out is on disk |
| `FileMaps.PagesReadLastStore` | runtime/vfs/core.h:50-60 | over every run a file page reads as the value last stored to it, whatever was mapped, loaded, written back or torn down |
| `FileMaps.CycleAsWrittenKeeps` | runtime/vfs/core.h:162-168 | write-back as written, that does not ask whether a page is in memory, keeps it exactly when it is counted, in memory, or like what lies behind null |
| `FileMaps.CountAdmitsOpen` | runtime/syscalls/020_SYSFMAP.cpp:27 | comparing a descriptor with the count lets every open one through exactly when there is no gap before them |
| `FileMaps.Mappings.SysFmap` | runtime/syscalls/020_SYSFMAP.cpp:23-48 | every error code with nothing changed, the root test included; else marks, counting step, and killed exactly when a page was mapped before |
| `FileMaps.Mappings.Fmap` | runtime/syscalls/020_SYSFMAP.cpp:8-20 | each counter of the range goes up by one, modulo 256, exactly when there is address space |
| `FileMaps.Mappings.SysFunmap` | runtime/syscalls/021_SYS_FUNMAP.cpp:23-32 | refused and unchanged without a descriptor or range, killed and unchanged unless every page is marked, else the run's marks are gone, its pages lose exactly this holder and one count each |
| `FileMaps.Mappings.Pkill` | kernlib/KILL.cpp:8-19 | releases every mark of every descriptor once |
| `FileMaps.Mappings.LoadPage` | runtime/vfs/core.h:50-60 | answers the page's contents whenever there is a frame, loading them at most once |
| `FileMaps.Mappings.WritebackCycle` | runtime/vfs/core.h:153-174 | writes out and frees exactly the pages in memory without listeners |
| `Vfs.InsertInserts` | runtime/vfs/core.h:62-75 | an insertion succeeds exactly when the trees fit, then fills as many unused slots as they have nodes with a copy that has the right parents, and on any outcome changes no other description |
| `Vfs.MountKeepsEarlier` | runtime/vfs/core.h:76-91 | mounting leaves every earlier description as it was and no allocation fails exactly when the tree fits what is free |
| `Vfs.MountCopiesTree` | runtime/vfs/core.h:76-91 | a mount that fits is isomorphic to the disk tree and uses one unused slot for each node |
| `Vfs.InsertedPathsResolve` | runtime/vfs/core.h:62-116 | in an inserted tree every path leads to the description of what it names on disk, or to the same error |
| `Vfs.LookupInvertsSpelling` | runtime/vfs/core.h:96-116 | with distinct sibling names without slashes a path resolves to a node exactly when it spells a chain to it |
| `Vfs.FoundIsSpelled` | runtime/vfs/core.h:96-116 | in any pool, whatever is found the path spells a chain to |
| `Vfs.SpelledIsFound` | runtime/vfs/core.h:96-116 | every node is found under its slash-joined name |
| `Vfs.AsWrittenFindsChildrenOnly` | runtime/vfs/core.h:101-111 | the lookup as written is right exactly for paths without a slash and those that match no name |
| `Vfs.AsWrittenRightUnspelled` | runtime/vfs/core.h:101-111 | with distinct names without slashes, exactly for paths without a slash and those that spell no chain, not even up to a file |
| `Vfs.UnspelledMatchesNone` | runtime/vfs/core.h:96-116 | the lookup matches nothing exactly when the path spells no chain, not even up to a file |
| `Vfs.VirtualFs.RecursiveInsert` | runtime/vfs/core.h:62-75 | is that insertion, node by node |
| `Vfs.VirtualFs.Mount` | runtime/vfs/core.h:76-91 | refuses exactly when fewer slots are free than asked for or none for the root, changing nothing; else mounts |
| `Vfs.VirtualFs.RecurseDirectories` | runtime/vfs/core.h:96-116 | the character-by-character search is that lookup; it ends, also in a pool with cycles |
| `Vfs.VirtualFs.Open` | runtime/vfs/core.h:120-126 | looks up from an existing description only |
| `Disk.DisksKing.DiskRequest` | drivers/nonvolatile_storage/README.cpp:92-129 | the runs cover the pages exactly, nonempty, contiguous and maximal, one request each, and together do what a transfer page by page does, for reads and writes; the loop ends |
| `Disk.DisksKing.Issue` | drivers/nonvolatile_storage/README.cpp:113-126 | one request moves its pages between consecutive addresses and positions |
| `Disk.ReadsPage` | drivers/nonvolatile_storage/README.cpp:113-126 | after a read every page of the request is in memory as it was on disk, unless a later one goes to the same address |
| `Disk.ReadsOnly` | drivers/nonvolatile_storage/README.cpp:113-126 | and no other address changes, and nothing on disk |
| `Disk.WritesPage` | drivers/nonvolatile_storage/README.cpp:113-126 | after a write every page of the request is on disk in its place as it was in memory |
| `Disk.WritesOnly` | drivers/nonvolatile_storage/README.cpp:113-126 | and no other place on disk changes, and nothing in memory |
| `Disk.RunIsItsPages` | drivers/nonvolatile_storage/README.cpp:103-128 | serving a contiguous run is transferring its pages one by one |
| `Disk.MaximalIsFewest` | drivers/nonvolatile_storage/README.cpp:103-112 | no cover by contiguous runs needs fewer requests |
| `Disk.AsWrittenEnds` | drivers/nonvolatile_storage/README.cpp:103-111 | the loop as written ends exactly when there is no page to transfer or the second entry follows the first |
| `Disk.OneRunIsRight` | drivers/nonvolatile_storage/README.cpp:103-115 | the single request it then makes reads every page right, whatever is stored, exactly when all pages are contiguous |
| `Disk.StalePositionReads` | drivers/nonvolatile_storage/README.cpp:114 | naming the position of the whole for a later run reads it right, whatever is on disk, exactly when it is the first |
| `Scheduler.NextSafe` | runtime/sched/sched.cpp:27-108 | after a step each thread is current on at most one processor, hand-over included, exactly when, before it, no processor that goes on runs a thread of a process with SIGKILL in a slot the pass comes to before its answer |
| `Scheduler.RunSafe` | runtime/sched/sched.cpp:27-108 | so over every run of such steps |
| `Scheduler.CalmRunSafe` | runtime/sched/sched.cpp:27-108 | in particular over every run in which no thread that runs belongs to a process with SIGKILL |
| `Scheduler.KillingRunningBreaks` | runtime/sched/sched.cpp:34-40 | with one, three steps bring two processors onto one thread |
| `Scheduler.PickedWithinOnePass` | runtime/sched/sched.cpp:27-54 | a thread that may run at each of a processor's picks is picked before it has picked more often than there are slots, whatever others do |
| `Scheduler.SweepMissesNone` | runtime/sched/sched.cpp:31-50 | a pass answers nothing that lies further round than a thread that may run |
| `Scheduler.SweepKillsDoomed` | runtime/sched/sched.cpp:31-50 | a pass kills only threads of processes with SIGKILL and answers only a thread that may run |
| `Scheduler.SweepKillsReached` | runtime/sched/sched.cpp:31-50 | it kills exactly those in slots before the first thread that may run |
| `Scheduler.TimedOutStrands` | runtime/sched/sched.cpp:201-204 | a thread whose time runs out stays taken while no processor runs it |
| `Scheduler.StrandedForever` | runtime/sched/sched.cpp:201-204 | and never runs again in any run that does not kill it |
| `Scheduler.NextLosesNone` | runtime/sched/sched.cpp:27-108 | every taken thread is still run by a processor after a step exactly when the step times nobody out, a hand-over to oneself finds no thread that may run in its range, and one to a processor that runs a thread kills that |
| `Scheduler.RunLosesNone` | runtime/sched/sched.cpp:27-108 | so over every run of such steps that spare what runs, and each by one processor alone |
| `Scheduler.SelfHelpLoses` | runtime/sched/sched.cpp:93-108 | a processor that hands over to itself loses the thread it finds, and nothing when it finds none |
| `Scheduler.HandOverLoses` | runtime/sched/sched.cpp:23-26 | a hand-over to a processor that runs a thread loses that exactly when the pass does not kill it |
| `Scheduler.SecondHelpLoses` | runtime/sched/sched.cpp:93-108 | a run of two hand-overs that loses the first thread handed over |
| `Scheduler.TornDownOnce` | kernlib/KILL.cpp:37-48 | in every run a process has been torn down once if it has no thread left and never if it has one |
| `Scheduler.NextAccounted` | runtime/sched/sched.cpp:34-40 | every step keeps the count of workers and the teardowns right |
| `SchedulerEffects.PickRunsNearest` | runtime/sched/sched.cpp:27-54 | a processor that picks runs the nearest thread that may and idles exactly when there is none; the doomed ones before it are gone, all others as they were |
| `SchedulerEffects.HelpHandsOver` | runtime/sched/sched.cpp:93-108 | the first processor online that has executed nothing runs what the pass of the asking one finds |
| `SchedulerEffects.NobodyHelps` | runtime/sched/sched.cpp:93-108 | without one nothing changes |
| `SchedulerEffects.SysretReleases` | runtime/sched/sched.cpp:188-193 | a thread given up keeps process and target time and may run again exactly from then on |
| `SchedulerEffects.SleeperWakes` | runtime/sched/sched.cpp:49-50 | a thread that went to sleep may run from its target time on and not before |
| `SchedulerEffects.SignalDooms` | runtime/sched/sched.cpp:34-40 | SIGKILL dooms exactly the threads of its process |
| `Scheduler.ThreadsKing.GetNextThread` | runtime/sched/sched.cpp:27-54 | is one circular pass: kills, answer and taken bit |
| `Scheduler.ThreadsKing.Tkill` | kernlib/KILL.cpp:37-48 | vacates the slot and tears the process down exactly with its last worker |
| `Scheduler.ThreadsKing.Routine` | runtime/sched/sched.cpp:141-144 | a pick makes the processor run what the pass found |
| `Scheduler.ThreadsKing.GetSomeHelp` | runtime/sched/sched.cpp:93-108 | the first processor online that has executed nothing gets what the pass found; the asking one keeps its thread |
| `Scheduler.ThreadsKing.SysretApplication` | runtime/sched/sched.cpp:188-193 | the thread is given up before the next pick |
| `Signals.HandlersRunInOrder` | kernlib/irhandlers.cpp:12-40 | over every run accepted handlers finish in order, at most sixteen are queued, each begins at its own address, and with the queue empty the thread goes on where it was interrupted |
| `Signals.IssueQueues` | kernlib/irhandlers.cpp:12-23 | a signal in ring zero is queued last exactly when it has a handler and a slot is to spare, and nothing else changes |
| `Signals.ReturnMovesUp` | kernlib/irhandlers.cpp:33-40 | a handler that returns is finished, the others move up, and the exit goes to the first of them or on where the thread was interrupted |
| `Signals.InterruptIsInvisible` | runtime/sched/asm.S:24-97 | an interrupt without a signal brings the code back to its instruction and registers |
| `Signals.IssuedRunsNext` | kernlib/irhandlers.cpp:12-23 | a signal that arrives with none queued runs its handler at the exit |
| `Signals.ResumesWhereInterrupted` | runtime/sched/asm.S:59-98 | however handlers are issued, interrupted and finished, the exit that finds the queue empty resumes at the interrupted address, with the interrupted registers exactly when the code that entered last, read off the events, had those |
| `Signals.SavedAtLastEntry` | runtime/sched/asm.S:24-57 | over every run the saved registers are those user code had at the last entry |
| `Signals.HandlerLeavesItsRegisters` | runtime/sched/asm.S:59-98 | a run in which the thread goes on with a register its handler changed |
| `Signals.OverflowKills` | kernlib/irhandlers.cpp:20-22 | a full queue raises SIGKILL and changes nothing else, and nothing else raises it |
| `Signals.IssueAsWrittenFills` | kernlib/irhandlers.cpp:16-19 | without a break issuing is right exactly with at most one slot to spare |
| `Signals.ReturnAsWrittenShifts` | kernlib/irhandlers.cpp:36-38 | handler return as written is right exactly when the queue was not full |
| `Signals.FullNeverDrains` | kernlib/irhandlers.cpp:36-38 | a queue once full never drains |
| `Signals.ThreadState.constructor` | runtime/sched/core.h:42-43 | a thread starts without overrides |
| `Signals.ThreadState.StoreState` | runtime/sched/asm.S:30-38 | the interrupted address goes to the first override if there is one, else to the saved instruction pointer |
| `Signals.ThreadState.LeaveRingzero` | runtime/sched/asm.S:70-97 | resumes at the first override if there is one, with the registers saved |
| `Signals.ThreadState.SignalIssuer` | kernlib/irhandlers.cpp:12-23 | queues the handler last, or kills when all sixteen slots are taken |
| `Signals.ThreadState.SignalHandlerReturn` | kernlib/irhandlers.cpp:33-40 | drops the first of the queue |
| `Modules.Kings.Modrm` | runtime/syscalls/SYS_MODRM.cpp:15-24 | releases the driver and every driver and quirk below it, nothing else, with the counts lower by just those; it ends |
| `Modules.Kings.Quirkrm` | runtime/syscalls/SYS_MODRM.cpp:6-14 | the same for a quirk |
| `Modules.Kings.ModrmWrap` | runtime/syscalls/SYS_MODRM.cpp:25-33 | of whatever insertion and removal have made, exactly the part under the driver goes, with the counts; all slots left lead somewhere exactly when the driver was one at the top, and then what is left is again in order |
| `Modules.RemovalKeepsForest` | runtime/syscalls/SYS_MODRM.cpp:15-33 | removing a driver at the top leaves a forest with counts lower by its part |
| `Modules.RemovalDangles` | runtime/syscalls/SYS_MODRM.cpp:15-24 | removal leaves no slot leading nowhere exactly when the driver is one at the top |
| `Modules.InsertKeepsForest` | runtime/syscalls/035_SYS_MODINSERT.cpp:48-61 | a module inserted as a solution keeps the forest one, with it and its problems added |
| `Modules.InsertTopKeepsForest` | runtime/syscalls/035_SYS_MODINSERT.cpp:44-61 | so does a driver at the top |
| `Modules.SubIsRemovable` | runtime/syscalls/SYS_MODRM.cpp:15-24 | any driver or quirk in a forest roots a part that removal can take out |
| `Modules.Kings.InsertDriver` | runtime/syscalls/035_SYS_MODINSERT.cpp:44-62 | adds a driver and its quirks, keeping forest and counts |
| `Modules.Kings.InsertModule` | runtime/syscalls/035_SYS_MODINSERT.cpp:48-62 | adds a module in the first vacant slot of a quirk, keeping forest and counts |
| `Modules.Kings.RecurseModules` | runtime/syscalls/035_SYS_MODINSERT.cpp:12-31 | from a driver down the slots the types name: refused for none and for an odd number of them; what it comes to is a quirk that is there |
| `Modules.DescendFollows` | runtime/syscalls/035_SYS_MODINSERT.cpp:25-31 | what it comes to is at the end of the chain of exactly the slots listed, and nothing where there is no such chain |
| `Modules.PlacedFirst` | runtime/syscalls/035_SYS_MODINSERT.cpp:48-52 | a solution goes to the first vacant slot or a new one, and no other slot changes |
| `Modules.LoadedNodes` | runtime/syscalls/035_SYS_MODINSERT.cpp:44-62 | a new driver has a quirk without solutions for each problem, and no other node changes |
| `Modules.DescendAlternates` | runtime/syscalls/035_SYS_MODINSERT.cpp:25-31 | an odd number of slots leads from a driver to a quirk, an even one to a driver, and to one that is there |
| `Modules.WalkAsWrittenEnds` | runtime/syscalls/SYS_MODRM.cpp:7-12 | the loop as written comes to an end exactly when no slot is vacant |
| `Vectors.AssignVectors` | init/interrupts.cpp:30-48 | every occupied slot gets 64 plus its number times the stride, no vacant one anything |
| `Vectors.SoundUpTo191` | init/interrupts.cpp:47 | the vectors are distinct, at least 64, below the wake vector and the stride nonzero exactly for up to 191 slots |
| `Vectors.DispatchInvertsAssignment` | runtime/sched/sched.cpp:163-168 | for those, division by the stride finds the slot of every vector, and of no other |
| `Vectors.AsWrittenFindsExactly` | runtime/sched/sched.cpp:168 | division by the device count finds every device of any directory, vacant slots or not, exactly when the count is at most the stride and their difference, times the last occupied slot, is below the count, or the only device is in slot 0 |
| `Vectors.AsWrittenFinds` | runtime/sched/sched.cpp:168 | the same for a single device by its slot |
| `Vectors.StrideManyAreFound` | runtime/sched/sched.cpp:168 | as many devices as a stride has vectors are all found, whichever slots they are in |
| `Vectors.LoneDeviceIsMissed` | runtime/sched/sched.cpp:168 | one device in slot 5 of 20 is looked for in slot 45 |
| `Vectors.AsWrittenFor1Or13` | runtime/sched/sched.cpp:168 | with every slot occupied each device is found exactly when there are 1 or 13 |

## Left out

- Paging.RunsKeep: MAP entries, whose frames belong to somebody else, are no owners here; their translation is the subject of PageTree and PageTable.
- Paging.ReleaseKeeps: of the intended release, that frees frames of pages in memory and takes the entry away; room on disk stays used, see SwapRoom.NextOwnsRoom; `mem_free` as written is Moves.ReleaseAsWritten and Accounting.EmptyAll. So too in Paging.RunsKeep and Paging.NextKeeps.
- Paging.RenameKeeps: of the intended move, that keeps a page's mode; as written it is Moves.ParkAsWritten. So too in Paging.ReallocKeeps and Moves.ReallocMoves.
- Paging.LoadReturnsLastStore: the entry of an address is the one block that spans it; that the walk finds it is Translation.WalkFindsEntry. The threshold at which swapping starts is not modelled: any page may be swapped at any time.
- Accounting.RunsAccount: does not model the kernel-wide used_memory that write-back also lowers, because nothing raises it.
- FaultHandlers.Vm.SoftfaultHandler: the FILE case is FileMaps.Mappings.LoadPage; the supervisor check is in PageTable.ProcessTree.CheckRun only.
- FaultHandlers.Vm.HardfaultHandler: is given the partition that the swap number means; the countdown to it is FaultHandlers.FindNumbered.
- FaultHandlers.Vm.SwapProcess: is given the entries to swap out; the scan of the tree for them and the memory threshold that ends it are not modelled.
- FaultHandlers.Vm.MRealloc: what a shorter new run receives is not promised, because the copy then runs past it.
- Pool.Hash.Alloc: a growable pool grows in place when the pointer pool has room; where the pointer pool puts it is not modelled.
- PoolLock.LockedRunsLinearize: occupancy only, the contents are in Pool.Hash and the count in PoolCount; requests are for at least one slot. Taking the lock and growing the pool are one step each; the waiting loop is not modelled.
- PoolLock.UnlockedRunsLinearize: one way only. A free may overlap an operation and still be in order, as when it touches other slots than a scan does.
- FileMaps.Mappings.SysFmap: the maps array always exists, and a range past the end of the file, which the source writes to, is refused.
- FileMaps.Mappings.SysFunmap: is given the descriptor and first page the entry names; a range past the end of the file is refused. The guard before it, as written, refuses every amount of at least a page.
- Vfs.VirtualFs.Mount: the pointer arrays of directories always find room, and `files_number` is a parameter.
- Vfs.VirtualFs.Open: how far into the path the lookup came is not answered, nor are files created.
- Disk.DisksKing.DiskRequest: the driver's thread, its ioctl and the packet's own page; load_partition_table.
- Translation.PagingIsInvisible: of a tree that holds the entries; writing RESERVE entries into the array is not modelled, as mem_map's are.
- PoolCount.CountDrifts: a realloc changes the count once, for both of its halves.
- Scheduler.NextSafe: threads of drivers and of the kernel, thread-local storage, signals to single threads (their check is never called) and the workload stub.
- Signals.HandlersRunInOrder: the return value that a system call puts into the accumulator.
- Modules.Kings.RecurseModules: is given the driver with the name at the head of the list; comparing names, and the processes of drivers, are not modelled.
- Vectors.AssignVectors: the IO APIC's redirection entries and pin masks; the walk over them tests a base address for zero.
- exec, clocks, ACPI, UEFI, PCI and the device drivers: hardware or long setup without further invariants.
- 64-bit wrap-around of counts, sizes and addresses: only the entry's bits and the listener counters have a width.
