# Verified models of the wupper drivers, tools and register-map compiler

A Dafny model of the stateful parts of the wupper software, and proofs about it. `dafny verify dfyconfig.toml` checks everything.

Where the original changes things step by step, the model has two layers: a specification on values (`...Spec`, functions) and the algorithm as the original runs it (classes, arrays, linked nodes, loops), proved to compute the specified operation. What the original promises is then proved about the specification, over every run.

**Contiguous memory (`cmem_rcc.c`).** `Ranges` and `PoolSpec` give the first-fit allocator on address-sorted free lists and its canonical-form theorems; `PagePool` is the same allocator on heap nodes that are linked, split, joined and freed. `BufferSpec` and `BufferRuns` put the table of 1000 buffers, the pools of all NUMA zones and the ownership flags of the open files on top, with safety over whole runs; `BufferOutcomes` says what each call gives its caller, in bytes, entries and flags, and `BufferTable` is the imperative table. `ChunkPool` builds a pool from scattered chunks; `ChunkSearch` says which windows it looks at, and when.

**Resource locks (`wupper.c`).** `LockSpec` relates the lock words and the pid and tag tables to a ledger of live acquisitions, `LockRuns` covers whole runs, `LockManager` has the ioctls on arrays, and `CardObject` the object through which a program opens a card, closes it and asks for the locks of others. `ProbeOrder` is the numbering of probed devices.

**Recursive mutex (`GlobalDebugSettings.h`).** `RecursiveMutex` has one step per read, write or mutex operation, for any number of threads, under sequential consistency, and states what a whole call does among the actions of other threads.

**Registers (`WupperCard.cpp`, `wupper-config.cpp`).** `Words` has bit operations on numbers, `BitFields` field access, with `FieldOptions` on what reading and writing by name does, `ConfigText` printing and parsing of settings, with `NumberText` on every notation of a number, `ConfigStore` the store and load round trip, with `ConfigRuns` on its single lines, and `ConfigTool` the methods that change registers and line buffers in place.

**DMA ring (`WupperCard.cpp`, `wupper-dma-stat.cpp`).** `DmaRing` has firmware and software moves, the cycle bits and the reported fill level; `DmaChannel` has the register writes and the choice of the packet size. The firmware side follows `firmware/sources/pcie`.

**Register-map compiler (`cli.py`, `filter.py`, `classes.py`).** `FieldRanges` checks bit ranges, `RegisterTree` assigns addresses, `TreeGenerator` does so in loops with shared lists, `SequenceList` and `StructOrder` order the generated structs, and `MapDiff` compares two maps. `RegisterPlaces` describes the generated tree by itself and `DiffRows` what a comparison shows of each name.

## Where the code does not do what it is meant to do

Each of these is an exact condition or a concrete counterexample in the project.

- A request for no pages breaks the pool (`PoolSpec.AllocKeepsPoolIff`, `PoolSpec.ZeroPagesAliases`); one of 8 TiB or more is a negative count and is handed the first free range, whatever its size (`PoolSpec.NegativeCountTakesRange`, `BufferOutcomes.HugeRequestTakesRange`); a GFPBPA request that records another NUMA id is later freed in the wrong zone. The exact condition is `BufferSpec.GrantKeepsIff`, for the pool alone `PoolSpec.SignedKeepsPoolIff`.
- FREE clears only the caller's ownership flag and freelock clears nobody's (`BufferRuns.FreeKeepsOwnershipIff`, `BufferRuns.FreeLockKeepsOwnershipIff`).
- A SETCARD without lock bits stores a tag that is not issued yet (`LockSpec.QueryFileReleasesNextLocker`); clearlock restarts the tags at 0, the tag of a fresh file (`LockSpec.ClearLockReusesZero`), and is harmless if and only if no file is attached (`LockRuns.ClearSoundIff`). A second locking SETCARD on a file, and a refused one for another card, orphan the bits that the file holds (`LockSpec.SecondLockOrphansFirst`, `LockSpec.RefusedAttachOrphansLock`). `LockRuns.AttachSoundIff` gives the exact condition under which a SETCARD keeps later closes exact.
- The lock mask of a closed card object still has the object's old bits taken out (`CardObject.WupperCard.GetLockMask`).
- Loading stored settings saturates values of 2^63 and above, because they are parsed as signed (`ConfigStore.StoreLoadIff`).
- The firmware flips the software cycle bit only when the pointer drops by more than `PC_PTR_GAP`, and compares pointers for equality only, so advancing works exactly when it is by whole transfer units and a wrapping advance is short of the buffer size by more than that gap (`DmaRing.ConsumeIff`, `DmaRing.FillIff`, `DmaRing.MisalignedOverruns`). A packet size from the caller that does not divide the buffer makes the firmware run past its end (`DmaChannel.DmaChannel.FromHost`, `DmaRing.RunsPastEnd`, `DmaRing.FilledRunsPastEnd`).
- The firmware flips its cycle bit as soon as its next address is the end of the buffer, one unit before it wraps (`firmware/sources/pcie/dma_read_write.vhd:418-433`). At that position the waiting rule is the wrong way round: a to-host ring that is read empty there, and a from-host ring that is filled there, are stuck for ever (`DmaRing.ToHostStuckIff`, `DmaRing.FromHostStuckIff`, with runs in `DmaRing.ToHostStalls` and `DmaRing.FromHostStalls`).
- `wupper-dma-stat` reads equal pointers with equal cycle bits as full; in the firmware (`firmware/sources/pcie/dma_control.vhd:716-727`) and in `documentation/design.tex:85` that is the empty state of a to-host buffer, except while a flip is pending. The exact conditions are `DmaRing.ToHostPercentIff` and `DmaRing.FromHostPercentIff`. The comment at `software/wupper_tools/src/WupperCard.cpp:611` expects the two pointer writes to make the bits differ; the firmware ignores them while the channel is disabled, and the ring starts correctly with equal bits (`DmaChannel.DmaChannel.ToHost`).
- A complete window of chunks can be missed, since scans are skipped (`ChunkPool.WindowMissed`, with the exact condition in `ChunkPool.CompletionSeenIff`); a pool of a single chunk is never found, and near the end of the chunk table the scan leaves the table (`ChunkPool.ScanOverrunsIff`, `ChunkPool.LastChunkOverruns`).
- A device that is refused gives its index back, so that under swapping two later devices can get one number (`ProbeOrder.RefusedDeviceRepeatsNumber`).
- The compiler accepts bit ranges that overlap: it compares low ends only (`FieldRanges.AcceptedAllDisjointIff`, `FieldRanges.OverlapAccepted`).
- A field whose value alone has changed gets no mark in the comparison (`MapDiff.UnmarkedIff`).
- A map compared with itself shows changes if a register has two bit fields of one name that differ (`MapDiff.SelfDiffEmptyIff`).

## Assumptions

- The allocator is one atomic step although GET calls it outside the spinlock (`software/drivers/src/cmem_rcc.c:596-607`); the same goes for freelock, which takes no lock, and for the three calls in which a closed card object asks for the locks of a card: a SETCARD of another process between them can get the tag that the question's close then releases.
- Each kmalloc and page allocation succeeds or fails freely; the outcomes are parameters. A null pointer is `None`. Pool addresses are kernel addresses, so that no address computation passes 0 or 2^64, regions are smaller than 8 TiB, and alignments are below 2^19 pages.
- Buffer handles are below the table size and NUMA ids and slots in RELEASELOCK are in range: the source does not check them.
- Lock words are sets of bit positions, process ids are positive, and the tag of a fresh file is 0. The tag counter is a 32-bit counter; run theorems stop short of its wrap.
- Registers behave as plain memory between accesses, names contain no NUL, and `SLEEP` is no field name.
- The firmware's clock cycles are steps of three kinds, flip, move and wait; the delays that it inserts around a flip are taken to keep a transfer from overtaking it.
- Configurations are acyclic, given by a ranking of the groups.

## Model

| member | source | states |
|---|---|---|
| `PoolSpec.RunKeepsPool` | software/drivers/src/cmem_rcc.c:1242-1472 | After any sequence of allocations (one page or more, any alignment, any kmalloc outcome) and frees, the free list is strictly sorted and fully coalesced, and free and used ranges are disjoint and tile the region exactly |
| `PoolSpec.BlocksDisjoint` | software/drivers/src/cmem_rcc.c:1402-1407 | In a well-formed pool no two used blocks overlap, and no used block overlaps a free range |
| `PoolSpec.FreeListDetermined` | software/drivers/src/cmem_rcc.c:1446-1471 | Two well-formed pools of one region with the same used blocks, in whatever order, have the same free list |
| `PoolSpec.AllocGrants` | software/drivers/src/cmem_rcc.c:1335-1407 | A granted block is aligned, was entirely free before, and is the new head of the used list |
| `PoolSpec.AllocKeepsPool` | software/drivers/src/cmem_rcc.c:1295-1408 | An allocation of at least one page keeps the pool well formed, whichever node requests kmalloc refuses |
| `PoolSpec.AllocKeepsPoolIff` | software/drivers/src/cmem_rcc.c:1341-1407 | A successful allocation with a count that is not negative keeps the pool well formed if and only if the count is at least 1 |
| `PoolSpec.SignedKeepsPoolIff` | software/drivers/src/cmem_rcc.c:1295-1407 | For any int as the count, with free ranges that start on a page, a successful allocation keeps the pool well formed if and only if the count is not 0 |
| `PoolSpec.ZeroPagesAliases` | software/drivers/src/cmem_rcc.c:1341-1407 | In any pool whose first free range starts on a page and has one, a request for no pages is followed by one that is handed the same address while both blocks are live |
| `PoolSpec.NegativeCountTakesRange` | software/drivers/src/cmem_rcc.c:1341-1400 | A negative page count passes the fit test at the first free range and is given that whole range, however small, with no node requested |
| `PoolSpec.FirstFitComplete` | software/drivers/src/cmem_rcc.c:1335-1377 | Allocation fails only if no aligned free run of that length exists or a needed node is refused, and otherwise takes the lowest aligned address at which the run is free |
| `PoolSpec.AllocLowestOrNone` | software/drivers/src/cmem_rcc.c:1335-1407 | With both nodes granted, the result is null if and only if there is no aligned free run; otherwise it is the lowest such address |
| `PoolSpec.AllocOutcome` | software/drivers/src/cmem_rcc.c:1335-1407 | For one page or more, any alignment and any kmalloc outcome: null without an aligned free run; otherwise the lowest one, unless a refused node is needed because the memory right behind or right before the run is free |
| `PoolSpec.NullChangesNothing` | software/drivers/src/cmem_rcc.c:1347-1377 | Every null return leaves both lists as they were |
| `PoolSpec.ReleaseCanonical` | software/drivers/src/cmem_rcc.c:1446-1471 | Inserting a block that overlaps no free range and joining it with its neighbours leaves the free list canonical |
| `PoolSpec.ReleaseCover` | software/drivers/src/cmem_rcc.c:1446-1471 | Releasing a block adds exactly its addresses to the free ones |
| `PoolSpec.FreeKeepsPool` | software/drivers/src/cmem_rcc.c:1412-1472 | Freeing keeps the pool well formed; a used base gives up exactly the one block that starts there, whose addresses become free; any other base changes nothing |
| `PoolSpec.AllocThenFree` | software/drivers/src/cmem_rcc.c:1335-1472 | Freeing the block an allocation has just returned restores both lists exactly |
| `PoolSpec.FreeAllRestores` | software/drivers/src/cmem_rcc.c:1412-1472 | Freeing all live blocks in any order ends where the zone started: its single initial range, or nothing for a zone without a pool |
| `Ranges.CanonicalUnique` | software/drivers/src/cmem_rcc.c:1446-1471 | Sorted, coalesced lists that cover the same addresses are equal: the canonical form is unique |
| `Ranges.RunInOneRange` | software/drivers/src/cmem_rcc.c:1335-1345 | A run of free addresses lies inside a single range of a coalesced list, so looking at one range at a time misses nothing |
| `PagePool.PagePool.constructor` | software/drivers/src/cmem_rcc.c:1256-1290 | A zone with a pool starts with one heap node that describes its region, a zone without one with two empty lists |
| `PagePool.PagePool.AllocPages` | software/drivers/src/cmem_rcc.c:1295-1408 | The pointer code, on linked heap nodes, computes exactly the specified allocation; every live node is in exactly one of the two lists, and no freed node is in either |
| `PagePool.PagePool.FreePages` | software/drivers/src/cmem_rcc.c:1412-1472 | The pointer code of freeing computes exactly the specified release, with the nodes of joined ranges kfreed and unreachable |
| `PagePool.PagePool.KmallocNodes` | software/drivers/src/cmem_rcc.c:1357-1377 | The nodes are requested exactly when a split needs them; a refused second node leads to the first being kfreed, so none leaks |
| `PagePool.PagePool.CarveNodes` | software/drivers/src/cmem_rcc.c:1379-1407 | The three-way split in place equals the specified carving |
| `PagePool.PagePool.ReleaseNode` | software/drivers/src/cmem_rcc.c:1446-1471 | Linking a node in by address and joining it with both neighbours equals the specified release |
| `PagePool.RangeList.FindFit` | software/drivers/src/cmem_rcc.c:1336-1345 | The walk ends at the first range that can hold the aligned request, or at the end |
| `PagePool.RangeList.FindInsertionPoint` | software/drivers/src/cmem_rcc.c:1449-1451 | The walk yields the position of the first range not below the base together with its predecessor |
| `PagePool.RangeList.Unlink` | software/drivers/src/cmem_rcc.c:1444 | Storing through the predecessor's pointer removes exactly one node and leaves all other nodes of the list in order |
| `PagePool.RangeList.Insert` | software/drivers/src/cmem_rcc.c:1453-1454 | The node is linked at the given position and the rest of the list is untouched |
| `PagePool.RangeList.MergeNext` | software/drivers/src/cmem_rcc.c:1458-1464 | A successor that touches is swallowed and cut out; one that does not touch stays |
| `BufferSpec.GrantKeepsIff` | software/drivers/src/cmem_rcc.c:596-658 | A granted pool request keeps table and pools in agreement if and only if its page count is at least 1 and not negative as an int, and the recorded NUMA id is the zone it was taken from |
| `BufferSpec.GetKeeps` | software/drivers/src/cmem_rcc.c:476-658 | GET keeps used table entries and used blocks in one-to-one correspondence in every outcome, including a full table, a refused request and an undefined type |
| `BufferSpec.PageCountIsCeiling` | software/drivers/src/cmem_rcc.c:598 | The page count of any 64-bit size is the number of pages that hold the bytes, in 32 bits |
| `BufferOutcomes.PoolGrant` | software/drivers/src/cmem_rcc.c:596-658 | A granted request of type 4 or 6 gives the first unused slot a block of at least the bytes asked for and less than a page more, at the lowest page of the right zone from which on so many bytes were free; exactly these bytes stop being free, the caller owns the slot, it is unlocked, and nothing else changes |
| `BufferOutcomes.PoolGrantIff` | software/drivers/src/cmem_rcc.c:596-626 | Once a slot is there, such a request succeeds if and only if the zone has that many free pages in a row and kmalloc grants the nodes that its neighbours make necessary; the only other answer is the pool error |
| `BufferOutcomes.HugeRequestTakesRange` | software/drivers/src/cmem_rcc.c:598-606 | A request for 2^31 pages or more is granted the first free range of the zone, however small, and the slot records the pages asked for |
| `BufferOutcomes.OverflowIff` | software/drivers/src/cmem_rcc.c:494-518 | GET reports a full table if and only if every slot is used, and then changes nothing |
| `BufferOutcomes.FailedGet` | software/drivers/src/cmem_rcc.c:519-626 | A GET that fails takes no memory, marks no slot as used and leaves no flag behind |
| `BufferOutcomes.OtherTypes` | software/drivers/src/cmem_rcc.c:519-652 | Types 1 and 5 succeed or fail as the kernel page allocator does; any undefined type takes a slot without memory and reports success |
| `BufferSpec.DropKeeps` | software/drivers/src/cmem_rcc.c:700-736 | Giving a slot back removes exactly its block from its zone |
| `BufferOutcomes.FreeOutcome` | software/drivers/src/cmem_rcc.c:680-742 | FREE refuses exactly an unused handle; otherwise the entry is vacant and unlocked, the flag is gone, and no other entry or flag changes |
| `BufferOutcomes.FreeReturnsBlock` | software/drivers/src/cmem_rcc.c:700-736 | FREE of a pool buffer takes exactly its block off its zone's used list and makes exactly its addresses free; other zones stay |
| `BufferSpec.CloseKeeps` | software/drivers/src/cmem_rcc.c:415-453 | The closing loop keeps table and pools in agreement |
| `BufferSpec.FreeLockKeeps` | software/drivers/src/cmem_rcc.c:1076-1112 | The freelock loop keeps table and pools in agreement |
| `BufferSpec.HandleInRegion` | software/drivers/src/cmem_rcc.c:596-658 | The buffer behind a pool handle is not empty and lies in its zone's region |
| `BufferSpec.HandlesDisjoint` | software/drivers/src/cmem_rcc.c:596-658 | Buffers behind two live pool handles never overlap, in one zone or across zones |
| `BufferRuns.LoadedConsistent` | software/drivers/src/cmem_rcc.c:231-240 | The table and the pools agree when the driver has been loaded, with a pool in any of the zones |
| `BufferRuns.RunConsistent` | software/drivers/src/cmem_rcc.c:401-792 | Over every run of open, GET, FREE, LOCK, UNLOCK, close and freelock, pool entries and used blocks stay in one-to-one correspondence |
| `BufferRuns.RunHandlesDisjoint` | software/drivers/src/cmem_rcc.c:401-792 | From a freshly loaded driver, over every such run, no two live pool buffers ever overlap |
| `BufferRuns.CloseReclaims` | software/drivers/src/cmem_rcc.c:416-452 | Closing a file clears exactly its unlocked entries, and afterwards the used lists hold exactly the blocks of the entries that are left; locked buffers and other files' buffers stay |
| `BufferOutcomes.CloseOutcome` | software/drivers/src/cmem_rcc.c:415-453 | After a close an entry is vacant if the file had flagged it and it was not locked, and as it was otherwise |
| `BufferOutcomes.FreeLockOutcome` | software/drivers/src/cmem_rcc.c:1076-1112 | freelock makes exactly the used and locked entries vacant; their lock marks stay set |
| `BufferOutcomes.LockDecidesClose` | software/drivers/src/cmem_rcc.c:744-792 | LOCK and UNLOCK refuse exactly an unused handle; a locked buffer survives the close of its owner unchanged, an unlocked one does not |
| `BufferOutcomes.FreshDoesNotSurvive` | software/drivers/src/cmem_rcc.c:645-657 | A buffer that has just been obtained is gone after the close of its file, whatever lock mark its slot had before |
| `BufferRuns.FreeKeepsOwnershipIff` | software/drivers/src/cmem_rcc.c:691-738 | FREE keeps single ownership if and only if no other open file has flagged the handle |
| `BufferRuns.FreeLockKeepsOwnershipIff` | software/drivers/src/cmem_rcc.c:1080-1110 | freelock keeps single ownership if and only if no locked buffer belongs to an open file |
| `BufferRuns.RunOwned` | software/drivers/src/cmem_rcc.c:494-509 | Over runs that respect those two conditions every buffer is flagged by at most one open file |
| `BufferTable.BufferTable.constructor` | software/drivers/src/cmem_rcc.c:231-240 | The table starts with all entries unused above freshly initialised pools |
| `BufferTable.BufferTable.GetBuffer` | software/drivers/src/cmem_rcc.c:476-678 | GET on the array of slots and the pools' heap lists yields the specified table, pools, ownership flags and result, which BufferOutcomes.PoolGrant, PoolGrantIff, OtherTypes, FailedGet and OverflowIff describe for every request |
| `BufferTable.BufferTable.FreeBuffer` | software/drivers/src/cmem_rcc.c:680-742 | FREE in place yields the state of BufferOutcomes.FreeOutcome and FreeReturnsBlock; an unused handle is refused and nothing changes |
| `BufferTable.BufferTable.SetBufferLock` | software/drivers/src/cmem_rcc.c:744-792 | LOCK and UNLOCK change only the lock mark of a used slot |
| `BufferTable.BufferTable.CloseFile` | software/drivers/src/cmem_rcc.c:402-453 | The closing loop in place yields the state of BufferOutcomes.CloseOutcome |
| `BufferTable.BufferTable.FreeLockedBuffers` | software/drivers/src/cmem_rcc.c:1076-1112 | The freelock loop in place yields the state of BufferOutcomes.FreeLockOutcome |
| `BufferTable.PoolBank.Alloc` | software/drivers/src/cmem_rcc.c:596-608 | Allocating from one zone changes that zone's pool only, as specified |
| `BufferTable.PoolBank.Free` | software/drivers/src/cmem_rcc.c:1412-1472 | Freeing in one zone changes that zone's pool only, as specified |
| `LockSpec.MasksDisjoint` | software/drivers/src/wupper.c:1314-1335 | The masks of two live acquisitions on one card share no bit |
| `LockSpec.LocksAreUnion` | software/drivers/src/wupper.c:1323-1335 | The lock word of a card is the union of the live masks, and a bit is set if and only if its pid entry is nonzero |
| `LockSpec.SetCardAgrees` | software/drivers/src/wupper.c:1290-1351 | SETCARD creates exactly one acquisition under the counter's tag when it grants bits, and none otherwise |
| `LockSpec.ConflictIff` | software/drivers/src/wupper.c:1313-1319 | A locking SETCARD is refused if and only if it asks for a bit that a live acquisition holds, and the word it is told is the set of bits that live acquisitions hold on the card |
| `LockSpec.SetCardOutcome` | software/drivers/src/wupper.c:1290-1351 | Tables, counter and file after each outcome of SETCARD: refused, attached without bits, in conflict, granted |
| `LockSpec.ReleaseAgrees` | software/drivers/src/wupper.c:1416-1430 | RELEASELOCK ends the acquisition with that tag, pid and card, and nothing else |
| `LockSpec.ReleaseTwice` | software/drivers/src/wupper.c:1416-1430 | A second identical RELEASELOCK changes nothing |
| `LockSpec.CloseLeavesNoTag` | software/drivers/src/wupper.c:682-700 | After a close no bit of the card carries the file's tag |
| `LockSpec.CloseAgrees` | software/drivers/src/wupper.c:682-700 | Closing a file ends exactly its own acquisitions when its tag singles them out |
| `LockSpec.CloseExactIff` | software/drivers/src/wupper.c:682-700 | Closing ends exactly the file's own acquisitions if and only if its stored tag singles them out |
| `LockSpec.SecondLockOrphansFirst` | software/drivers/src/wupper.c:1336-1340 | A concrete run: after a second locking SETCARD on one file its close leaves the bit of the first one locked |
| `LockSpec.RefusedAttachOrphansLock` | software/drivers/src/wupper.c:1314-1353 | A concrete run: a refused SETCARD for another card moves the file there, and its close leaves the bit on the first card locked |
| `LockSpec.CloseChangesIff` | software/drivers/src/wupper.c:682-700 | Closing a file changes the tables if and only if an acquisition on its card is live under its tag, whose bits are then free |
| `LockSpec.ReleaseAndCloseIff` | software/wupper_tools/src/WupperCard.cpp:349-362 | RELEASELOCK and close together change nothing if and only if neither meets a live acquisition |
| `LockSpec.XorIsOthers` | software/wupper_tools/src/WupperCard.cpp:401-418 | While a card is open the XOR of `get_lock_mask` yields exactly the bits that others hold |
| `LockSpec.QueryFileReleasesNextLocker` | software/drivers/src/wupper.c:1344-1351 | A concrete run: a file attached with an empty mask stores a tag not yet issued, and its close frees the bit of the next locker |
| `LockSpec.ClearLockReusesZero` | software/drivers/src/wupper.c:825-843 | A concrete run: after clearlock the next acquisition has tag 0, and a file whose own attach was refused frees that bit by closing |
| `LockRuns.AttachSoundIff` | software/drivers/src/wupper.c:1279-1371 | A SETCARD keeps every file's tag its own if and only if it is invalid, or is granted bits on a file that holds none, or is refused on a file that stays on its card or holds none and has a tag not in use on the new card |
| `LockRuns.ClearSoundIff` | software/drivers/src/wupper.c:825-843 | clearlock keeps every file's tag its own if and only if no file is attached to a card |
| `LockRuns.SoundCloseExact` | software/drivers/src/wupper.c:665-705 | While every file's tag is its own, every close ends exactly the file's own acquisitions and keeps it so |
| `LockRuns.RunExclusive` | software/drivers/src/wupper.c:1279-1431 | Over every run of opens, safe SETCARDs, releases, closes, and clearlocks while no file is attached: live masks are disjoint, the lock word is their union, and bit and pid entry agree |
| `LockRuns.RunSound` | software/drivers/src/wupper.c:1279-1431 | In such runs every file's tag names its own acquisition and no other file's |
| `LockRuns.CloseTouchesOnlyOwn` | software/drivers/src/wupper.c:665-705 | After a close in such a run no other file has lost or gained a bit |
| `LockManager.LockManager.SetCardIoctl` | software/drivers/src/wupper.c:1279-1371 | SETCARD on the global arrays and the file's record yields the specified tables, tag and answer, refusals included |
| `LockManager.LockManager.ReleaseLockIoctl` | software/drivers/src/wupper.c:1407-1431 | The RELEASELOCK loop over the arrays yields the specified tables |
| `LockManager.LockManager.CloseDevice` | software/drivers/src/wupper.c:665-705 | The loop of the device close yields the specified tables; an unattached file changes nothing |
| `LockManager.LockManager.ClearAll` | software/drivers/src/wupper.c:825-843 | clearlock empties all tables and sets the counter to 0 |
| `LockManager.LockManager.GetLockIoctl` | software/drivers/src/wupper.c:1373-1400 | GETLOCK returns the lock word of the card, or refuses an invalid slot |
| `CardObject.WupperCard.Open` | software/wupper_tools/src/WupperCard.cpp:205-257 | Opening succeeds if and only if the card is there and no requested bit is locked; then the object is linked to its one new acquisition; a refused attach leaves the object as it was, and the tables if and only if tag 0 is not in use on the card |
| `CardObject.WupperCard.Close` | software/wupper_tools/src/WupperCard.cpp:324-364 | Closing gives back exactly the object's own acquisition; it changes nothing if and only if neither the object's tag nor its file's is in use on the card |
| `CardObject.WupperCard.GetLockMask` | software/wupper_tools/src/WupperCard.cpp:368-431 | On an open object the answer is exactly what others hold; on a closed one, whose old mask is still subtracted, it is what is held if and only if the card is another one or the mask is empty; the tables stay as they were |
| `RecursiveMutex.StepInv` | software/DFDebug/DFDebug/GlobalDebugSettings.h:41-56 | Every single read, write or mutex operation of lock and unlock keeps the invariant about holder and outsiders |
| `RecursiveMutex.RunSafe` | software/DFDebug/DFDebug/GlobalDebugSettings.h:41-56 | Over every interleaving of any number of threads and any initial owner value: mutual exclusion, the counter is the holder's nesting depth between its calls, a nonzero count means the owner field is the holder, and nobody waits for a mutex he holds |
| `RecursiveMutex.NeverStuck` | software/DFDebug/DFDebug/GlobalDebugSettings.h:41-56 | A thread that cannot move waits for a mutex whose holder is another thread that can |
| `RecursiveMutex.CallEffect` | software/DFDebug/DFDebug/GlobalDebugSettings.h:41-56 | From the action that enters a call to the one that returns, whatever other threads do in between: lock leaves its caller one level deeper and holding the mutex, unlock one level less deep and, at depth 1, with the mutex given up; a call takes at most 7 or 5 actions of its own thread |
| `RecursiveMutex.OthersLeaveAlone` | software/DFDebug/DFDebug/GlobalDebugSettings.h:41-56 | No action of another thread changes a thread's depth, its program point or its hold on the mutex |
| `RecursiveMutex.StepRefines` | software/DFDebug/DFDebug/GlobalDebugSettings.h:41-56 | Every atomic step is a step of the atomic recursive lock: the increment takes effect as lock, the decrement as unlock, all else is invisible; which of them a call contains is RecursiveMutex.CallEffect |
| `BitFields.GetAfterSet` | software/wupper_tools/src/WupperCard.cpp:1197-1213 | What cfg_set_option writes in range is what cfg_get_option reads back |
| `BitFields.GetInRange` | software/wupper_tools/src/WupperCard.cpp:1136 | What is read is within the range that cfg_set_option accepts |
| `BitFields.SetStaysWord` | software/wupper_tools/src/WupperCard.cpp:1209-1211 | Neither the shifted value nor the new register exceeds 64 bits |
| `BitFields.SetFrame` | software/wupper_tools/src/WupperCard.cpp:1209-1211 | Writing a field leaves every bit outside its mask alone |
| `BitFields.GetOther` | software/wupper_tools/src/WupperCard.cpp:1209-1211 | Writing one field does not change what a field with a disjoint mask reads |
| `FieldOptions.FindIff` | software/wupper_tools/src/WupperCard.cpp:1000-1022 | A name finds exactly the field whose name it spells, with letters of either case and '-' for '_' |
| `FieldOptions.GetOutcome` | software/wupper_tools/src/WupperCard.cpp:1116-1156 | Reading a named field gives bits lo to hi of its register, or the error of an unreadable field |
| `FieldOptions.SetOutcome` | software/wupper_tools/src/WupperCard.cpp:1183-1229 | Writing a named field is refused exactly if it is not writable or the value has more bits than the field, each with its own error; otherwise bits lo to hi of its register take the value, nothing else changes, and a readable field reads it back |
| `FieldOptions.NotFoundIff` | software/wupper_tools/src/WupperCard.cpp:1116-1229 | Reading and writing report an unknown name if and only if it spells no field |
| `Words.BitCMask` | software/wuppercodegen/wuppercodegen/filter.py:253-255 | The generated mask has exactly the bits from `lo` to `hi` |
| `ConfigText.ParsePrinted` | software/wupper_tools/src/wupper-config.cpp:127 | Parsing a number printed as 0x and lower-case hexadecimal gives it back, or 2^63 - 1 when it is larger |
| `ConfigText.SplitPrinted` | software/wupper_tools/src/wupper-config.cpp:114-128 | A printed line is cut into exactly its name and its value |
| `ConfigText.LinesOfPrinted` | software/wupper_tools/src/wupper-config.cpp:334 | Reading by lines gives back the printed line and goes on behind it |
| `NumberText.ParsePositive` | software/wupper_tools/src/wupper-config.cpp:127 | A decimal, octal or hexadecimal number of either case, behind white space and with or without a plus sign, is read with its value up to where its digits stop, and as 2^63 - 1 if it is larger |
| `NumberText.ParseNegative` | software/wupper_tools/src/wupper-config.cpp:127 | Behind a minus sign the number is negated in 64-bit two's complement, and taken as -2^63 if it is below that |
| `NumberText.SplitAny` | software/wupper_tools/src/wupper-config.cpp:114-128 | The key ends at the first white space or '=', and the number is what follows the first '=' |
| `NumberText.LinesExact` | software/wupper_tools/src/wupper-config.cpp:334 | Reading by lines cuts any text exactly behind its newlines |
| `ConfigStore.LoadIsCopy` | software/wupper_tools/src/wupper-config.cpp:320-377 | Storing never fails, and loading the stored text reports no error and is the field-by-field copy |
| `ConfigStore.StoreLoadFields` | software/wupper_tools/src/wupper-config.cpp:320-377 | After storing and loading over any other register state every read-write field holds the (saturated) stored value, and every bit outside the read-write masks is unchanged |
| `ConfigStore.StoreLoadIff` | software/wupper_tools/src/wupper-config.cpp:320-377 | The round trip restores every read-write field if and only if every stored value is below 2^63 |
| `ConfigRuns.StoreLines` | software/wupper_tools/src/wupper-config.cpp:353-377 | Storing prints one line per field that can be read and written, in table order, with its value in lower-case hexadecimal |
| `ConfigRuns.LineOutcome` | software/wupper_tools/src/wupper-config.cpp:334-346 | A line sets the field that its key spells to the number behind the '=', whatever white space stands around the key; a sleep setting touches no register |
| `ConfigRuns.LoadStops` | software/wupper_tools/src/wupper-config.cpp:320-349 | The first refused line ends the loading with its error: what the lines before it have written stays, the lines behind it do nothing |
| `ConfigRuns.PointerIff` | software/wupper_tools/src/wupper-config.cpp:334-349 | Loading leaves the line pointer at its buffer if and only if no line that is read starts with white space |
| `ConfigTool.CutKeyValue` | software/wupper_tools/src/wupper-config.cpp:114-128 | Cutting the buffer in place leaves the key as the C string at its start and returns the number, or reports a missing '=' |
| `ConfigTool.WupperCard.CfgBitfield` | software/wupper_tools/src/WupperCard.cpp:1000-1022 | The search loop returns the field of FieldOptions.FindIff, or nothing |
| `ConfigTool.WupperCard.CfgGetOption` | software/wupper_tools/src/WupperCard.cpp:1116-1156 | The value of the named field as FieldOptions.GetOutcome says, or the error for an unknown or unreadable one |
| `ConfigTool.WupperCard.CfgSetOption` | software/wupper_tools/src/WupperCard.cpp:1183-1229 | The register is rewritten in place as FieldOptions.SetOutcome says; unknown, unwritable and out-of-range requests change nothing and report their error |
| `ConfigTool.WupperCard.CmdStore` | software/wupper_tools/src/wupper-config.cpp:353-377 | The loop over the table writes exactly the text of ConfigRuns.StoreLines |
| `ConfigTool.WupperCard.CmdLoad` | software/wupper_tools/src/wupper-config.cpp:320-349 | The loop over the lines leaves exactly the specified registers, including those already written when a line fails, and the line pointer as far from its buffer as specified |
| `ConfigStore.StoredKeepsPointer` | software/wupper_tools/src/wupper-config.cpp:334-347 | Loading a stored text leaves the line pointer at its buffer, so `getline` and `free` get back what they gave |
| `DmaRing.ToHostWaitsIff` | firmware/sources/pcie/dma_read_write.vhd:412-417 | To host, the firmware waits if and only if the ring is full, or, while a flip of its cycle bit is pending, empty |
| `DmaRing.FromHostWaitsIff` | firmware/sources/pcie/dma_read_write.vhd:412-417 | From host, the firmware waits if and only if the ring is empty, or, while a flip of its cycle bit is pending, full |
| `DmaRing.ToHostMove` | firmware/sources/pcie/dma_read_write.vhd:393-433 | To host, the flip of the cycle bit one unit before the end and the move to the next unit keep the invariant and never overrun unread data |
| `DmaRing.FromHostMove` | firmware/sources/pcie/dma_read_write.vhd:393-433 | From host, the flip and the move keep the invariant and never take bytes that were not filled |
| `DmaRing.AdvanceMoves` | software/wupper_tools/src/WupperCard.cpp:754-764 | The pointer after an advance is where the new total says |
| `DmaRing.AdvanceWrites` | software/wupper_tools/src/WupperCard.cpp:754-764 | Pointer and cycle bit after an advance are both right if and only if the advance does not wrap or drops the pointer by more than the gap |
| `DmaRing.ConsumeIff` | software/wupper_tools/src/WupperCard.cpp:754-764 | To host, consuming available bytes keeps the ring in order if and only if they are whole transfer units and the advance does not wrap or is short of the size by more than the gap |
| `DmaRing.FillIff` | software/wupper_tools/src/WupperCard.cpp:754-764 | From host, the same condition for filling free space |
| `DmaRing.MisalignedOverruns` | firmware/sources/pcie/dma_read_write.vhd:396-417 | From any full ring, an advance by part of a unit lets the firmware write a whole unit over unread data, and it does not wait behind it either |
| `DmaRing.RunsPastEnd` | firmware/sources/pcie/dma_read_write.vhd:418-433 | With a transfer unit that does not divide the buffer the firmware never flips, and once it may go on from the last unit that fits, every further move is allowed and leads past the end |
| `DmaRing.FilledRunsPastEnd` | firmware/sources/pcie/dma_read_write.vhd:393-433 | From host this happens as soon as the software has filled, in whole units, what fits and one unit more |
| `DmaRing.ToHostStuckIff` | firmware/sources/pcie/dma_read_write.vhd:412-433 | A to-host ring is stuck for ever if and only if it is empty while a flip is pending |
| `DmaRing.FromHostStuckIff` | firmware/sources/pcie/dma_read_write.vhd:412-433 | A from-host ring is stuck for ever if and only if it is full while a flip is pending |
| `DmaRing.ToHostStalls` | firmware/sources/pcie/dma_read_write.vhd:412-433 | For every ring of two units: write one, flip, read it, and the firmware waits at an empty ring |
| `DmaRing.FromHostStalls` | firmware/sources/pcie/dma_read_write.vhd:412-433 | For every ring of two units: a full ring at which the firmware waits and which is reported all free |
| `DmaRing.RunTracks` | software/wupper_tools/src/WupperCard.cpp:754-764 | In every run of flips, moves and orderly advances, in either direction, each pointer is start plus its total modulo size, the cycle bits count the rounds with the firmware's one ahead while a flip is pending, and pending data never exceeds the buffer |
| `DmaRing.ToHostPercentIff` | software/wupper_tools/src/wupper-dma-stat.cpp:101-127 | To host, the reported percentage is floor(100*unread/size) if and only if the ring is neither empty nor full, or empty while a flip is pending; otherwise empty is reported full and full empty |
| `DmaRing.FromHostPercentIff` | software/wupper_tools/src/wupper-dma-stat.cpp:101-127 | From host, the reported percentage is the free share if and only if the ring is not full while a flip is pending, when it is reported all free |
| `DmaChannel.DivisorOfPow2` | software/wupper_tools/src/WupperCard.cpp:642-646 | A divisor of a power of two is a power of two |
| `DmaChannel.BestTlp` | software/wupper_tools/src/WupperCard.cpp:633-646 | The halving loop ends without dividing by zero, at the greatest common divisor of size and maximum, never below 32 |
| `DmaChannel.TlpInWords` | software/wupper_tools/src/WupperCard.cpp:665 | The chosen packet size is a multiple of four bytes |
| `DmaChannel.DmaChannel.ToHost` | software/wupper_tools/src/WupperCard.cpp:582-618 | A faulty request leaves the channel stopped; otherwise the channel starts in a state that satisfies the ring invariant at zero |
| `DmaChannel.DmaChannel.FromHost` | software/wupper_tools/src/WupperCard.cpp:622-674 | A faulty request leaves the channel stopped; otherwise the ring invariant holds at zero if and only if the packet size in use divides the buffer, which the size chosen by the loop always does and one given by the caller need not |
| `DmaChannel.DmaChannel.AdvancePtr` | software/wupper_tools/src/WupperCard.cpp:754-764 | The register sequence equals the specified advance |
| `DmaChannel.DmaChannel.UnreadPercent` | software/wupper_tools/src/wupper-dma-stat.cpp:101-127 | The branches compute the specified percentage |
| `ProbeOrder.DistinctIffPaired` | software/drivers/src/wupper.c:379-421 | With swapping on, the numbers are distinct if and only if every pair has one first and one second end point, in either order |
| `ProbeOrder.PairsAdjacent` | software/drivers/src/wupper.c:379-421 | Then pair members get adjacent numbers, first end point even, second odd, and all numbers below the count are used |
| `ProbeOrder.SwappedNumber` | software/drivers/src/wupper.c:393-419 | With swapping on, a number is even for a first and odd for a second end point and stays within the pair |
| `ProbeOrder.UnswappedNumber` | software/drivers/src/wupper.c:379-392 | Without swapping, devices are numbered in the order of probing |
| `ProbeOrder.RefusedDeviceRepeatsNumber` | software/drivers/src/wupper.c:427-444 | A concrete sequence with a refused second end point after which two devices have number 0 |
| `ProbeOrder.Prober.Probe` | software/drivers/src/wupper.c:379-453 | One probe: who decides about swapping, the assigned number, and what happens to the index when the device is refused |
| `ProbeOrder.Prober.ProbeAll` | software/drivers/src/wupper.c:379-453 | Probing any sequence of devices, some refused, assigns the specified numbers to those that can be enabled, up to the last card |
| `ChunkPool.Assemble` | software/drivers/src/cmem_rcc.c:1539-1692 | A reported block means all its chunks were obtained; on success and on exhaustion each obtained chunk is kept or returned, never both; what is returned on every other exit is stated too |
| `ChunkPool.SearchSound` | software/drivers/src/cmem_rcc.c:1539-1642 | Whatever the answers, a reported block is complete, in the table, of at least two chunks, and starts below the 32-bit limit when that is asked for; each other end has its cause in the last answer, or in the answers or the table running out |
| `ChunkPool.CompletionSeenIff` | software/drivers/src/cmem_rcc.c:1585-1639 | When a chunk completes a window that starts below the limit, if there is one, a block is found there and then if and only if no scan is being skipped |
| `ChunkSearch.ScanTurn` | software/drivers/src/cmem_rcc.c:1570-1631 | What a scan leads to: the lowest complete window among those from the first that holds the chunk up to the upper limit; without one, the end of the table if a window reaches past it, and otherwise the next chunk |
| `ChunkSearch.NextScan` | software/drivers/src/cmem_rcc.c:1603-1639 | After a scan with best count b, exactly required - b - 1 chunks are taken without a scan and the next one is scanned again |
| `ChunkSearch.BestIsMaximum` | software/drivers/src/cmem_rcc.c:1606-1627 | The best count is the largest number of chunks seen in any window scanned so far |
| `ChunkPool.WindowMissed` | software/drivers/src/cmem_rcc.c:1603-1639 | A concrete run in which all chunks of a window are obtained and the search still ends with nothing |
| `ChunkPool.Collect` | software/drivers/src/cmem_rcc.c:1539-1642 | The allocation loop over the table yields the specified search, whose turns ChunkSearch.ScanTurn and NextScan describe, and marks exactly the chunks obtained |
| `ChunkPool.ScanWindows` | software/drivers/src/cmem_rcc.c:1606-1627 | The scan loops yield the specified scan: the first complete window, a window that leaves the table, or the best count |
| `ChunkPool.ScanFinds` | software/drivers/src/cmem_rcc.c:1606-1627 | A scan whose interval holds a complete window ends with that window or an earlier one |
| `ChunkPool.ScanOverrunsIff` | software/drivers/src/cmem_rcc.c:1585-1612 | A scan leaves the table if and only if its interval reaches that far and holds no complete window |
| `ChunkPool.LastChunkOverruns` | software/drivers/src/cmem_rcc.c:1585-1612 | A concrete run: the last chunk of the table, obtained first, sends the scan out of the table |
| `ChunkPool.ReturnOthers` | software/drivers/src/cmem_rcc.c:1662-1671 | Exactly the marked chunks outside the kept window are returned, each once, in ascending order |
| `ChunkPool.CountFull` | software/drivers/src/cmem_rcc.c:1610-1614 | The count of a window is its length if and only if all its chunks have been obtained |
| `ChunkPool.KeptIsThePool` | software/drivers/src/cmem_rcc.c:1260-1272 | The pool initialised over the kept chunks covers each of their addresses once and nothing else |
| `ChunkPool.ZonesApart` | software/drivers/src/cmem_rcc.c:1487-1692 | Zones that keep different chunks have disjoint pools |
| `ChunkPool.KeptIsOneRegion` | software/drivers/src/cmem_rcc.c:1679-1690 | The kept chunks are exactly the addresses of one region that starts at the first chunk, the pool that is initialised later |
| `RegisterTree.NodeLaid` | software/wuppercodegen/wuppercodegen/cli.py:146-192 | If no offset goes back, registers do not overlap and lie in order between the start and the returned address; with positive steps their addresses strictly increase |
| `RegisterPlaces.TreeIff` | software/wuppercodegen/wuppercodegen/cli.py:146-192 | The result is exactly the tree that the configuration describes: every group node repeats its entries number times; in every pass an entry with an offset stands at that distance from its group, any other where the entry before it ended, the very first behind the group's offset; the returned address is where the last one ended |
| `RegisterPlaces.GeneratesIff` | software/wuppercodegen/wuppercodegen/cli.py:146-150 | Generation succeeds if and only if every group that is reached by references is defined, and otherwise names one that is reached and missing |
| `RegisterPlaces.OffsetExample` | software/wuppercodegen/wuppercodegen/cli.py:180-190 | A register with an offset behind another one: its address counts from the group |
| `RegisterTree.RegistersExact` | software/wuppercodegen/wuppercodegen/cli.py:126-128 | The list of registers has the registers of the tree, all of them and nothing else |
| `RegisterTree.NodeSize` | software/wuppercodegen/wuppercodegen/classes.py:235-253 | With default steps and no offsets the returned address minus the start is the size of the tree |
| `RegisterTree.SizeCounts` | software/wuppercodegen/wuppercodegen/classes.py:235-253 | The size that the classes report for a tree is 16 bytes for each of its registers |
| `TreeGenerator.Generator.GenerateNode` | software/wuppercodegen/wuppercodegen/cli.py:146-192 | The recursive loops end for every acyclic configuration, return the tree and address of RegisterPlaces.TreeIff, and append exactly the tree's registers to the shared list; a missing group is reported |
| `TreeGenerator.Generator.GeneratePass` | software/wuppercodegen/wuppercodegen/cli.py:170-190 | One pass over the entries places each entry by its offset from the group or behind the previous one, as RegisterPlaces.TreeIff spells out, and appends its registers |
| `FieldRanges.GenerateBitfields` | software/wuppercodegen/wuppercodegen/cli.py:77-115 | The loop accepts a list if and only if every range is the right way round and the low ends strictly decrease below 256; otherwise it names the first offending field and which of the two rules it breaks |
| `FieldRanges.SingleAcceptedIff` | software/wuppercodegen/wuppercodegen/cli.py:84-107 | A field alone is accepted exactly if its ends are the right way round and it starts below bit 256 |
| `FieldRanges.RangeMask` | software/wuppercodegen/wuppercodegen/filter.py:253-255 | The generated mask has exactly the bits of the range: one bit, all from low to high, or none for any |
| `FieldRanges.AcceptedDisjointIff` | software/wuppercodegen/wuppercodegen/filter.py:253-255 | Two accepted fields have disjoint masks if and only if the later one ends below the earlier one |
| `FieldRanges.AcceptedAllDisjointIff` | software/wuppercodegen/wuppercodegen/cli.py:84-107 | All masks of an accepted register are disjoint if and only if each range ends below the low ends before it, which the check does not ask for |
| `FieldRanges.OverlapAccepted` | software/wuppercodegen/wuppercodegen/cli.py:97-107 | A concrete accepted pair of ranges whose masks overlap |
| `SequenceList.NestedAfterStruct` | software/wuppercodegen/wuppercodegen/filter.py:381-397 | In the emitted list every reference to a nested sequence stands behind the struct of that name |
| `StructOrder.StructsBackwards` | software/wuppercodegen/wuppercodegen/filter.py:379-397 | Of two structs the one whose name has its last place further behind in the walk over the tree is listed first |
| `SequenceList.OneStructPerName` | software/wuppercodegen/wuppercodegen/filter.py:379-396 | The names with a struct in the emitted list are exactly the names of the tree's sequences, and each struct stands at one position |
| `RegisterPlaces.StructIff` | software/wuppercodegen/wuppercodegen/filter.py:369-397 | The groups that get a struct are exactly those that the configuration reaches with a number other than 1, each one struct |
| `RegisterPlaces.ListableIff` | software/wuppercodegen/wuppercodegen/filter.py:385-387 | A generated tree can be listed, without a division by zero, if and only if no group that is reached has number 0 |
| `SequenceList.StructFollowsOneCopy` | software/wuppercodegen/wuppercodegen/filter.py:385-396 | In the list emitted for a generated tree every struct is directly preceded by exactly one copy of its own group's entries, in order, and nothing else up to the struct before |
| `RegisterPlaces.StructBody` | software/wuppercodegen/wuppercodegen/filter.py:385-396 | The items right before a struct are, entry by entry, what its group's entries stand for: registers and single groups themselves, repeated groups as references with their count; before them stands another struct or nothing |
| `SequenceList.SequencesGenerated` | software/wuppercodegen/wuppercodegen/cli.py:146-192 | Every sequence inside a generated tree is itself what its group generates at some address |
| `SequenceList.BlockIsOneCopy` | software/wuppercodegen/wuppercodegen/filter.py:385-396 | What is listed for a generated node is one copy of its group's entries: a nested sequence as a reference, anything else itself |
| `SequenceList.ListSequences` | software/wuppercodegen/wuppercodegen/filter.py:369-399 | The loop with its set of names emits exactly the list of RegisterPlaces.StructIff and StructBody |
| `MapDiff.ShownExact` | software/wuppercodegen/wuppercodegen/cli.py:233-334 | A row is displayed if and only if it belongs to a register of one of the maps; DiffRows.ShownByName says which rows these are |
| `DiffRows.ShownByName` | software/wuppercodegen/wuppercodegen/cli.py:233-336 | For maps without repeated names and addresses, and any name: the rows shown are one Added row if only the new map has it, one Removed row if only the old one has, the old and then the new side if both have it and they differ, and none otherwise |
| `DiffRows.DiffersIff` | software/wuppercodegen/wuppercodegen/cli.py:236-287 | Two registers differ exactly if address or endpoints do, a field is not equal to the last old field of its name, or an old field's name is gone |
| `MapDiff.StrictlyOrdered` | software/wuppercodegen/wuppercodegen/cli.py:336 | The rows are strictly ordered by their index |
| `MapDiff.ChangeIsAdjacent` | software/wuppercodegen/wuppercodegen/cli.py:290-304 | The old side of a change is directly followed by its new side |
| `MapDiff.SharedNumbers` | software/wuppercodegen/wuppercodegen/cli.py:338-342 | Sequence numbers start at 0, never skip, and two rows share one if and only if they are the two sides of one change |
| `MapDiff.SelfDiffEmptyIff` | software/wuppercodegen/wuppercodegen/cli.py:223-346 | Comparing a map with itself shows nothing if and only if bit fields of one register that share a name agree |
| `MapDiff.Compare` | software/wuppercodegen/wuppercodegen/cli.py:236-309 | The loops over both bit-field lists find a difference, and an incompatibility, if and only if there is one, and mark each new field as specified |
| `DiffRows.IncompatibleIff` | software/wuppercodegen/wuppercodegen/cli.py:251-309 | A changed register is incompatible exactly if address, endpoints, a field's range or value changed, a field is gone, or a field's type changed where the old field or the old register was written or triggered |
| `DiffRows.MarkIff` | software/wuppercodegen/wuppercodegen/cli.py:251-280 | A new field is marked Added, Into or not at all exactly by the last old field of its name |
| `MapDiff.UnmarkedIff` | software/wuppercodegen/wuppercodegen/cli.py:251-280 | A field that does not match goes unmarked if and only if its value alone has changed |
| `MapDiff.IncompatibleIsShown` | software/wuppercodegen/wuppercodegen/cli.py:287-310 | A register marked incompatible is always shown as changed; one that is changed and compatible has a field that is new or has kept its place and value |
| `MapDiff.Diff` | software/wuppercodegen/wuppercodegen/cli.py:223-342 | The loops, the sort and the numbering yield the rows that DiffRows.ShownByName describes, with the numbers of MapDiff.SharedNumbers |

## Left out

- Kernel plumbing: copying to and from user space, mmap, page-reserved bits, PCI configuration, MSI-X, proc and cdev registration, and all printing and command-line handling.
- The page allocator behind the GFP and NUMA buffer types: a foreign call; only the slot bookkeeping of these buffers is modelled.
- The slot fields paddr, size, name, uaddr and pid: they are stored and reported, and no decision depends on them.
- Failure of the lazy pool initialisation (`software/drivers/src/cmem_rcc.c:1303-1310`), where zones after the failing one stay uninitialised and the next request starts over.
- PoolSpec.RunKeepsPool: the pool runs require a page count of at least 1, because a count of 0 breaks the invariant, as PoolSpec.AllocKeepsPoolIff states.
- BufferRuns.RunConsistent: runs require the NUMA id 0 that the library sets for GFPBPA requests (`software/drivers/src/lib/cmem_rcc_lib.cpp:479`) and a page count from 1 to 2^31 - 1, because BufferSpec.GrantKeepsIff shows that nothing weaker works.
- BufferRuns.RunOwned: runs respect the two conditions that FreeKeepsOwnershipIff and FreeLockKeepsOwnershipIff show to be exact.
- LockRuns.RunExclusive: its SETCARDs and clearlocks meet the conditions that AttachSoundIff and ClearSoundIff show to be exact, and its runs stop short of the counter wrap.
- CardObject.WupperCard.Open: the failures after a granted attach, mapping registers and reading the packet size, are left out; opening an open object forgets the file it had, as the code does.
- CardObject.WupperCard.Close: requires that the remembered device is a card, which fails only if the question about a missing card has left a file open; RELEASELOCK does not check its slot.
- DmaRing.RunTracks: runs keep to the condition that ConsumeIff and FillIff show to be exact.
- ChunkPool.Collect: what happens after a scan has left the table is unknown, and the 32-bit limit bounds the window start only.
- ChunkPool.Assemble: on the exits for a misaligned or out-of-range chunk, the chunk itself, or all chunks, are not given back; what is freed there is stated as the code does it.
- RecursiveMutex.RunSafe: the counter does not overflow, and memory is sequentially consistent; the three static fields are components of a state value, since any thread may step between two accesses.
- The register banks of BAR 0 and 1 in `cfg_bitfield`: the same search over other tables.
- ConfigTool.WupperCard.CmdLoad: gives each line its own buffer. The source hands the pointer it has moved past leading white space to `getline` and `free`, which is undefined; how far it has moved is part of the contract, and 0 for stored files.
- Name suggestions for unknown fields and the `usleep` of a `sleep` line.
- Reading YAML, the templates, and what nodes inherit from their parents: names are given after formatting, so that distinct registers have distinct names where a theorem asks for it.
- FieldRanges.GenerateBitfields: bit numbers are naturals and each range is given in one of its three forms; parsing the text of a range is left out.
- SequenceList.ListSequences: requires that no sequence has number 0, for which the source divides by zero.
- MapDiff.Diff: keeps rows instead of attributes set on the compared objects, leaves out the marks on the fields of the old register, and takes the dictionary of nodes to hold registers only.
- Interrupt waiting, I2C, wishbone, monitoring data, watchdogs, and `rcc_error`, whose macros do not pack and unpack.
- Weak memory and preemption inside driver functions.
