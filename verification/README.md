# Verification models of the kernel's data structures, locks and file system core

The kernel is full of small algorithms whose invariants the code states only as ASSERTs, or not at
all: cluster chains on a FAT32 volume, a first-fit heap over an intrusive list, a reader/writer
spinlock made of three adjacent 16-bit counters, a hash table chained through the same lists, a
bitmap scanner, number formatting, DMA descriptor tables, partition discovery, a check-in queue.
This project models them in Dafny and proves what they rest on.

How the models are built:

* What the source changes in place is changed in place here: fields of a class, a map of list words
  indexed by address, an array. Each such method is proved against a specification on values, and the
  theorems are lemmas about that specification.
* Locks and the check-in queue are state machines with one atomic instruction (or one ASSERT read)
  per step, any number of CPUs or threads, and any interleaving.
* A failed ASSERT is an outcome (`Panic`, `Panicked`, `AssertFailed`), not a precondition, wherever a
  caller can provoke it. Machine arithmetic is written out where it can wrap or truncate.
* Device I/O succeeds; the current date and time, random content of freed memory and the like are
  parameters.

Files, from the bottom up: `arithmetic.dfy`, `counting.dfy` (general facts), `intrusive_list.dfy`,
`heap_arena.dfy` and `cl_heap.dfy`, `memory.dfy` and `hash_table.dfy`, `rw_spinlock.dfy` and
`rec_rw_spinlock.dfy`, `checkin_queue.dfy`, `fat_volume.dfy`, `fat_driver.dfy` and
`fat_long_names.dfy`, `disk_partitions.dfy`, `ata_dma.dfy`, `bitmap.dfy`, `strutils.dfy`.

Where the code does not do what it looks like doing, the models follow the code, and the exact
condition is proved:

* The heap's search for a gap fails its own ASSERT when the restart entry is near the end of the list
  (list position `k >= 3` of `n` entries with `n <= k + 1`), even though a gap may be free
  (`HeapArena.SearchCanPanic`); from a restart entry that is a block it never looks at the gap behind
  the first block nor at the two next to the restart entry.
* A block whose total size exceeds 32 bits (`LARGEST_COUNTED_SIZE`) is admitted on a heap above 4 GB.
  The total that is tested and charged is then truncated, with these consequences. The block overlaps
  its neighbour or leaves the arena exactly when padding, header, data and tail exceed the true room at
  its place (`HeapArena.AllocateKeepsWf`; `HeapArena.OrderCanBeLost` is an instance). The accounting is
  wrong in any case (`HeapArena.AccountingExactUnlessTruncated`, `HeapArena.AccountingCanBeLost`).
  Freeing the block always panics, after taking it off the list if not before, and placing a block
  right behind it may fail the check at line 270 of cl_heap.c.
* The reader/writer lock is safe for exactly up to 65536 CPUs (`RwSpinlock.SafeExactlyUpToMaxCpus`).
* The free-cluster scan compares an absolute sector with a FAT length, so it stops short of the end of
  the FAT, by at least as many sectors as there are reserved ones (`FatVolume.ScanMissesEnd`). The
  replacement of an unknown hint by cluster 2 (line 249 of fat_utils.c) is never reached, since an
  unknown hint has already been taken for one behind the last cluster.
* So extending a file fails the ASSERT at line 392 of fat_utils.c on volumes that have free clusters:
  whenever the free count is known and not 0, and the hint is unknown or behind the FAT, or the scan
  finds no free cluster from the hint on (`FatDriver.HintlessVolumeFails` is a consistent volume with
  an exact count). How much a write can store is `FatDriver.Available`; it panics instead of
  being refused when the count promises more than the scan can find (`FatDriver.Overstated`).
* A long directory entry that is marked as the last one, has no text and a number that no name has puts
  its terminating NUL outside the caller's buffer (`FatLongNames.OverrunsIff`,
  `FatLongNames.EmptyLastEntryOverruns`); the directory search calls it so.
* The text that itoa writes for the 32-bit signed minimum denotes another number
  (`StrUtils.TextIsRight`), though atoi reads it back correctly.
* A DMA descriptor table denotes the bytes to be transferred exactly when they lie below 4 GB and the
  transfer reaches into the last piece of the buffer; the check on the start address alone does not
  guarantee that (`AtaDma.TransferIsTheBuffer`). A buffer of more than 256 pieces fails the ASSERT that
  the table does not cross a page, wherever the table is (`AtaDma.LongTablesPanic`,
  `AtaDma.FragmentedBufferPanics`); sector counts far beyond that are let through.
* An extended partition entry with LBA 0 in the MBR makes the parser fail its own ASSERT
  (`DiskPartitions.PanicsOnlyOnZeroLink`), and boot records that link in a cycle make it recurse without
  end (`DiskPartitions.EndsIffNoRecordTwice`, `DiskPartitions.CyclicDiskNeverEnds`). The size of the
  partition table is computed in a DWORD; the table is overrun exactly when it does not fit
  (`DiskPartitions.CapacitySuffices`).
* The range check of BitmapSetBitsValue accepts any count larger than the whole bitmap
  (`Bitmaps.RangeCheckAccepts`), and the write then leaves the buffer unless the padding of the last
  byte holds it (`Bitmaps.RangeCheckMisses`).
* Keys of more than 8 bytes overrun the variable that both hash functions load them into; comparing 0
  bytes backwards starts reading at index 0xFFFFFFFF; a check-in wait for more threads than there are
  slots reads past the array (`CheckinQueue.TooLongGoesOutside`).

## Model

| member | source | states |
|---|---|---|
| IntrusiveList.InsertAfterKeepsRing | CommonLib/src/list.c:134-150 | The four writes of InsertHeadList behind any position of a well-linked circle give a well-linked circle with the entry there, and touch no other list |
| IntrusiveList.InsertBeforeIsInsertAfter | CommonLib/src/list.c:114-130 | InsertTailList is the same as inserting behind the predecessor; on the head it appends |
| IntrusiveList.UnlinkKeepsRing | CommonLib/src/list.c:54-70 | RemoveEntryList leaves a well-linked circle without the entry, and touches neither other lists nor the removed entry's own words |
| IntrusiveList.UnlinkUndoesInsert | CommonLib/src/list.c:54-70 | Removing what was just inserted restores every word of the list |
| IntrusiveList.RingEntriesValidate | CommonLib/src/list.c:13-30 | Every entry of a well-linked list passes the debug check |
| IntrusiveList.OrderedInsertKeepsSorted | CommonLib/src/list.c:153-179 | Inserting before the first larger entry keeps a sorted list sorted, for any comparison that is an order |
| IntrusiveList.ListMemory.InsertOrderedList | CommonLib/src/list.c:153-179 | The loop finds that place: all before it are not larger, the one at it is; the result is a well-linked list with the entry there, sorted if it was sorted |
| IntrusiveList.ListMemory.ListSearchForElement | CommonLib/src/list.c:297-338 | The walk stops at the first equal (or, if ordered, larger) entry and reports it and the comparison made last |
| IntrusiveList.ListMemory.RemoveEntryList | CommonLib/src/list.c:54-70 | Exactly the two writes; the list without the entry; TRUE iff it was the only one |
| IntrusiveList.ListMemory.InsertHeadList | CommonLib/src/list.c:134-150 | Exactly the four writes; the list with the entry behind the given one |
| IntrusiveList.ListMemory.InsertTailList | CommonLib/src/list.c:114-130 | Exactly the four writes; the list with the entry before the given one |
| IntrusiveList.ListMemory.IsListEmpty | CommonLib/src/list.c:42-51 | TRUE iff the head is alone on its circle |
| HeapArena.TilesPrefix | CommonLib/src/cl_heap.c:446-450 | Blocks and gaps tile the arena from its header to any list position |
| HeapArena.SpaceBeforeCurrentIsAllGaps | CommonLib/src/cl_heap.c:200-233 | remainingSizeBeforeCurrent is exactly the total of all gaps between blocks; so an empty list is never searched and that ASSERT never fails |
| HeapArena.PutKeepsOrder | CommonLib/src/cl_heap.c:253-275 | A block between its list neighbours keeps the list strictly ordered by address, disjoint and inside the arena |
| HeapArena.AllocateKeepsWf | CommonLib/src/cl_heap.c:123-320 | For requests of any size: after an allocation the list is ordered, disjoint and inside the arena iff the padded block with header and tail fits the true room at its place, and then the accounting invariant holds too |
| HeapArena.NoRoomLosesOrder | CommonLib/src/cl_heap.c:405-421 | A block without that room overlaps its neighbour or leaves the arena, wherever it is put |
| HeapArena.CountedStaysInPlace | CommonLib/src/cl_heap.c:410-421 | A request whose total fits 32 bits always has its room |
| HeapArena.AllocatedBlockIsNew | CommonLib/src/cl_heap.c:299 | A returned address has the requested alignment and lies one header past a new entry of the requested size and tag; the entry overlaps no earlier block and stays inside the arena iff it has that room |
| HeapArena.FitsIs | CommonLib/src/cl_heap.c:405-421 | The fit test in numbers: header, data and tail within the space, and padding to the first aligned address with their 32-bit total within it too; and the block that is placed there |
| HeapArena.FailsIff | CommonLib/src/cl_heap.c:123-320 | Nothing is allocated iff the request is empty, untagged or larger than what remains, or fits neither the tail nor a gap that the search looks at |
| HeapArena.AccountingExactUnlessTruncated | CommonLib/src/cl_heap.c:405-447 | After a successful allocation of any size the accounting is exact iff the total size fits 32 bits |
| HeapArena.AccountedIffAllCounted | CommonLib/src/cl_heap.c:405-447 | The remaining size is exact iff the total of every listed block fits 32 bits |
| HeapArena.OrderCanBeLost | CommonLib/src/cl_heap.c:410-421 | A concrete 4 GB request, aligned to 64 KB, that is admitted on a fresh heap and runs out of it |
| HeapArena.AccountingCanBeLost | CommonLib/src/cl_heap.c:405-447 | A concrete request that stays in its place and reduces the remaining size by 35 bytes |
| HeapArena.FreeKeepsWf | CommonLib/src/cl_heap.c:323-387 | Freeing a block whose total fits 32 bits keeps order, disjointness and accounting (another fails the ASSERT on its size) |
| HeapArena.FreeUndoesAllocate | CommonLib/src/cl_heap.c:370-386 | What was just allocated, of any size, is found by its address; it can be freed iff its total fits 32 bits, and that restores the arena, remaining size and free address; after a tail allocation the whole state |
| HeapArena.OwnedBlockIsUnique | CommonLib/src/cl_heap.c:345-350 | Address and tag determine the entry that Free recovers |
| HeapArena.ProbesCover | CommonLib/src/cl_heap.c:235-289 | Exactly which gaps the wrap-around search can use, and in which order, from any restart position |
| HeapArena.SearchCanPanic | CommonLib/src/cl_heap.c:247 | A concrete run from initialization after which a small request panics although a gap for it is free |
| HeapArena.RestartComesBack | CommonLib/src/cl_heap.c:323-387 | A concrete run in which the restart entry is freed and a later tail allocation makes its address a live entry again |
| HeapArena.RunKeepsWf | CommonLib/src/cl_heap.c:123-387 | Over every run of allocations of any size that have their room, and of frees, with a live restart entry and no panic, the arena stays ordered and disjoint, and the remaining size is exact iff no listed block is oversized |
| ClHeap.FitTestIsExact | CommonLib/src/cl_heap.c:410-421 | No 64-bit wrap-around disturbs the fit test |
| ClHeap.StaleGapIsNegative | CommonLib/src/cl_heap.c:241-251 | The predecessor record left over from going round the list head always yields a negative gap |
| ClHeap.NullPredecessorMeansPanic | CommonLib/src/cl_heap.c:241-250 | The predecessor record is NULL iff restart position and length say so; it is stale only at the second entry, and else the right record |
| ClHeap.WithBlockRepresents | CommonLib/src/cl_heap.c:427-450 | Writing header, tail, list words and counters of a block that stays in its place is adding it to the abstract arena |
| ClHeap.WithoutBlockRepresents | CommonLib/src/cl_heap.c:352-386 | Unlinking and the counter updates of Free are removing the block, with FreeAddress handed to the predecessor |
| ClHeap.Heap.InitHeapEntry | CommonLib/src/cl_heap.c:391-451 | 0 and nothing changed iff the truncated total does not fit; else exactly that block's record, tail, counters and list words, or an overrun iff the true total does not fit |
| ClHeap.CountedNeverOverruns | CommonLib/src/cl_heap.c:405-421 | In memory, a request whose total fits 32 bits never overruns its place |
| ClHeap.Heap.SearchBetweenEntries | CommonLib/src/cl_heap.c:235-289 | Terminates, panics exactly by position, and otherwise takes the first probed gap that passes the fit test, with the block between its list neighbours unless it overruns the gap |
| ClHeap.Heap.AllocatePoolWithTag | CommonLib/src/cl_heap.c:123-320 | For requests of any size: an address that is a multiple of the alignment asked for (16 if none is), one header past a new block of the size and tag asked for, listed in its place; else NULL and nothing changed, panic, or overrun of the place; a freed restart entry is searched from again once its address is a live entry |
| ClHeap.OutcomeIs | CommonLib/src/cl_heap.c:123-320 | An address is the least multiple of the alignment asked for that leaves room for a header at its place; the list and the remaining size then differ by that one block; without an address nothing has changed |
| ClHeap.Heap.FreePoolWithTag | CommonLib/src/cl_heap.c:323-387 | The block is freed iff the tag is its own and its total fits 32 bits: then exactly that block is gone and its total is back; a wrong tag panics with nothing changed; a total that does not fit panics, with the entry unlinked if it passed the debug check |
| ClHeap.HeapInit | CommonLib/src/cl_heap.c:80-118 | The three error returns, each iff its own argument is bad, else an empty heap with everything but the header of 72 bytes free |
| RwSpinlock.StepKeepsInv | CommonLib/src/rw_spinlock.c:31-98 | Every atomic step keeps the meaning of the three counters (ActiveWriter = writers inside + readers pretending, at most 1) and fails no ASSERT |
| RwSpinlock.RunKeepsInv | CommonLib/src/rw_spinlock.c:31-98 | So does every interleaving, of up to 65536 CPUs |
| RwSpinlock.InvIsExclusive | CommonLib/src/rw_spinlock.c:31-98 | A writer never coexists with a reader or another writer |
| RwSpinlock.SafeExactlyUpToMaxCpus | CommonLib/src/rw_spinlock.c:33-98 | Exclusion and the ASSERTs hold under every interleaving iff there are at most 65536 CPUs |
| RwSpinlock.NoReaderPassesWaitingWriter | CommonLib/src/rw_spinlock.c:33-58 | While a writer is counted as waiting, no reader gets past its compare-exchange, over any run |
| RwSpinlock.FreeLockAdmitsWaiter | CommonLib/src/rw_spinlock.c:36-58 | When nobody holds or is passing, the words admit a waiter |
| RwSpinlock.SomeoneMoves | CommonLib/src/rw_spinlock.c:31-98 | In every reachable state with work left some CPU has an enabled non-spinning step |
| RwSpinlock.Drains | CommonLib/src/rw_spinlock.c:31-98 | From every reachable state some schedule of exactly the outstanding steps brings all CPUs outside and the words back to 0 |
| RwSpinlock.RwLock.Step | CommonLib/src/rw_spinlock.c:20-101 | One instruction on the words in memory is one step of the machine |
| RwSpinlock.RwLock.Execute | CommonLib/src/rw_spinlock.c:20-101 | Any schedule of steps keeps the lock exclusive and fails no ASSERT |
| RecRwSpinlock.StepKeepsInv | CommonLib/src/rec_rw_spinlock.c:37-124 | Every step keeps wrapper, inner lock and nesting consistent; only the depth ASSERT can fail, and exactly at the maximum depth |
| RecRwSpinlock.FreshAcquireSeesNoHolder | CommonLib/src/rec_rw_spinlock.c:69-72 | Whoever has just got the inner lock finds Holder NULL and depth 0 |
| RecRwSpinlock.HolderIsAlone | CommonLib/src/rec_rw_spinlock.c:52-78 | Holder = c means c is inside for writing, alone, with the depth counting its nesting within 1 and the maximum |
| RecRwSpinlock.NestedIsHolder | CommonLib/src/rec_rw_spinlock.c:52-78 | A CPU with unreleased exclusive acquires is the holder |
| RecRwSpinlock.SharedReleaseErasesNoHolder | CommonLib/src/rec_rw_spinlock.c:117-119 | The NULL that a shared release writes to Holder never erases a live holder |
| RecRwSpinlock.OutermostReleaseReleases | CommonLib/src/rec_rw_spinlock.c:106-123 | An exclusive release gives up the inner lock iff it is the outermost |
| RecRwSpinlock.WriterLeavesAtOutermostOnly | CommonLib/src/rec_rw_spinlock.c:106-123 | Nothing else takes a CPU out of the inner lock |
| RecRwSpinlock.InnerTakesOwnSteps | CommonLib/src/rec_rw_spinlock.c:69 | The wrapper changes the inner lock only through the inner lock's own steps |
| RecRwSpinlock.RunKeepsInv | CommonLib/src/rec_rw_spinlock.c:37-124 | Over every interleaving only the depth limit can fail |
| RecRwSpinlock.SomeoneMoves | CommonLib/src/rec_rw_spinlock.c:37-124 | In every reachable state with work left, and no CPU about to fail the depth limit, some CPU has a step that is no failed spin |
| RecRwSpinlock.Drains | CommonLib/src/rec_rw_spinlock.c:37-124 | From every such state some schedule of exactly the outstanding steps, releases only, brings all CPUs to idle and the lock to its initial state |
| RecRwSpinlock.DoomedStays | CommonLib/src/rec_rw_spinlock.c:52-57 | A CPU acquiring once more at the maximum depth stays there under every interleaving, unless the ASSERT fails |
| RecRwSpinlock.DrainsUnlessTooDeep | CommonLib/src/rec_rw_spinlock.c:37-124 | A reachable state can be drained iff no CPU is about to fail the depth limit; and else some schedule fails it |
| RecRwSpinlock.CallsBegin | CommonLib/src/rec_rw_spinlock.c:37-124 | Where a CPU is in no call, its next step begins the one it asks for |
| RecRwSpinlock.CallsGetWhatTheyAsk | CommonLib/src/rec_rw_spinlock.c:52-124 | Over any run, with the calls read off the turns: a CPU that completed exclusive acquires it has not released is the holder, inside for writing, at most to the depth limit, and no other CPU has completed an acquire; one that completed a shared acquire is inside for reading and nobody for writing |
| RecRwSpinlock.FailsOnlyBeyondDepth | CommonLib/src/rec_rw_spinlock.c:52-57 | The ASSERT fails iff a CPU with as many unreleased exclusive acquires as the depth limit (2 if none is given) acquires exclusively once more |
| RecRwSpinlock.ReadersShare | CommonLib/src/rec_rw_spinlock.c:67-78 | For any number of CPUs some run of shared acquires brings all of them inside together |
| RecRwSpinlock.RecRwLock.Step | CommonLib/src/rec_rw_spinlock.c:37-124 | One step in memory is one step of the machine, and keeps the invariant |
| CheckinQueue.NextKeepsInv | CommonLib/src/checkin_queue.c:51-106 | The taken slots stay a prefix as long as the number of successful marks; misses only after all are taken |
| CheckinQueue.RunKeepsInv | CommonLib/src/checkin_queue.c:51-106 | The same under every interleaving |
| CheckinQueue.ReturnsOnlyAfterMarks | CommonLib/src/checkin_queue.c:72-106 | A wait for n returns only after n marks have succeeded |
| CheckinQueue.CallReturnsOnlyAfterMarks | CommonLib/src/checkin_queue.c:72-106 | From the call itself, over any run: a call that waits for all, or for n, is back only after as many marks as there are slots, or n, have succeeded |
| CheckinQueue.MarkReturns | CommonLib/src/checkin_queue.c:51-68 | A mark is finished after at most one step of its own for each slot and one more, whatever the others do |
| CheckinQueue.EveryMarkTakesASlot | CommonLib/src/checkin_queue.c:51-68 | Over any run that leaves no mark unfinished, with the calls read off the turns: the calls take one slot each, the first slots, as long as there are any |
| CheckinQueue.MissesAreTheExcess | CommonLib/src/checkin_queue.c:51-68 | With no call under way the marks that found no slot are exactly the calls beyond the number of slots |
| CheckinQueue.WaiterGetsThrough | CommonLib/src/checkin_queue.c:90-102 | Once enough marks have succeeded every step of the waiter brings it closer to returning and nobody sets it back |
| CheckinQueue.WaiterReturns | CommonLib/src/checkin_queue.c:90-102 | So in every run in which it takes enough steps of its own, the waiter returns, whatever the others do |
| CheckinQueue.CallReturns | CommonLib/src/checkin_queue.c:83-102 | From the call itself: once as many have checked in as it asks for, it is back after at most that many steps and one more |
| CheckinQueue.StaysInside | CommonLib/src/checkin_queue.c:90-100 | While no wait is for more threads than there are slots, no scan leaves the array, under every interleaving |
| CheckinQueue.TooLongGoesOutside | CommonLib/src/checkin_queue.c:90-100 | A wait for more than there are slots never returns, and leaves the array after as many steps of its own as it takes to get there |
| CheckinQueue.NoneGoesOutside | CommonLib/src/checkin_queue.c:90-100 | From initialization on nobody leaves the array while no call asks for more than there are slots |
| CheckinQueue.LongCallGoesOutside | CommonLib/src/checkin_queue.c:83-100 | A call that asks for more has left the array once its caller has taken enough steps, whatever the others do |
| CheckinQueue.Queue.Step | CommonLib/src/checkin_queue.c:51-106 | One compare-exchange in memory is one step of the machine; a scan that leaves the array is followed no further |
| Memory.CompareIsNumeric | CommonLib/src/cl_memory.c:148-177 | Comparing from the last byte down is the numeric order of little-endian keys, 0 iff equal |
| Memory.ReverseCompare | CommonLib/src/cl_memory.c:148-177 | The loop computes that comparison, or reads out of bounds iff there are no bytes |
| Memory.Copy | CommonLib/src/cl_memory.c:32-86 | Copying the odd bytes first and the rest in eights copies exactly the given count |
| HashTable.PaddingKeepsValue | CommonLib/src/hash_table.c:297-348 | Zero bytes above a key do not change the number that is hashed |
| HashTable.HashFuncGenericIncremental | CommonLib/src/hash_table.c:297-312 | The loaded key modulo the number of buckets, so always a bucket; keys of more than 8 bytes overrun the variable |
| HashTable.HashFuncUniversal | CommonLib/src/hash_table.c:322-348 | The universal hash of the loaded key, without 64-bit overflow, so always a bucket; keys of more than 8 bytes overrun the variable |
| HashTable.StopIndexPlaces | CommonLib/src/hash_table.c:42-76 | The ordered search of a bucket stops exactly where the key belongs |
| HashTable.Table.SearchKeyInBucket | CommonLib/src/hash_table.c:42-76 | Found iff the entry is there; the placeholder is that entry or the one a new entry has to follow |
| HashTable.BucketWithIsAscending | CommonLib/src/hash_table.c:157-194 | Insertion keeps a bucket sorted and without duplicate keys |
| HashTable.InsertRepresents | CommonLib/src/hash_table.c:157-194 | Insertion is map update |
| HashTable.RemoveRepresents | CommonLib/src/hash_table.c:217-229 | Removing a listed entry removes exactly its key |
| HashTable.FlattenIsContents | CommonLib/src/hash_table.c:258-294 | Bucket after bucket the table lists each value of the map exactly once, as many as NumberOfElements counts |
| HashTable.RemoveKeepsIterating | CommonLib/src/hash_table.c:258-294 | Removing an entry already returned leaves an iterator's remaining sequence unchanged |
| HashTable.Table.constructor | CommonLib/src/hash_table.c:79-117 | All heads initialized: the empty map |
| HashTable.Table.Insert | CommonLib/src/hash_table.c:157-194 | Map update on the lists in memory; gives exactly the displaced entry or NULL; the count follows |
| HashTable.Table.Lookup | CommonLib/src/hash_table.c:233-255 | The map's value or NULL, NULL iff absent |
| HashTable.Table.Remove | CommonLib/src/hash_table.c:198-214 | Removes the key and gives its entry, or NULL |
| HashTable.Table.RemoveEntry | CommonLib/src/hash_table.c:217-229 | Removes exactly that entry, which may then be inserted again |
| HashTable.HashIterator.Next | CommonLib/src/hash_table.c:273-294 | Gives the next remaining entry, NULL iff none remains |
| HashTable.RemoveWhere | CommonLib/src/hash_table.c:273-294 | Iterating while removing any just returned entries still gives every original entry exactly once, and removes exactly the chosen ones |
| HashTable.Table.Clear | CommonLib/src/hash_table.c:120-144 | Terminates; the free function gets every entry exactly once, whatever it does to it; the table ends empty with size 0 |
| FatVolume.WriteFatEffect | FAT32/src/fat_utils.c:430-431 | Writing one FAT entry changes that entry's 28 bits only; the top 4 bits of every entry stay |
| FatVolume.ExtendKeepsConsistent | FAT32/src/fat_utils.c:276-310 | Linking a free cluster behind a chain extends exactly that chain; all chains stay acyclic and disjoint |
| FatVolume.LinkedCountFree | FAT32/src/fat_utils.c:476-479 | That leaves exactly one free cluster less |
| FatVolume.CountFreeSkip | FAT32/src/fat_utils.c:459-474 | Counting by repeatedly finding the next free cluster counts the free clusters |
| FatVolume.CountFreeIsCardinality | FAT32/src/fat_utils.c:452-475 | That count is the number of entries in the range whose 28 bits are 0 |
| FatVolume.ScannedEntry | FAT32/src/fat_utils.c:254-300 | The sector and index arithmetic of the scan visits exactly the entries below the scan limit |
| FatVolume.ScanMissesEnd | FAT32/src/fat_utils.c:254-300 | The scan limit is 128 entries for every sector that the FAT has beyond its reserved ones, or 0: strictly below the end of the FAT, by at least as many sectors as are reserved |
| FatVolume.ClusterOfItsSectors | FAT32/src/fat_utils.c:520-568 | ClusterOfSector inverts FirstSectorOfCluster on every sector of the cluster |
| FatVolume.SectorZeroIsInvalid | FAT32/src/fat_utils.c:42-103 | Sector 0, the end marker, belongs to no cluster |
| FatVolume.SectorAtInjective | FAT32/src/fat_operations.c:328-397 | Different positions of a file are different sectors |
| FatVolume.SectorOfFileIs | FAT32/src/fat_operations.c:328-397 | Sector p of a file is on the disk at (cluster - 2) * sectors per cluster + first data sector + p mod sectors per cluster, with the cluster at p / sectors per cluster in its chain |
| FatVolume.DisjointFilesApart | FAT32/src/fat_operations.c:328-397 | Files with disjoint chains share no sector |
| FatVolume.PutDirEntryKeepsOthers | FAT32/src/fat_utils.c:662-724 | Rewriting one directory entry keeps all others |
| FatVolume.MatchesIffStandsFor | FAT32/src/fat_utils.c:618-640 | The driver takes an entry for a file iff its name starts with neither of the two markers of unused entries, it is no long-name entry or volume label, and the words at bytes 20 and 26 are the high and low half of the file's first cluster |
| FatVolume.StandsForCluster | FAT32/src/fat_utils.c:636 | With the four halves given, such an entry stands for the cluster 65536 * high + low and for no other |
| FatVolume.UpdatedFields | FAT32/src/fat_operations.c:548-561 | By their byte offsets: a read sets the access date only; a write sets both dates, the time and the size, which never shrinks; every other byte stays |
| FatVolume.UpdatesKeepMatch | FAT32/src/fat_operations.c:548-561 | The new size and dates do not make an entry stand for another file |
| FatDriver.AppendedGrows | FAT32/src/fat_utils.c:382-479 | Reserving a cluster: that file gains it as last element, other files, top bits and data stay, and an exact free count stays exact |
| FatDriver.ReservationIs | FAT32/src/fat_utils.c:382-479 | From words 122 and 123 of FSINFO: a cluster is reserved iff the free count is not 0 and an entry from the hint up to the scan limit is free, and it is the least such; the ASSERT fails iff the count is known and not 0 and the hint is behind the FAT, or is scanned and there is no such entry |
| FatDriver.RefusedInfo | FAT32/src/fat_utils.c:382-517 | A refusal leaves FSINFO as it is but for those two words: a full volume forgets its hint, and an unknown count becomes 0 unless the hint is in the part that is not scanned |
| FatDriver.AvailableIs | FAT32/src/fat_utils.c:382-479 | What is available is the number of free entries from the hint up to the scan limit, but no more than the free count if that is known; when the count promises more than that |
| FatDriver.ReservesIffAvailable | FAT32/src/fat_utils.c:382-399 | A cluster can be reserved iff any is available; where none is, the ASSERT fails iff the free count is overstated |
| FatDriver.ReservingUsesOne | FAT32/src/fat_utils.c:382-479 | A reservation leaves exactly one available cluster less, and the count as overstated as it was |
| FatDriver.RefusalChangesNothing | FAT32/src/fat_utils.c:382-399 | A refused reservation leaves nothing available, as before |
| FatDriver.HintlessVolumeFails | FAT32/src/fat_utils.c:392 | A consistent volume with a free cluster and an exact free count on which the ASSERT fails |
| FatDriver.WrittenChunk | FAT32/src/fat_operations.c:500-539 | One more chunk extends the written range by exactly its data |
| FatDriver.WrittenKeepsOtherFiles | FAT32/src/fat_operations.c:476-539 | A write leaves every sector of every other file as it was |
| FatDriver.WrittenKeepsRestOfFile | FAT32/src/fat_operations.c:476-539 | And of its own sectors changes only those in the written range |
| FatDriver.WrittenAt | FAT32/src/fat_operations.c:500-539 | Where on the disk each sector of the written data is, from the geometry and the chain alone |
| FatDriver.NoteKeepsFile | FAT32/src/fat_operations.c:541-568 | The directory update changes no sector of the file |
| FatDriver.NoteKeepsEntry | FAT32/src/fat_utils.c:571-659 | After the update the same entry is still the first match |
| FatDriver.NoteKeepsDirectory | FAT32/src/fat_utils.c:662-724 | The directory update changes one sector of the directory only |
| FatDriver.ReadNote | FAT32/src/fat_operations.c:400-419 | What a read leaves: the access date in the first entry that stands for the file, by bytes, and all else on the disk; not found iff no entry does |
| FatDriver.WriteNote | FAT32/src/fat_operations.c:541-568 | What a write leaves in the entry of the file: both dates, the time, and the size if it grew, by bytes, all other bytes as they were |
| FatDriver.WrittenAndNoted | FAT32/src/fat_operations.c:476-568 | The disk that a write leaves: the data in the written range, the rest of the file, all other files, the boot region and all other directory entries as they were, the matched entry updated and still first; the update finds an entry iff there was one before |
| FatDriver.WriteOutcomeIs | FAT32/src/fat_operations.c:425-573 | Each outcome of a write iff its own cause: success iff there is nothing to write or the clusters there and those available hold the data and some entry of the directory cluster stands for the file; ElementNotFound iff only the entry is missing; ClusterInvalid or the ASSERT iff the room is |
| FatDriver.ReadBack | FAT32/src/fat_operations.c:328-397 | After a write, a read of the range gives the data and its access update finds the same entry |
| FatDriver.FatDevice.ScanForFree | FAT32/src/fat_utils.c:236-310 | The scan gives the smallest free entry from the hint up to the scan limit, or 0; the status of a scan that reads nothing is a failure; the ASSERT on the index fails iff a reserved entry is met that is free |
| FatDriver.FatDevice.FirstFreeCluster | FAT32/src/fat_utils.c:207-325 | And reserves it by an end mark if asked to, before that ASSERT, changing nothing else |
| FatDriver.FatDevice.NextClusterInChain | FAT32/src/fat_utils.c:106-203 | The successor in the FAT, read off its word; a free entry is turned into an end mark |
| FatDriver.FatDevice.RecountFree | FAT32/src/fat_utils.c:452-475 | The recount is the number of free clusters the scan reaches |
| FatDriver.FatDevice.AddNewClusterToChain | FAT32/src/fat_utils.c:329-517 | Reserves the smallest free cluster from the hint on that the scan reaches, linked behind the chain, iff the free count is not 0, the hint is scanned and there is one; word 122 of FSINFO then counts one less and word 123 names it; else only FSINFO changes; the ASSERT fails exactly on the stated disks |
| FatDriver.FatDevice.NextSectorInClusterChain | FAT32/src/fat_utils.c:42-103 | The first sector of the next cluster, of a new one at the end if extending, else 0; an extension succeeds iff a cluster is available, and uses up one |
| FatDriver.FatDevice.GetDirEntryFromSector | FAT32/src/fat_utils.c:571-659 | The first entry of the directory cluster that stands for that file, by name byte, attribute byte and the two cluster halves; not found iff there is none; cluster invalid iff the sector asked for is in no cluster |
| FatDriver.FatDevice.WriteDirEntryToSector | FAT32/src/fat_utils.c:662-724 | Reading the cluster, changing the entry in the copy and writing it back replaces that entry, and changes no other entry and no sector outside the cluster |
| FatDriver.EndOfTraversalIs | FAT32/src/fat_operations.c:328-342 | Without extending, the traversal succeeds iff the offset is in the file, fails the ASSERT iff it is in the first cluster behind it, and else ends with ClusterInvalid |
| FatDriver.FatDevice.Traverse | FAT32/src/fat_operations.c:328-342 | Ends at the cluster holding the offset, extended no further than needed; extending, it succeeds iff the clusters there and those available reach the offset |
| FatDriver.FatDevice.WriteClusters | FAT32/src/fat_operations.c:476-539 | All is stored iff the clusters there and those available hold it; else everything up to the end of what they hold; no more clusters than needed |
| FatDriver.FatDevice.ReadFile | FAT32/src/fat_operations.c:277-422 | The buffer gets the file's sectors from the offset on, as many as asked for and there are; each status from its own cause; nothing else changes but the access date of the first entry that stands for the file |
| FatDriver.FatDevice.WriteFile | FAT32/src/fat_operations.c:425-573 | Succeeds iff the clusters there and those available hold the data and some entry of the directory stands for the file; only that file grows, by no more clusters than needed; on success the data is in its range and the entry's dates, time and size are set, byte by byte, all else as it was; on failure only the range that had room is written |
| FatDriver.FatDevice.WriteThenRead | FAT32/src/fat_operations.c:277-573 | The write succeeds under exactly that condition, and then a read of the same range succeeds and returns the data |
| FatLongNames.WritePartialLongName | FAT32/src/fat_utils.c:844-904 | One long entry writes its characters at their place, up to its terminator, and nothing else; too small iff they do not fit, out of bounds iff a last entry without text has its place behind the buffer |
| FatLongNames.OverrunsIff | FAT32/src/fat_utils.c:898-901 | By the bytes of the entry: the writes out of a buffer of any size are those of the last entries without text whose place, 13 for each number before theirs, is behind it; with the driver's 256 bytes those whose number is not 1 to 20 |
| FatLongNames.EmptyLastEntryOverruns | FAT32/src/fat_operations.c:683-690 | A concrete such entry: place 806 |
| FatLongNames.EntryOfIs | FAT32/src/fat_utils.c:844-904 | What the entries of a name are, byte by byte: as many as hold it, numbered from 1, the last one marked; 13 little-endian characters each, and behind the end of the name one 0 and then 0xFFFF |
| FatLongNames.AccumulateLongName | FAT32/src/fat_operations.c:683-690 | Feeding the entries of any name, last ordinal first, rebuilds exactly the NUL-terminated name whatever the buffer held, and writes nothing outside it |
| DiskPartitions.ChainIsUnique | Disk/src/disk.c:400-450 | A disk has one chain of boot records, so the result is a function of the disk |
| DiskPartitions.NoRecordTwice | Disk/src/disk.c:400-450 | A chain that ends visits no record twice |
| DiskPartitions.EndsIffNoRecordTwice | Disk/src/disk.c:439-450 | The recursion over the boot records ends iff following the links comes to no record a second time |
| DiskPartitions.CyclicDiskNeverEnds | Disk/src/disk.c:439-450 | A concrete disk on which it does not end |
| DiskPartitions.EbrsShareBase | Disk/src/disk.c:425-438 | Every EBR link is relative to the first EBR, which the MBR locates absolutely |
| DiskPartitions.LinkIs | Disk/src/disk.c:400-450 | A signed record with an ending entry links on unless that is an empty one, which ends an EBR only; the link is to the LBA in that entry, counted from the first EBR |
| DiskPartitions.FoundIffDescribed | Disk/src/disk.c:400-466 | A partition is found iff some entry of a record of the chain, before the one that ends it, describes it: status 0x00 or 0x80, type, size, and place counted from that record; types 0x05 and 0x0F end a record, and an empty entry ends an EBR |
| DiskPartitions.PanicsOnlyOnZeroLink | Disk/src/disk.c:357 | The ASSERT fails iff the extended entry of the MBR says LBA 0; a first sector without the signature is no MBR |
| DiskPartitions.ParseRecord | Disk/src/disk.c:400-466 | The entry loop records exactly the partitions before the first ending entry, relative to their own record, and finds the link; it overruns the table iff they do not fit |
| DiskPartitions.CapacitySuffices | Disk/src/disk.c:300-304 | The memory asked for has room for all partitions iff 8 bytes and 24 for each fit a DWORD, and then for exactly that many |
| DiskPartitions.RetrieveStartingAtOffset | Disk/src/disk.c:333-482 | The recursion appends the partitions of the whole chain, or only counts them, with the status of its last record; it overruns the table iff they do not fit |
| DiskPartitions.RetrievePartitions | Disk/src/disk.c:270-329 | Both passes visit the same partitions: the table allocated by the count is filled exactly, and overrun iff its size does not fit a DWORD |
| AtaDma.ValidateTranslationPair | Ata/src/ata_operations.c:473-500 | Success iff the address is below 2^32, the size below 2^16 and both divisible by 4; else the status of the first of the four checks that fails |
| AtaDma.NoErrorIff | Ata/src/ata_operations.c:378-384 | No pair is refused iff that holds of all of them |
| AtaDma.RefusalIs | Ata/src/ata_operations.c:378-384 | Otherwise the first pair that is refused gives the status of the whole call |
| AtaDma.DoneIff | Ata/src/ata_operations.c:361-437 | The call succeeds iff there is something to transfer, the table stays in its page, no pair is refused, the pairs hold the transfer, and the table lies above 0 and below 4 GB; its being too high is its own failure |
| AtaDma.TableDenotesPieces | Ata/src/ata_operations.c:375-420 | The descriptors denote exactly the pieces' bytes, in order, iff no piece is empty and none reaches beyond 4 GB |
| AtaDma.EntriesAllOk | Ata/src/ata_operations.c:389-411 | No descriptor crosses a 64 KB boundary, starts above 4 GB or has a zero or truncated count |
| AtaDma.EmptyPieceIsBlocks | Ata/src/ata_operations.c:389-411 | A piece of 0 bytes makes the controller go through 64 KB, and twice at the start of a block |
| AtaDma.PiecesAreAPrefix | Ata/src/ata_operations.c:386-414 | The parts used are the first bytes of the buffer, and bytesRemaining is what is left |
| AtaDma.LeftIsShortfall | Ata/src/ata_operations.c:414-420 | bytesRemaining is not 0, so that the ASSERT fails, iff the description holds less than the transfer |
| AtaDma.NoneEmptyIff | Ata/src/ata_operations.c:386-414 | No piece is empty iff no pair is and the transfer reaches into the last pair |
| AtaDma.TransferIsTheBuffer | Ata/src/ata_operations.c:339-423 | For every validated description that covers the transfer: bytesRemaining 0, at most 2n descriptors, only the last marked; exactly the first bytes of the buffer iff no piece is empty and all lie below 4 GB; all descriptors good if no piece is empty |
| AtaDma.OneSectorOfAPage | Ata/src/ata_operations.c:339-423 | A one-sector transfer described by its whole page is such a case, and succeeds |
| AtaDma.TablePassesUpTo256 | Ata/src/ata_operations.c:361-373 | More than 256 pairs cross a page at every address; up to 256 do not at the start of a page |
| AtaDma.LongTablesPanic | Ata/src/ata_operations.c:373 | So every transfer of more than 256 pairs panics |
| AtaDma.FragmentedBufferPanics | Ata/src/ata_operations.c:373 | A concrete validated description of 2400 sectors that adds up and panics |
| AtaDma.PrepareDmaTransfer | Ata/src/ata_operations.c:313-445 | Done iff sectors and pairs are not 0, the table is in one page and between 0 and 4 GB, every pair in range and aligned, and the pairs hold the transfer; the table then denotes the first bytes of the buffer iff no piece is empty and none reaches beyond 4 GB; else the first refusal's status, or panic |
| Bitmaps.BufferSize | CommonLib/src/bitmap.c:55 | As many bytes as the bits need, and no more |
| Bitmaps.ChangedBits | CommonLib/src/bitmap.c:252-309 | Changing a bit of a byte changes that bit and no other |
| Bitmaps.UnpackedBit | CommonLib/src/bitmap.c:252-309 | Bit i of the bitmap is bit i modulo 8 of byte i / 8 |
| Bitmaps.SetRangeIs | CommonLib/src/bitmap.c:278-291 | Which bits a change of a range reaches, in numbers, with the index counted in 32 bits; and when it leaves the buffer |
| Bitmaps.FirstRun | CommonLib/src/bitmap.c:314-360 | The least start of a run of equal bits in range, or MAX_DWORD iff there is none |
| Bitmaps.ScanAndFlipIs | CommonLib/src/bitmap.c:213-248 | Exactly when a scan is refused for its arguments, which run it finds, and that it flips that run and no other bit |
| Bitmaps.RangeCheckAccepts | CommonLib/src/bitmap.c:131-132 | The ASSERTs accept a range iff it starts in the bitmap and either ends in it or its count exceeds the bitmap |
| Bitmaps.RangeCheckMisses | CommonLib/src/bitmap.c:131-134 | An accepted range leaves the buffer iff its count exceeds the bitmap and the padding of the last byte does not hold it; inside the bitmap exactly the range changes |
| Bitmaps.Bitmap.SetBitsValue | CommonLib/src/bitmap.c:123-135 | Panic with no change iff the range check fails; else the bits of the range change, and the write leaves the buffer iff the range does |
| Bitmaps.StepKeepsSound | CommonLib/src/bitmap.c:213-248 | Used as an allocator, the held runs stay disjoint and their union is the set bits |
| Bitmaps.RunKeepsSound | CommonLib/src/bitmap.c:213-291 | The same over any history of scan-and-flip and release |
| Bitmaps.HistoryOfFresh | CommonLib/src/bitmap.c:213-291 | Over any history from a new bitmap on, a bit is set iff some held run has it, no two share a bit, and no bit is set iff nothing is held |
| Bitmaps.RefusedOnlyWhenFull | CommonLib/src/bitmap.c:213-248 | A request for at least one bit, in a range that does not end before it starts or behind the bitmap, is refused iff every place for it meets a held run |
| Bitmaps.ReleaseUndoesAcquire | CommonLib/src/bitmap.c:213-291 | Releasing what was just acquired restores everything |
| Bitmaps.Bitmap.ChangeBit | CommonLib/src/bitmap.c:252-274 | On the packed bytes, only that bit changes |
| Bitmaps.Bitmap.ChangeBits | CommonLib/src/bitmap.c:278-291 | Only those bits change, whatever the count; the write leaves the buffer iff the range does |
| Bitmaps.Bitmap.ScanInternal | CommonLib/src/bitmap.c:314-360 | The nested loops find the first run |
| Bitmaps.Bitmap.ScanFromToAndFlip | CommonLib/src/bitmap.c:213-248 | Argument errors and no run give MAX_DWORD and no change; else the first run is flipped |
| Bitmaps.Bitmap.Perform | CommonLib/src/bitmap.c:123-248 | The allocator steps, on the packed bytes |
| StrUtils.DigitsAreRead | CommonLib/src/strutils.c:77-96 | Digit by digit, what is written most significant first is read back as the same number |
| StrUtils.Alphabet | CommonLib/src/strutils.c:77-96 | The characters: 0 to 9 and A to Z are written, either case is read, each at its value; the sign is a minus |
| StrUtils.IsDigitIff | CommonLib/src/strutils.c:160-185 | A character is read as a digit of a base up to 36 iff it is one of those, in either case of the letter, below the base; no further ones are up to base 255, and every printable one is above |
| StrUtils.ReadTextIs | CommonLib/src/strutils.c:121-193 | A text is refused iff some character is no digit, or it has no sign and 32 bits do not hold what it denotes modulo 2^64; else what it denotes is stored, modulo the width |
| StrUtils.RoundTrip | CommonLib/src/strutils.c:17-193 | atoi restores what itoa wrote, for bases 2 to 36, every value, both widths, signed or not |
| StrUtils.RoundTripExactlyUpTo36 | CommonLib/src/strutils.c:84-92 | The round trip holds for all values of a base iff the base is at most 36 |
| StrUtils.TextIsRight | CommonLib/src/strutils.c:38-72 | The text denotes the variable's value in all cases but the 32-bit signed minimum |
| StrUtils.TextFits | CommonLib/src/cl_string.c:7 | Every text with its NUL fits 65 bytes but those of the signed minima in base 2; unsigned texts have at most 64 digits |
| StrUtils.XorSwaps | CommonLib/src/strutils.c:6-14 | Three exclusive-ors exchange two bytes |
| StrUtils.ReverseInPlace | CommonLib/src/strutils.c:112-116 | The swaps reverse the text and nothing else |
| StrUtils.Itoa | CommonLib/src/strutils.c:17-118 | The buffer gets exactly that text and its NUL |
| StrUtils.Atoi | CommonLib/src/strutils.c:121-193 | The loop reads the text up to its NUL, or panics on a character that is no digit or a value too large |

## Left out

- FAT volumes with sectors other than 512 bytes: an ASSERT on the FSINFO size rules them out.
- FAT completeness of the free-cluster scan: the code does not reach the whole FAT; only what it reaches is claimed (`ScanLimit`).
- FatDriver.FatDevice.AddNewClusterToChain: an unknown free count is recounted over what the scan reaches, as in the code; exactness is claimed for known counts only.
- FatDriver.FatDevice.WriteFile: files start with at least one cluster; creation of directory entries (FatCreateDirectoryEntry) is not part of this model.
- FatLongNames.AccumulateLongName: characters are the low bytes of the stored 16-bit characters, as the code copies them; names with a zero low byte are excluded.
- Device I/O errors and allocation failures, interrupt state, LOG output.
- Contents of the current date and time: a parameter.
- ClHeap.Heap.AllocatePoolWithTag: a search from a restart entry that is freed and not live again is undefined in the code and excluded. At an overrun the model ends. For a block behind an oversized one the debug check reads a tail at a truncated place, whose content is unknown: either answer is allowed.
- ClHeap.HeapInit: the arena does not wrap around the address space and is smaller than 2^63 bytes.
- Heap zero-fill and free patterns: data contents are not modelled, only headers, tails and list words.
- Alignment masks are written as arithmetic on powers of two, the only alignments the macros support.
- List words live in maps from addresses to addresses; two records never share a word.
- HashTable.HashIterator.Next: the re-initialization on Entries[MaxKeys] when the buckets run out is guarded; its result is NULL already.
- HashTable.HashFuncGenericIncremental: what the bytes beyond the key variable overwrite; the outcome is only named.
- Memory.ReverseCompare: what is found out of bounds; the outcome is only named.
- Bitmaps.Bitmap.SetBitsValue, FatLongNames.WritePartialLongName: what a write outside the buffer hits; both models end there.
- HashTable.Table.Insert: an entry that is in the table already, or a bucket head, is not inserted. The key stored next to an address is fixed, also while the entry is outside the table.
- RwSpinlock.Drains: it shows that some schedule finishes; fairness of the compare-exchange loops is not claimed.
- RecRwSpinlock.RecRwLock.Step: a CPU that holds the lock for writing and asks for it for reading, which in the code spins forever, makes no call; what a CPU inside for reading calls next is taken to be the release.
- CheckinQueue.Queue.Step: what a scan finds behind the array of slots.
- DiskPartitions.RetrievePartitions: for disks whose chain of boot records ends, which is characterised by EndsIffNoRecordTwice; elsewhere the recursion does not end and there is no result. Counts are unbounded: a count that wraps gives the same table size, and overruns the table before its index wraps.
- AtaDma.PrepareDmaTransfer: the buffer description (MDL) and the table's two addresses are inputs; the register writes that start the transfer are left out. The DWORD size of the table is not truncated: a transfer of 65535 sectors has at most 8193 pages.
- StrUtils.Itoa: base 0 is refused by an ASSERT and base 1 does not terminate; both are excluded, as are buffers too small for the text.
- Drivers' dispatch routines, register access, ACPI, the scheduler and memory managers, commands: plumbing, or not part of this model.
- The plain spinlock, monitor lock, event and stack: simpler than the reader/writer lock and the lists.
