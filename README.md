# SimpleDB storage and operator core, modelled in Dafny

This project models the core of a SimpleDB teaching database: the page-level lock manager and page
cache of `BufferPool`, the grouped integer aggregator, the hash equi-join, the heap-file page
arithmetic and scan iterator, and the delete operator. `LockManager`, `BufferPool`,
`IntegerAggregator`, `HashEquiJoin`, `HeapFileIterator` and `Delete` are Dafny classes with the
Java fields. Two mutable Java objects are values here: the `ObjLock` lock record and the cached
`Page` (see "Left out"). The class methods are proved to perform pure functions on values:

- `LockTables` for the lock manager;
- `Cache` (the cached pages and the disk) for the buffer pool;
- the values merged into each group, for the aggregator;
- the outputs still to come, for the join and the heap-file iterator.

The properties the code promises are proved as lemmas about those functions.

| file | module | models |
|---|---|---|
| `basics.dfy` | `Basics` | page and transaction ids, fields and tuples, Java `int` wrap-around, `ArrayList.remove` |
| `locking.dfy` | `Locking` | `LockManager` and `ObjLock` (`BufferPool.java` lines 25-182) |
| `buffering.dfy` | `Buffering` | `BufferPool` (`BufferPool.java` lines 187-464) |
| `aggregation.dfy` | `Aggregation` | `IntegerAggregator` |
| `join.dfy` | `Join` | `HashEquiJoin` |
| `heap_file.dfy` | `HeapFiles` | `HeapFile` (the `src/java/simpledb` copy) and its `HeapFileIterator` |
| `delete.dfy` | `Deletion` | `Delete` |

How things outside the core are represented:

- **Child operators.** A child operator (`DbIterator`) is the sequence of tuples it yields, plus a cursor.
- **Disk and catalog.** The disk behind the catalog is a map from page id to page bytes.
- **Table files.** Results of the table files' `insertTuple`/`deleteTuple` (the modified pages) are parameters.
- **Tuples.** A tuple is a sequence of fields, and a merged tuple is the concatenation of its parts.
- **Java names that are Dafny keywords.** Two `HashEquiJoin` fields are renamed: `map` is called `table` and `iterator` is called `pending`.
- **Java `int` arithmetic** is written out:
  - `Wrap32` reduces modulo 2^32 into [-2^31, 2^31);
  - `TruncDiv` divides truncating toward zero.

Where the code and its documentation disagree, the model follows the documented intent. The code as
written is modelled beside it, and each difference is listed under Findings.

## Model

| member | source | states |
|---|---|---|
| Basics.FirstIndex | acmdb-lab5/src/java/simpledb/BufferPool.java:154 | the index `ArrayList.remove(Object)` removes at: it holds the element, and no earlier index does |
| Basics.RemoveFirst | acmdb-lab5/src/java/simpledb/BufferPool.java:154 | removing an element drops exactly its first occurrence: the result is the list cut around the first index holding it, with the rest in order. An absent element changes nothing, and a duplicate-free list stays duplicate-free without it |
| Basics.WrapAdd | acmdb-lab5/src/java/simpledb/IntegerAggregator.java:108-109 | a running Java `int` sum, wrapped after every addition, equals the wrapped exact sum |
| Locking.ObjLock.TryUpgradeLock | acmdb-lab5/src/java/simpledb/BufferPool.java:56-62 | the upgrade succeeds iff the record is shared with tid as its only holder; it then becomes exclusive and the holders are unchanged |
| Locking.ObjLock.AddHolder | acmdb-lab5/src/java/simpledb/BufferPool.java:64-72 | on an exclusive record: nothing changes and null is returned. On a shared record: tid is returned and the holders become the old ones plus tid, appended at most once |
| Locking.UpdateTransactionTable | acmdb-lab5/src/java/simpledb/BufferPool.java:102-112 | pid joins tid's inventory at most once; an absent inventory is created as exactly [pid]; other inventories are unchanged and old entries keep their order |
| Locking.ConsistentHoldersNonEmpty | acmdb-lab5/src/java/simpledb/BufferPool.java:135 | under the manager's invariant every record has a first holder, so `getHolders().get(0)` is defined |
| Locking.AcquireOnUnlockedPage | acmdb-lab5/src/java/simpledb/BufferPool.java:142-147 | a request on a page with no record is granted at once: a record with the requested mode and tid as sole holder, and pid added to tid's inventory |
| Locking.AcquireSharedOnShared | acmdb-lab5/src/java/simpledb/BufferPool.java:119-124 | a shared request on a shared record is granted and adds tid to the holders and pid to tid's inventory, each at most once |
| Locking.AcquireExclusiveOnShared | acmdb-lab5/src/java/simpledb/BufferPool.java:125-133 | an exclusive request on a shared record is granted, upgrading in place, iff tid holds the page and is its only holder; otherwise it waits |
| Locking.AcquireOnExclusive | acmdb-lab5/src/java/simpledb/BufferPool.java:134-141 | a request on an exclusive record is granted unchanged to its holder and waits for everyone else |
| Locking.AcquireMustWaitIff | acmdb-lab5/src/java/simpledb/BufferPool.java:118-149 | a request waits iff another transaction holds the page in a conflicting mode |
| Locking.AcquireGrantsRequested | acmdb-lab5/src/java/simpledb/BufferPool.java:118-149 | a granted request leaves tid holding pid at least as strongly as requested, and leaves other pages' records alone |
| Locking.ConsistentAfterNewRecord | acmdb-lab5/src/java/simpledb/BufferPool.java:142-147 | creating a record keeps the invariant |
| Locking.ConsistentAfterSharedJoin | acmdb-lab5/src/java/simpledb/BufferPool.java:120-124 | joining a shared record keeps the invariant |
| Locking.ConsistentAfterUpgrade | acmdb-lab5/src/java/simpledb/BufferPool.java:126-129 | upgrading a sole holder's record keeps the invariant |
| Locking.AcquirePreservesConsistent | acmdb-lab5/src/java/simpledb/BufferPool.java:114-150 | every granted request keeps the invariant. The invariant: holders and inventories agree, nothing is duplicated, and an exclusive record has one holder |
| Locking.ExclusiveHasOneHolder | acmdb-lab5/src/java/simpledb/BufferPool.java:134-137 | mutual exclusion: two transactions holding an exclusive page are the same one, its sole holder |
| Locking.ReleaseEffect | acmdb-lab5/src/java/simpledb/BufferPool.java:152-167 | releasing removes exactly the pair (tid, pid) from both tables. It deletes the record iff no holder is left, and deletes the inventory iff it becomes empty |
| Locking.ReleaseNotHeld | acmdb-lab5/src/java/simpledb/BufferPool.java:152-167 | releasing a lock tid does not hold changes nothing |
| Locking.ReleaseEachEffect | acmdb-lab5/src/java/simpledb/BufferPool.java:173-175 | releasing a list of pages one by one keeps the invariant and removes tid from exactly those pages |
| Locking.ReleaseAllClears | acmdb-lab5/src/java/simpledb/BufferPool.java:169-177 | after releasing its whole inventory tid holds nothing, and every other transaction holds exactly what it held |
| Locking.LockManager.constructor | acmdb-lab5/src/java/simpledb/BufferPool.java:78-81 | both tables start empty |
| Locking.LockManager.HoldsLock | acmdb-lab5/src/java/simpledb/BufferPool.java:83-86 | the answer is pid in tid's inventory, which by the invariant is tid being one of pid's holders |
| Locking.LockManager.GetLockList | acmdb-lab5/src/java/simpledb/BufferPool.java:179-181 | returns tid's inventory, or null when it has none |
| Locking.LockManager.AcquireLock | acmdb-lab5/src/java/simpledb/BufferPool.java:114-150 | one round of the retry loop: grants exactly when the decision function does and installs its tables; otherwise nothing changes |
| Locking.LockManager.ReleaseLock | acmdb-lab5/src/java/simpledb/BufferPool.java:152-167 | the tables become the release function of the old ones |
| Locking.LockManager.ReleaseLockOnTransaction | acmdb-lab5/src/java/simpledb/BufferPool.java:169-177 | tid ends up with no locks and no inventory; other transactions' locks are unchanged |
| Locking.AsWrittenSharedLockLost | acmdb-lab5/src/java/simpledb/BufferPool.java:123 | with addHolder skipped: two readers, then one release, delete the record the other still holds, and a writer is then granted the page beside it |
| Buffering.LockFor | acmdb-lab5/src/java/simpledb/BufferPool.java:249-254 | READ_ONLY takes a shared lock, anything else an exclusive one |
| Buffering.FlushedEachPool | acmdb-lab5/src/java/simpledb/BufferPool.java:434-443 | flushing a list of pages marks each listed cached page clean and keeps every cached page and its bytes |
| Buffering.FlushedEachDisk | acmdb-lab5/src/java/simpledb/BufferPool.java:419-430 | flushing a list of pages writes each listed dirty page's bytes to its disk slot and writes nothing else |
| Buffering.DiscardedDirtyEachEffect | acmdb-lab5/src/java/simpledb/BufferPool.java:325-330 | the abort loop removes exactly the listed cached pages that are dirty, keeps every other page unchanged, and never writes to disk |
| Buffering.CommitWritesBack | acmdb-lab5/src/java/simpledb/BufferPool.java:316-333 | commit drops nothing, leaves the transaction's pages clean and puts every page it dirtied on disk; other pages and disk slots are unchanged |
| Buffering.NothingDirtyToDiscard | acmdb-lab5/src/java/simpledb/BufferPool.java:325-330 | when no listed page is dirty the discard loop changes nothing |
| Buffering.AbortDropsDirtyPages | acmdb-lab5/src/java/simpledb/BufferPool.java:316-333 | abort writes nothing and drops exactly the transaction's cached dirty pages |
| Buffering.InstalledKeys | acmdb-lab5/src/java/simpledb/BufferPool.java:355-359 | installing keeps every other cached page unchanged and adds exactly the reported pages' ids |
| Buffering.InstalledPages | acmdb-lab5/src/java/simpledb/BufferPool.java:380-384 | every reported page is cached under its id, dirtied by tid, as its last reported version, and cached pages stay under their own ids |
| Buffering.FlushedAllEffect | acmdb-lab5/src/java/simpledb/BufferPool.java:392-399 | after flushing everything every cached page is clean with its bytes kept, every dirty page is on disk, and other disk slots are unchanged |
| Buffering.FlushedNone | acmdb-lab5/src/java/simpledb/BufferPool.java:395 | flushing no page changes nothing |
| Buffering.FlushedSomeStep | acmdb-lab5/src/java/simpledb/BufferPool.java:396-398 | flushing one more cached page adds it to the flushed set, in any order |
| Buffering.FlushedSomePool | acmdb-lab5/src/java/simpledb/BufferPool.java:396-398 | the cache half of that step |
| Buffering.FlushedSomeDisk | acmdb-lab5/src/java/simpledb/BufferPool.java:396-398 | the disk half of that step |
| Buffering.EvictedEffect | acmdb-lab5/src/java/simpledb/BufferPool.java:449-462 | eviction removes exactly the victim (the cache shrinks by one), keeps the other pages, and writes the victim's bytes iff it was dirty |
| Buffering.MadeRoomBound | acmdb-lab5/src/java/simpledb/BufferPool.java:262-272 | making room leaves the cache below numPages and keeps the pages that stay, so loading one page keeps the bound |
| Buffering.CommitAsWrittenIsAbort | acmdb-lab5/src/java/simpledb/BufferPool.java:422 | with the value-membership test, commit is abort: the dirty pages are dropped and never written |
| Buffering.CommitAsWrittenLosesWrite | acmdb-lab5/src/java/simpledb/BufferPool.java:422 | one committed dirty page: as written it is lost, and corrected it is on disk |
| Buffering.BufferPool.constructor | acmdb-lab5/src/java/simpledb/BufferPool.java:209-214 | empty cache, fresh empty lock manager |
| Buffering.BufferPool.GetPage | acmdb-lab5/src/java/simpledb/BufferPool.java:246-274 | takes the lock for the permission. A wait is an abort that changes no page. Once granted: a hit returns the cached page unchanged; a miss makes room, then loads, caches and returns the page. The cache never exceeds numPages |
| Buffering.BufferPool.Fetch | acmdb-lab5/src/java/simpledb/BufferPool.java:258-273 | the cache half of getPage, with the same hit, miss and bound guarantees |
| Buffering.BufferPool.ReleasePage | acmdb-lab5/src/java/simpledb/BufferPool.java:285-289 | the lock tables become the release function's result, and tid no longer holds pid |
| Buffering.BufferPool.HoldsLock | acmdb-lab5/src/java/simpledb/BufferPool.java:303-307 | answers whether pid is in tid's inventory |
| Buffering.BufferPool.TransactionCompleteDefault | acmdb-lab5/src/java/simpledb/BufferPool.java:296-300 | is the commit case of transactionComplete |
| Buffering.BufferPool.TransactionComplete | acmdb-lab5/src/java/simpledb/BufferPool.java:316-333 | the cache becomes the flush (on commit) and then the dirty-page discard over tid's inventory. tid ends with no locks; other transactions' locks are unchanged |
| Buffering.BufferPool.InsertTuple | acmdb-lab5/src/java/simpledb/BufferPool.java:350-360 | the cache becomes the install of the reported pages; the disk is unchanged |
| Buffering.BufferPool.DeleteTuple | acmdb-lab5/src/java/simpledb/BufferPool.java:375-385 | the cache becomes the install of the reported pages; the disk is unchanged |
| Buffering.BufferPool.FlushAllPages | acmdb-lab5/src/java/simpledb/BufferPool.java:392-399 | the state becomes every cached page flushed |
| Buffering.BufferPool.DiscardPage | acmdb-lab5/src/java/simpledb/BufferPool.java:409-413 | removes pid from the cache and nothing else |
| Buffering.BufferPool.FlushPage | acmdb-lab5/src/java/simpledb/BufferPool.java:419-430 | writes a cached dirty page to disk and marks it clean; anything else is left alone |
| Buffering.BufferPool.FlushPages | acmdb-lab5/src/java/simpledb/BufferPool.java:434-443 | flushes tid's inventory in order |
| Buffering.BufferPool.EvictPage | acmdb-lab5/src/java/simpledb/BufferPool.java:449-462 | an empty cache is unchanged; otherwise some cached victim is flushed and removed |
| Aggregation.TruncDivRemainder | acmdb-lab5/src/java/simpledb/IntegerAggregator.java:110 | Java division leaves a remainder smaller than the divisor with the dividend's sign |
| Aggregation.TruncDivAgrees | acmdb-lab5/src/java/simpledb/IntegerAggregator.java:110 | Java division agrees with floor division on non-negative operands and is odd in the dividend |
| Aggregation.Snoc | acmdb-lab5/src/java/simpledb/IntegerAggregator.java:117-126 | one more value steps the sum by the value and the minimum and maximum by Math.min and Math.max |
| Aggregation.MinOfSpec | acmdb-lab5/src/java/simpledb/IntegerAggregator.java:120-122 | a group's MIN is one of its values and no larger than any |
| Aggregation.MaxOfSpec | acmdb-lab5/src/java/simpledb/IntegerAggregator.java:124-126 | a group's MAX is one of its values and no smaller than any |
| Aggregation.SumAndCountExact | acmdb-lab5/src/java/simpledb/IntegerAggregator.java:112-118 | without overflow SUM is the exact sum and COUNT the number of merged tuples |
| Aggregation.AvgWithinRange | acmdb-lab5/src/java/simpledb/IntegerAggregator.java:107-110 | without overflow AVG lies between the group's MIN and MAX |
| Aggregation.SumBounds | acmdb-lab5/src/java/simpledb/IntegerAggregator.java:107-110 | n times MIN is at most SUM, which is at most n times MAX |
| Aggregation.ResultTuple | acmdb-lab5/src/java/simpledb/IntegerAggregator.java:129-135 | with grouping the output is (group value, aggregate); without grouping it is (aggregate) |
| Aggregation.CountStep | acmdb-lab5/src/java/simpledb/IntegerAggregator.java:113 | the stored count plus one (0 for a new group) is the count of the group's values with the new one |
| Aggregation.SumStep | acmdb-lab5/src/java/simpledb/IntegerAggregator.java:117 | the stored sum plus the value (0 for a new group) is the wrapped sum of the group's values |
| Aggregation.MinStep | acmdb-lab5/src/java/simpledb/IntegerAggregator.java:121 | Math.min of the value and the stored minimum (Integer.MAX_VALUE for a new group) is the group's new MIN |
| Aggregation.MaxStep | acmdb-lab5/src/java/simpledb/IntegerAggregator.java:125 | Math.max of the value and the stored maximum (Integer.MIN_VALUE for a new group) is the group's new MAX |
| Aggregation.AvgStep | acmdb-lab5/src/java/simpledb/IntegerAggregator.java:110 | the stored sum divided by the stored count is the group's AVG |
| Aggregation.StatMapStep | acmdb-lab5/src/java/simpledb/IntegerAggregator.java:108-125 | storing one group's statistic changes that group's entry of the running map only |
| Aggregation.ResultMapUpdate | acmdb-lab5/src/java/simpledb/IntegerAggregator.java:136 | replacing one group's output tuple changes that group's entry of the result map only |
| Aggregation.InvStep | acmdb-lab5/src/java/simpledb/IntegerAggregator.java:101-137 | merging one value into a group keeps every running map equal to the statistics of the merged values |
| Aggregation.MergeAvg | acmdb-lab5/src/java/simpledb/IntegerAggregator.java:107-111 | the count and sum maps and the group's output step to the values with the new one; the invariant holds |
| Aggregation.MergeCount | acmdb-lab5/src/java/simpledb/IntegerAggregator.java:112-115 | the same for COUNT's map |
| Aggregation.MergeSum | acmdb-lab5/src/java/simpledb/IntegerAggregator.java:116-119 | the same for SUM's map |
| Aggregation.MergeMin | acmdb-lab5/src/java/simpledb/IntegerAggregator.java:120-123 | the same for MIN's map |
| Aggregation.MergeMax | acmdb-lab5/src/java/simpledb/IntegerAggregator.java:124-127 | the same for MAX's map |
| Aggregation.MergeUnmapped | acmdb-lab5/src/java/simpledb/IntegerAggregator.java:106-128 | an operator with no case changes no running map and reports 0 |
| Aggregation.Merge | acmdb-lab5/src/java/simpledb/IntegerAggregator.java:106-136 | after any operator's step the group's values gain the value, its output tuple is replaced, and the invariant holds |
| Aggregation.IntegerAggregator.constructor | acmdb-lab5/src/java/simpledb/IntegerAggregator.java:35-83 | allocates exactly the maps the operator uses; no group yet |
| Aggregation.IntegerAggregator.MergeTupleIntoGroup | acmdb-lab5/src/java/simpledb/IntegerAggregator.java:101-137 | the tuple's group gains its aggregate value, and the group's output tuple becomes its aggregate over all merged values |
| Aggregation.IntegerAggregator.Iterator | acmdb-lab5/src/java/simpledb/IntegerAggregator.java:147-150 | yields exactly one output tuple per group seen, holding that group's aggregate. Under MIN (MAX) that aggregate is one of the group's values and no larger (smaller) than any. Under AVG without overflow it lies between the group's MIN and MAX |
| Join.Matching | acmdb-lab5/src/java/simpledb/HashEquiJoin.java:64-71 | a bucket holds only left tuples whose join field equals its key |
| Join.MatchingComplete | acmdb-lab5/src/java/simpledb/HashEquiJoin.java:64-71 | every left tuple with that join value is in the bucket |
| Join.BuildSpec | acmdb-lab5/src/java/simpledb/HashEquiJoin.java:62-71 | the table has a key iff some left tuple has it, and maps it to exactly those tuples in child order |
| Join.Pairs | acmdb-lab5/src/java/simpledb/HashEquiJoin.java:122-133 | one output per bucket tuple, in order, each the bucket tuple followed by the right tuple |
| Join.ProbeBuiltIsEquiJoin | acmdb-lab5/src/java/simpledb/HashEquiJoin.java:107-138 | probing the built table with the right tuples gives the nested-loops equi-join |
| Join.EquiJoinMembers | acmdb-lab5/src/java/simpledb/HashEquiJoin.java:107-138 | an output is a left tuple followed by a right tuple with equal join fields, and every such pair is output |
| Join.ProbeStep | acmdb-lab5/src/java/simpledb/HashEquiJoin.java:114-120 | taking the next right tuple and looking up its bucket loses no output |
| Join.EmitStep | acmdb-lab5/src/java/simpledb/HashEquiJoin.java:122-133 | emitting the next bucket tuple merged with t2 consumes exactly the first remaining output |
| Join.DropStep | acmdb-lab5/src/java/simpledb/HashEquiJoin.java:134-136 | dropping an exhausted bucket loses no output |
| Join.MergeTuples | acmdb-lab5/src/java/simpledb/HashEquiJoin.java:124-132 | the merged tuple has the left fields first, then the right ones |
| Join.HashEquiJoin.constructor | acmdb-lab5/src/java/simpledb/HashEquiJoin.java:31-37 | empty table, no probe in progress |
| Join.HashEquiJoin.Open | acmdb-lab5/src/java/simpledb/HashEquiJoin.java:59-74 | the table becomes the build of the left child, and child2 starts over |
| Join.HashEquiJoin.OpenedProducesEquiJoin | acmdb-lab5/src/java/simpledb/HashEquiJoin.java:59-74 | after open, with no probe pending, the outputs to come are the equi-join of the children |
| Join.HashEquiJoin.Close | acmdb-lab5/src/java/simpledb/HashEquiJoin.java:76-82 | empties the table |
| Join.HashEquiJoin.Rewind | acmdb-lab5/src/java/simpledb/HashEquiJoin.java:84-87 | rewinds child2 only and keeps the table; with no probe pending the outputs to come are the table probed with all of child2 |
| Join.HashEquiJoin.ProbeNext | acmdb-lab5/src/java/simpledb/HashEquiJoin.java:111-120 | takes one right tuple without losing outputs |
| Join.HashEquiJoin.AdvanceRight | acmdb-lab5/src/java/simpledb/HashEquiJoin.java:110-121 | finds a right tuple with a bucket, or exhausts child2 exactly when no output is left |
| Join.HashEquiJoin.Emit | acmdb-lab5/src/java/simpledb/HashEquiJoin.java:122-133 | returns the first output to come and removes it |
| Join.HashEquiJoin.FetchNext | acmdb-lab5/src/java/simpledb/HashEquiJoin.java:107-138 | returns the first output to come and removes it, or null once none is left |
| HeapFiles.NumPages | src/java/simpledb/HeapFile.java:97-100 | the page count is the number of whole pages in the file: n pages fit and n + 1 do not |
| HeapFiles.NumPagesCountsWholePages | src/java/simpledb/HeapFile.java:97-100 | the count is exact iff the length is a multiple of the page size; otherwise the trailing partial page is not counted |
| HeapFiles.PageOffset | src/java/simpledb/HeapFile.java:78 | a page starts on a page boundary whose index is its page number |
| HeapFiles.PageWithinFile | src/java/simpledb/HeapFile.java:78 | a page lies wholly inside the file iff its number is below numPages |
| HeapFiles.PagesDisjoint | src/java/simpledb/HeapFile.java:78 | distinct pages occupy disjoint byte ranges in page order |
| HeapFiles.ReadAt | src/java/simpledb/HeapFile.java:77-79 | one page-size buffer: the file's bytes from the offset, zero past the end of the file |
| HeapFiles.FileOfPagesCount | src/java/simpledb/HeapFile.java:97-100 | a file written as n whole pages has n pages |
| HeapFiles.FileOfPagesRead | src/java/simpledb/HeapFile.java:73-86 | reading page i of a file written as whole pages returns page i |
| HeapFiles.FlattenWholePages | src/java/simpledb/HeapFile.java:78 | byte k of page i sits at i times the page size plus k |
| HeapFiles.OffsetAsWritten | src/java/simpledb/HeapFile.java:78 | the offset in 32-bit arithmetic agrees with the true offset while it fits in an int |
| HeapFiles.ReadPageAsWritten | src/java/simpledb/HeapFile.java:73-86 | the read fails iff the 32-bit offset is negative, and otherwise reads at that offset |
| HeapFiles.AsWrittenReadsWrongPage | src/java/simpledb/HeapFile.java:78 | in a file of more than 2^20 pages, page 2^20 is read from byte 0, so its read returns page 0 |
| HeapFiles.AsWrittenFailsPastTwoGigabytes | src/java/simpledb/HeapFile.java:78 | in a file of more than 2^19 pages, reading page 2^19 fails although it lies in the file |
| HeapFiles.ScanIsFlatten | src/java/simpledb/HeapFile.java:139-165 | scanning a range of pages yields the concatenation of their tuples |
| HeapFiles.ScanExtend | src/java/simpledb/HeapFile.java:141-149 | one more page at the end of a scan adds its tuples at the end |
| HeapFiles.ScanMembers | src/java/simpledb/HeapFile.java:139-165 | a tuple is scanned iff some page in the range holds it |
| HeapFiles.OpenScansWholeFile | src/java/simpledb/HeapFile.java:133-165 | an opened scan of n pages yields the tuples of pages 0 to n-1, in order |
| HeapFiles.HeapFileIterator.constructor | src/java/simpledb/HeapFile.java:124-130 | numPages is fixed from the file length; the cursor is null and nothing is available |
| HeapFiles.HeapFileIterator.Open | src/java/simpledb/HeapFile.java:133-136 | the cursor is on page 0 and the tuples to come are the whole scan |
| HeapFiles.HeapFileIterator.Close | src/java/simpledb/HeapFile.java:173-177 | the cursor is null and nothing is left |
| HeapFiles.HeapFileIterator.Rewind | src/java/simpledb/HeapFile.java:167-171 | the same state as open: cursor on page 0 and the whole scan to come |
| HeapFiles.SkipExhaustedPages | src/java/simpledb/HeapFile.java:141-149 | see the SkipExhaustedPages note below the table |
| HeapFiles.HeapFileIterator.HasNext | src/java/simpledb/HeapFile.java:139-155 | see the HeapFileIterator.HasNext note below the table |
| HeapFiles.HeapFileIterator.Next | src/java/simpledb/HeapFile.java:157-165 | returns the first tuple to come and removes it; when none is left it fails with NoSuchElement |
| HeapFiles.HeapFileIterator.TakeTuple | src/java/simpledb/HeapFile.java:160 | the current page's next tuple is the first tuple to come |
| Deletion.DeleteEach | acmdb-lab5/src/java/simpledb/Delete.java:73-83 | see the Deletion.DeleteEach note below the table |
| Deletion.Delete.constructor | acmdb-lab5/src/java/simpledb/Delete.java:27-33 | fetched starts set, so nothing is returned before open |
| Deletion.Delete.Open | acmdb-lab5/src/java/simpledb/Delete.java:40-45 | the child starts over and fetched is cleared |
| Deletion.Delete.Close | acmdb-lab5/src/java/simpledb/Delete.java:47-52 | fetched is set, so later fetches return nothing |
| Deletion.Delete.Rewind | acmdb-lab5/src/java/simpledb/Delete.java:54-58 | the child starts over and fetched is cleared, so the next fetch deletes again |
| Deletion.Delete.FetchNext | acmdb-lab5/src/java/simpledb/Delete.java:69-84 | see the Delete.FetchNext note below the table |

Notes on rows with longer contracts:

- **HeapFileIterator.HasNext**
  - It answers whether a tuple is left, and consumes nothing.
  - A null cursor answers false.
  - The cursor only moves forward, and never past the last page.
  - It moves only over exhausted pages.
  - A true answer leaves the current page's iterator non-empty.
  - A false answer on an open iterator leaves the cursor on the last page, with that page exhausted.
- **SkipExhaustedPages**
  - The cursor stays before the scan's end.
  - The tuples still to come, the current page's rest followed by the later pages, are unchanged.
  - An empty rest means the cursor is on the last page.
  - It moves only when the starting page had nothing left. It then passes only pages with no tuples and starts on the new page's tuples.
- **Deletion.DeleteEach**
  - Without a failure it deletes every remaining child tuple in order and returns a one-field tuple holding their count, as a Java int.
  - When deletion k throws, it deletes the first k tuples, consumes k + 1 and returns a DbException.
- **Delete.FetchNext**
  - When fetched is set it returns null and changes nothing.
  - Otherwise it sets fetched, deletes every tuple the child has left, and returns their count, or a DbException at the first failing deletion.

## Left out

**Concurrency and timing** (`BufferPool.java` lines 88-100, 114-117 and 161-165)

- The model is sequential, and `synchronized` and `ConcurrentHashMap` are not modelled.
- `block`, `wait(timeout)`, the clock and the random timeout are left out. A request that must wait is one `MustWait` step of `acquireLock`, and `getPage` reports it as `TransactionAborted`: in a sequential run nothing can release the lock during the wait.
- As a consequence, two issues are not modelled:
  - `nextInt(Timeout + 1)` may pick a timeout of 0, and `wait(0)` waits without limit;
  - `releaseLock` does not `notifyAll` when it deletes a record.

**BufferPool (`BufferPool.java`)**

- Lock records and pages are values, not objects. Java mutates an `ObjLock` in place: `tryUpgradeLock` sets its type at line 58, and `addHolder` and `releaseLock` change its holder list at lines 67 and 160. The model replaces the record in the lock table instead. `getPage` returns the cached `Page` object itself (line 259), `insertTuple`/`deleteTuple` mark pages dirty in place (lines 356 and 381), and `flushPage` marks a page clean (line 427). The model writes each marked page back into the cache map. Aliasing is not modelled: a caller that changes the page `getPage` returned changes the cached copy in Java, but not in the model.
- Locking.Acquire: line 256 calls `LockManager.acquireLock` through the class name. The model uses the pool's own lock manager, as intended.
- Locking.Acquire: lines 127 and 135 compare `TransactionId` references with `==`. The model compares ids.
- Buffering.BufferPool.EvictPage: the IOException that line 458 catches is not modelled, since the model's disk writes do not fail. The source then leaves the page cached and lets the cache exceed `numPages`.
- Buffering.BufferPool.EvictPage: the victim is the first key the map enumerates. The model lets it be any cached page.
- Buffering.BufferPool.GetPage: the catalog lookup and `readPage` are a lookup in the disk map. A missing page is `NoSuchPage`.
- Buffering.BufferPool.InsertTuple: the table file's `insertTuple` is a parameter, the pages it reports as modified. Its own errors are not modelled.
- Buffering.BufferPool.DeleteTuple: the same holds for the table file's `deleteTuple`.
- Buffering.BufferPool.FlushAllPages: the map enumeration's order is not modelled. The result is proved equal for every order.
- The static `getPageSize`/`setPageSize` test hooks are left out. The page size is the constant 4096.

**IntegerAggregator (`IntegerAggregator.java`)**

- Aggregation.IntegerAggregator.MergeTupleIntoGroup: its precondition rules out two error paths.
  - An AVG group whose count has wrapped to 0 after 2^32 merges: Java would throw ArithmeticException.
  - An aggregate field that is not an IntField: Java would throw ClassCastException.
- The `TupleDesc` and field-name plumbing is left out, so the output tuple is not given a schema.
- Aggregation.IntegerAggregator.Iterator: it returns the set of output tuples. The `TupleIterator` class is not part of this model.

**HashEquiJoin (`HashEquiJoin.java`)**

- Join.HashEquiJoin.FetchNext: the join predicate's operator is ignored, as in the source. The probe matches by equal join fields.
- `getTupleDesc`, the field-name getters, `getChildren` and `setChildren` are left out. They are schema plumbing.
- The child operators' own errors (`DbException`, `TransactionAbortedException`) are not modelled.

**HeapFile (`HeapFile.java`)**

- HeapFiles.NumPages: the `(int)` cast is not modelled. It matters only past 2^31 pages.
- `getId`, the hash code of the file's path, is a parameter of the iterator.
- `writePage`, `insertTuple` and `deleteTuple` are stubs in this file and are left out.
- HeapFiles.ReadAt: one `read` call is assumed to fill the buffer up to the end of the file.
- The parse of the bytes into a `HeapPage` is not modelled. `HeapPage.java` is not part of this model. The iterator is given each page's tuples instead. Pages past the given ones read as empty, like the zero-filled page that `readPage` returns past the end of the file.
- HeapFiles.HeapFileIterator.HasNext: the buffer pool's `getPage` is assumed to grant every READ_ONLY request. Its `TransactionAbortedException` and `DbException` are not modelled.
- HeapFiles.HeapFileIterator.HasNext: the loop that advances pageCursor and tupleIter runs on local copies in SkipExhaustedPages, and the fields are assigned once it ends. No other code observes them in between.

**Delete (`Delete.java`)**

- Deletion.DeleteEach: the buffer pool's `deleteTuple` is recorded as the sequence of tuples handed to it. Its effect on the cache is `Buffering.BufferPool.DeleteTuple`.
- Deletion.DeleteEach: which deletion throws IOException is a parameter.
- `getTupleDesc`, `getChildren` and `setChildren` are left out. They are plumbing.

**TableStats.java** is not part of this model. It is a scan over I/O with floating-point selectivity estimates.

## Findings

| source | as written | input that shows it | evidently intended | confidence | as-written member | corrected member |
|---|---|---|---|---|---|---|
| acmdb-lab5/src/java/simpledb/BufferPool.java:123 | `addHolder` runs only inside an `assert`. With assertions disabled (the JVM default) a shared request records pid in tid's inventory but never adds tid to the holders | T1 and T2 read page P, then T1 releases P. P's record is deleted while T2 still holds P, and T3 is then granted an exclusive lock on P | the second reader joins the holders, so the invariant and mutual exclusion hold | high; not executed | Locking.AsWrittenSharedLockLost | Locking.AcquirePreservesConsistent |
| acmdb-lab5/src/java/simpledb/BufferPool.java:422 | `ConcurrentHashMap.contains(pid)` tests the values (pages), not the keys, so `flushPage` never writes | a transaction that dirtied page P commits. P is dropped from the cache by the abort loop and the disk keeps the old bytes | key membership, as the method's comment says, so commit writes the dirty pages back | high; not executed | Buffering.CommitAsWrittenLosesWrite | Buffering.CommitWritesBack |
| src/java/simpledb/HeapFile.java:78 | `pageNumber() * getPageSize()` is an `int` product. It wraps before `seek` widens it to a long | page 2^20 of a file larger than 4 GiB is read from offset 0, returning page 0. Page 2^19 of a file larger than 2 GiB seeks to a negative offset and fails | a 64-bit offset, so every page inside the file can be read | high; not executed | HeapFiles.AsWrittenReadsWrongPage | HeapFiles.FileOfPagesRead |
