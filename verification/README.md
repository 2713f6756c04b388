# kfs, modelled and verified

kfs is a FUSE file system in the ext4 disk format whose disk is served over
vhost-user. This project models the parts of it that carry state which must
survive something (a crash, an eviction, a rehash, a wrap-around) and proves
what they keep. `dafny verify dfyconfig.toml` checks all of it.

- **Virtqueues** (`Vring`, `RingIndex`, `Inflight`, `CrashSafety`, `FetchOrder`,
  `VuVirtq`). The device side of a split virtqueue with the in-flight log that
  survives the process. `Inflight` is a state machine whose steps are single
  stores, with a crash possible between any two, also inside recovery; requests
  are numbered by an unbounded history, and the 16-bit ring fields are shown to
  be its wrapped counters. `VuVirtq` is the same code as an object with the
  source's fields, tied to the step machine call by call.
- **Guest memory** (`Regions`, `ChainMap`, `ChainMeaning`, `DirtyLog`). The sorted
  region table with its bisections, descriptor chains mapped to host runs, and
  the dirty-page log. `ChainMeaning` says in bytes what an accepted chain is.
- **Scatter/gather cursor** (`SgCursor`). A queue of slices against one flat string.
- **Hash table** (`HashTable`). Chains in an explicit node memory, relinked in place
  on rehash, against a finite map.
- **Directory blocks** (`DirBlock`, `DirBuffer`). The byte-level record chain against
  a list of entries.
- **Inode cache** (`InodeCache`, `InodeSlots`). The write-back cache against a plain
  store of live inodes, on the inode slots `inode_get_offset` computes. The slots of
  a formatted disk are the formatter's own, so the refinement holds on exactly the
  disks whose slots are apart. The cache is the only writer in it: whether directory
  blocks share bytes with slots is a condition of its own.
- **Blocks** (`Bits`, `BlockAlloc`, `BlockBitmap`, `Mkfs`). The four-block allocator
  over the layout the formatter writes.
- **Block lookup and file bytes** (`Extents`, `Indirect`, `FileIO`).

`Common` holds the few definitions that several modules use.

Where the code and what its comments or names promise differ, the model follows
the code:

- inodes share slots across groups unless there is one group or the inodes of a group
  fill whole blocks, and then a write-back overwrites another inode
  (`Mkfs.SlotsDisjointIff`, `InodeSlots.FormattedCacheIff`, `InodeSlots.LostAt700MiB`).
- inode slots past the last table lie in the root directory unless the inodes of a
  group fill whole blocks or the tables do not end on a multiple of four blocks
  (`Mkfs.SlotsBelowDataIff`, `InodeSlots.RootUntouchedIff`,
  `InodeSlots.LostRootAt288Blocks`). `Mkfs.SlotsApartIff` is both conditions at once.
- `bitmap_pblock_count` counts clear bits as used (`BlockBitmap.DBitmap.PblockCount`,
  `Mkfs.FormattedMiscounted`).
- the bitmap of a partly filled last group offers blocks past the end of the disk
  (`Mkfs.OffersOnDiskIff`, `Mkfs.SmallestImage`), and an inode table is rounded down to
  whole blocks (`Mkfs.SlotsInTableIff`).
- `op_write` returns the length of its last block write (`FileIO.LastWriteIff`,
  `FileIO.TwoBlockWrite`) and shrinks a file when the range ends before its end
  (`FileIO.OpenFile.OpWrite`, `FileIO.ShrinkingWrite`).
- `op_read` takes as many blocks as an extent has also when it enters it in its middle,
  so it returns the file's bytes exactly when each turn's blocks are consecutive on the
  disk (`FileIO.ReadsFileIff`, `FileIO.MisreadInMiddle`), and `truncate_size` returns a
  negative error as a size (`FileIO.OpenFile.Truncated`, `FileIO.ReadPastEnd`).
- a lookup in a gap between extents wraps in 32 bits, and an extent that ends at block
  2^32 is never found (`Extents.BlockFromEes`, `Extents.LookupInGap`,
  `Extents.LookupAtLimit`).
- no caller of `bitmap_pblock_find` tests for its all-ones result; on a full disk the
  assertion of `bitmap_pblock_set` fails (`BlockBitmap.DBitmap.Allocate`).
- the callback of `consume` may get slices longer than `count` in all, not at most
  `count` as its comment says (`SgCursor.HandedAtMostIff`, `SgCursor.HandedMore`).
- a push on a broken device drops the request from the in-flight log without
  completing it (`VuVirtqObject.BrokenPushLoses`).
- the shrink threshold of the hash table is a quarter in integer arithmetic, so it
  shrinks when it becomes empty (`HashTableModel.HashTable.Erase`).
- the in-flight comparison is no order once counters span 2 * VIRTQUEUE_MAX_SIZE
  (`FetchOrder.ConsistentIffNarrow`).
- a batch published with `vu_queue_flush` leaves its in-flight marks, so recovery can
  find more of them than there are requests outstanding (`RingIndex.RecoverKeepsIff`,
  `RingIndex.BatchLeavesMarks`).
- translation can run past its region when the range wraps
  (`Regions.TranslateInsideIff`), and such a buffer is accepted when its first byte is
  mapped (`ChainMeaning.MapRunsSomeIff`, `ChainMeaning.WrappedRun`) while its pages are
  not logged (`DirtyLog.MarksIff`, `DirtyLog.WrappedUnmarked`).

Conditions of the models, all as the code needs them: queue sizes are powers of
two up to 1024; regions are nonempty and do not wrap; the driver reuses a head
only after its completion was read; the hint group of a block search is not the
last one unless it has a free extent; directories are one block and names have
1 to 255 bytes; every change of a cached inode is followed by its dirty mark.

## Model

| member | source | states |
|---|---|---|
| `CrashSafety.StepKeeps` | include/libvhost-user/libvhost-user.c:2878-2931 | every single store of pop, push and recovery, every driver step and a crash at any point keep the invariant that ties the in-flight log, the rings and the volatile fields to the request history |
| `CrashSafety.ExactlyOnce` | include/libvhost-user/libvhost-user.c:2878-2989 | in every state reached by any interleaving with any number of crashes: no request is completed twice, a fetched request is completed or in flight and never both, unread used entries name the completed requests, and the device never panics on a well-behaved driver |
| `CrashSafety.RecoveryIsExact` | include/libvhost-user/libvhost-user.c:1331-1399 | after any history of crashes, recovery's resubmit list holds once each exactly the heads marked in flight and not yet published, and the next avail entry to pop is the first one never marked |
| `CrashSafety.NewQueueIsInit` | include/libvhost-user/libvhost-user.c:1340-1348 | a new queue of any size is a start the run theorems apply to |
| `CrashSafety.ScanIsExact` | include/libvhost-user/libvhost-user.c:1363-1391 | the sorted scan of the log enumerates exactly the heads in flight, without repetition |
| `CrashSafety.FetchIsNext` | include/libvhost-user/libvhost-user.c:2956-2970 | a pop that passes the emptiness test reads the oldest unfetched submission and is never refused for exceeding the queue size |
| `CrashSafety.FetchedHeadIsNew` | include/libvhost-user/libvhost-user.c:2970-2972 | a head about to be fetched is not in flight |
| `CrashSafety.FillContents` | include/libvhost-user/libvhost-user.c:3018-3029 | filling the next used slot overwrites no entry the driver has yet to read |
| `FetchOrder.ConsistentIffNarrow` | include/libvhost-user/libvhost-user.c:1317-1329 | the comparison decides every pair one way if and only if the counters are distinct and span less than 2 * VIRTQUEUE_MAX_SIZE |
| `FetchOrder.WideSpanUndecided` | include/libvhost-user/libvhost-user.c:1317-1329 | counters at least 2 * VIRTQUEUE_MAX_SIZE apart compare as less both ways, so either order is a sort result |
| `FetchOrder.SortedDescends` | include/libvhost-user/libvhost-user.c:1386-1389 | a consistent sort runs from the largest counter to the smallest |
| `FetchOrder.ScanOrder` | include/libvhost-user/libvhost-user.c:1371-1391 | recovery lists the heads in reverse fetch order and restores a counter above every stamp in flight |
| `FetchOrder.FetchOrderKept` | include/libvhost-user/libvhost-user.c:2944-2954 | in every state of every run with narrow counters, successive pops from the resubmit list return heads in their original fetch order and the running counter exceeds every counter in flight |
| `VuVirtqObject.PushIsRun` | include/libvhost-user/libvhost-user.c:3142-3150 | a tracked push in one call ends where its five stores of the crash model end |
| `VuVirtqObject.PopIsRun` | include/libvhost-user/libvhost-user.c:2956-2985 | a pop from the avail ring ends where its three fetch steps end |
| `VuVirtqObject.RecoverIsRun` | include/libvhost-user/libvhost-user.c:1331-1399 | recovery in one call is a run of recovery steps of the crash model |
| `VuVirtqObject.Qsort` | include/libvhost-user/libvhost-user.c:1386-1389 | a permutation, ordered when the comparison decides every pair one way |
| `VuVirtqObject.VuVirtq.constructor` | include/libvhost-user/libvhost-user.c:2271-2303 | a new queue of any size is valid and is the start of the run theorems |
| `VuVirtqObject.VuVirtq.QueueEmpty` | include/libvhost-user/libvhost-user.c:2573-2585 | refreshes the cached index only when it equals last_avail_idx, and answers emptiness; a broken device is empty and unchanged |
| `VuVirtqObject.VuVirtq.QueuePop` | include/libvhost-user/libvhost-user.c:2933-2989 | the element is the mapped chain of the head returned; the whole new queue state in each branch: broken, resubmission, empty, queue size exceeded, bad head or unmappable chain, and success with the log entry made; the avail-event index is stored exactly when a head was read and both features are on |
| `VuVirtqObject.VuVirtq.ReadHead` | include/libvhost-user/libvhost-user.c:2956-2976 | the next avail head and the new indices, or none: unbroken on an empty ring, broken for a queue size exceeded or a bad head; and the avail-event store |
| `VuVirtqObject.VuVirtq.TakeHead` | include/libvhost-user/libvhost-user.c:2978-2985 | the chain of the head; counted and logged exactly when it maps, else the device breaks |
| `VuVirtqObject.VuVirtq.InflightGet` | include/libvhost-user/libvhost-user.c:2878-2893 | stamps and marks the entry of the head, or nothing without tracking |
| `VuVirtqObject.VuVirtq.PopOldest` | include/libvhost-user/libvhost-user.c:2933-2989 | in any reachable state a pop from the avail ring returns the mapped chain of the oldest request not yet fetched |
| `VuVirtqObject.VuVirtq.PopDrained` | include/libvhost-user/libvhost-user.c:2956-2958 | in any reachable state with every request fetched a pop returns nothing and leaves device and queue as they are |
| `VuVirtqObject.VuVirtq.PopExact` | include/libvhost-user/libvhost-user.c:2933-2989 | a pop breaks the device if and only if there is an entry to take and that is no index or its chain does not map; head, element, indices, use count, resubmit list and avail-event index in every case |
| `VuVirtqObject.HeadReadExact` | include/libvhost-user/libvhost-user.c:2956-2976 | on the true counters: nothing from an empty ring, else the next entry, refused if and only if it is no index |
| `VuVirtqObject.FetchIsPop` | include/libvhost-user/libvhost-user.c:2956-2985 | a fetch that succeeds is the pop of the crash model |
| `VuVirtqObject.VuVirtq.QueueUnpop` | include/libvhost-user/libvhost-user.c:2999-3005 | undoes one pop of the indices |
| `VuVirtqObject.VuVirtq.QueueRewind` | include/libvhost-user/libvhost-user.c:3007-3016 | takes back `num` pops, refused when more than are in use |
| `VuVirtqObject.VuVirtq.QueueFill` | include/libvhost-user/libvhost-user.c:3090-3108 | writes one used entry at used_idx + idx modulo the queue size and nothing else |
| `VuVirtqObject.VuVirtq.QueueFlush` | include/libvhost-user/libvhost-user.c:3121-3140 | publishes the index, lowers inuse and drops the signal validity by the signed 16-bit comparison |
| `VuVirtqObject.VuVirtq.QueuePush` | include/libvhost-user/libvhost-user.c:3142-3150 | with tracking, the five-store push of the crash model; without, a fill at 0 and a flush of 1; on a broken device only the in-flight fields move |
| `VuVirtqObject.PushPublishes` | include/libvhost-user/libvhost-user.c:3142-3150 | with and without tracking the element, its length included, becomes the next used entry and no other entry changes |
| `VuVirtqObject.BrokenPushLoses` | include/libvhost-user/libvhost-user.c:3142-3150 | a push on a broken device clears the request's mark and publishes nothing |
| `VuVirtqObject.VuVirtq.VringNotify` | include/libvhost-user/libvhost-user.c:2587-2611 | the decision and the recorded signal of the notification theorem; on a broken device the emptiness test is true without reading |
| `VuVirtqObject.VuVirtq.Resettle` | include/libvhost-user/libvhost-user.c:1350-1361 | reads the used index back and finishes an interrupted completion when the log lags it |
| `VuVirtqObject.VuVirtq.CountMarked` | include/libvhost-user/libvhost-user.c:1363-1367 | inuse grows by the number of marked entries |
| `VuVirtqObject.VuVirtq.BuildResubmit` | include/libvhost-user/libvhost-user.c:1371-1391 | the resubmit list is a sort of the marked entries and the counter is one past its first |
| `VuVirtqObject.VuVirtq.PlaceIndices` | include/libvhost-user/libvhost-user.c:1363-1369 | both avail indices become used_idx plus inuse in 16 bits |
| `VuVirtqObject.VuVirtq.ScanLog` | include/libvhost-user/libvhost-user.c:1363-1391 | rebuilds inuse, last_avail_idx, the shadow index, the resubmit list and the counter from the log, whatever inuse was |
| `VuVirtqObject.ScannedOverDistance` | include/libvhost-user/libvhost-user.c:1363-1391 | whatever inuse was, afterwards it is the index distance in 16 bits |
| `VuVirtqObject.VuVirtq.CheckQueueInflights` | include/libvhost-user/libvhost-user.c:1331-1399 | without tracking nothing changes, on a log of version 0 only the version does, else settle and scan; on a cleared queue that is the recovery of the crash model |
| `RingIndex.EmptyAgrees` | include/libvhost-user/libvhost-user.c:2573-2585 | the test with the cached index answers what reading avail.idx directly would |
| `RingIndex.InuseIsDistance` | include/libvhost-user/libvhost-user.c:2956-2985 | inuse is last_avail_idx - used_idx modulo 2^16 and at most the queue size, and a pop that finds an entry is below it |
| `RingIndex.StepKeeps` | include/libvhost-user/libvhost-user.c:2933-3016 | driver additions, emptiness tests, pops, unpops, rewinds, flushes of at most inuse, notifications, stores to the log and recoveries with at most as many marks as buffers outstanding keep the 16-bit fields equal to the wrapped true counters |
| `RingIndex.RecoveredInuse` | include/libvhost-user/libvhost-user.c:1363-1391 | from any log, recovery leaves inuse equal to the wrapped index distance and at most the queue size |
| `RingIndex.RecoverKeeps` | include/libvhost-user/libvhost-user.c:1350-1391 | with at most as many marks as buffers outstanding, recovery keeps the fields equal to the wrapped counters |
| `RingIndex.RecoverKeepsIff` | include/libvhost-user/libvhost-user.c:1350-1391 | recovery keeps them if and only if there are no more marks than buffers outstanding; with more, the recovered queue is not empty although nothing is left to fetch |
| `RingIndex.BatchLeavesMarks` | include/libvhost-user/libvhost-user.c:3121-3140 | two requests published by one flush leave a mark that recovery replays: a concrete queue |
| `RingIndex.RingIndexTheorem` | include/libvhost-user/libvhost-user.c:2933-3140 | over every run, recoveries included, the 16-bit fields are the wrapped counters of the run, inuse is the wrapped index distance and at most the queue size, and the cached emptiness test is exact |
| `RingIndex.FlushValidity` | include/libvhost-user/libvhost-user.c:3133-3139 | signal validity survives a flush exactly when the true distance from the last signalled index stays below 2^15 |
| `RingIndex.NotifyExact` | include/libvhost-user/libvhost-user.c:2587-2611 | outside the notify-on-empty case, with event indices, the driver is notified when validity is lost and otherwise exactly when used_event is among the entries published since the last signal, across every 16-bit wrap |
| `RingIndex.NotifyIff` | include/libvhost-user/libvhost-user.c:2587-2611 | for every combination of features: notified in the notify-on-empty case, else by event index or by the driver's flag; the signal is recorded exactly when event indices decide |
| `RingIndex.NotifyAfterRun` | include/libvhost-user/libvhost-user.c:2587-2611 | the same decision at the end of any run, for every combination of features, against the entries the run published since its last signal |
| `RingIndex.NotifyOnEmpty` | include/libvhost-user/libvhost-user.c:2596-2600 | in the notify-on-empty case the driver is always notified |
| `RingIndex.PopsUndone` | include/libvhost-user/libvhost-user.c:2999-3016 | unpop takes back one pop and rewind any number of them, across the 16-bit wrap |
| `RingIndex.RewindIff` | include/libvhost-user/libvhost-user.c:3007-3016 | a rewind is refused, and then changes nothing, if and only if it exceeds what is in use |
| `RingIndex.FlushSplits` | include/libvhost-user/libvhost-user.c:3121-3140 | publishing n + 1 entries at once is publishing n and then one, signal validity included |
| `RingIndex.FillPlaces` | include/libvhost-user/libvhost-user.c:3018-3029 | a fill writes the element `idx` places past the entries published and nothing else |
| `RingIndex.BatchEquivalence` | include/libvhost-user/libvhost-user.c:3090-3150 | fills at offsets 0..n-1 and one flush(n) leave the same queue as n single pushes |
| `Regions.OnlyHit` | include/libvhost-user/libvhost-user.c:200-230 | in an ordered table any region that covers the address is the one the linear scan finds |
| `Regions.VuDev.GpaToMemRegion` | include/libvhost-user/libvhost-user.c:200-230 | the bisection returns what a linear scan returns, for every address |
| `Regions.VuDev.GpaToVa` | include/libvhost-user/libvhost-user.c:232-252 | the translated address and the length clipped at the region end |
| `Regions.TranslateInsideIff` | include/libvhost-user/libvhost-user.c:247-249 | a translated run stays inside its region if and only if the requested range does not wrap past 2^64 |
| `Regions.VuDev.InsertionPoint` | include/libvhost-user/libvhost-user.c:407-428 | the bisection, which probes only some entries, refuses exactly the regions that overlap some entry and otherwise returns the ordered position |
| `Regions.VuDev.OpenHole` | include/libvhost-user/libvhost-user.c:469-471 | the entries from the position on move up by one, the others stay |
| `Regions.VuDev.CloseHole` | include/libvhost-user/libvhost-user.c:1061-1070 | the entries above the position move down by one, the others stay |
| `Regions.InsertKeepsOrder` | include/libvhost-user/libvhost-user.c:469-477 | inserting a non-overlapping region keeps the table sorted and disjoint |
| `Regions.RemoveKeepsOrder` | include/libvhost-user/libvhost-user.c:1061-1070 | removing a region keeps the table sorted and disjoint |
| `Regions.AddThenRemove` | include/libvhost-user/libvhost-user.c:375-486 | adding a region and removing it again gives the table back |
| `Regions.VuDev.constructor` | include/libvhost-user/libvhost-user.c:2271-2279 | an empty table, not broken |
| `Regions.VuDev.AddMemReg` | include/libvhost-user/libvhost-user.c:375-486 | the region enters at its ordered place unless it overlaps or mmap fails, and the device breaks exactly then |
| `Regions.VuDev.HotAdd` | include/libvhost-user/libvhost-user.c:966-997 | a full table is refused; otherwise as the add; the device breaks exactly when the region is not added |
| `Regions.VuDev.RemMemReg` | include/libvhost-user/libvhost-user.c:1011-1071 | removes exactly the region found at the address when its address, mapping and size agree, else breaks the device and keeps the table |
| `Regions.VuDev.SetMemTable` | include/libvhost-user/libvhost-user.c:1091-1103 | forgets every region and adds those of the message in turn, leaving out the ones that overlap an earlier one or cannot be mapped, and breaks the device exactly then |
| `Regions.TableOfExact` | include/libvhost-user/libvhost-user.c:1091-1103 | a region of the message is kept if and only if it could be mapped and overlaps no kept region before it, and the table is the kept ones in order |
| `ChainMap.MapDesc` | include/libvhost-user/libvhost-user.c:2725-2761 | a buffer becomes its region-by-region runs, refused when empty, unmapped or out of slots |
| `ChainMap.MapChain` | include/libvhost-user/libvhost-user.c:2785-2876 | terminates on every table, cyclic ones included, with the element of the walked chain or the error |
| `ChainMap.QueueMapDesc` | include/libvhost-user/libvhost-user.c:2785-2876 | the element of the chain at the head; an indirect head walks the table it points to, and a length that is no multiple of a descriptor is refused |
| `ChainMeaning.MapRunsExactIff` | include/libvhost-user/libvhost-user.c:2725-2761 | the runs appended for an accepted buffer are its translation byte by byte, in order and without gaps, if and only if it does not end past 2^64 |
| `ChainMeaning.MapRunsSomeIff` | include/libvhost-user/libvhost-user.c:2725-2761 | a buffer is accepted if and only if every byte of it is mapped, or, when it ends past 2^64, the first one is, and its runs fit; it takes that many slots |
| `ChainMeaning.RunCountIsRegions` | include/libvhost-user/libvhost-user.c:2725-2761 | a mapped buffer takes as many runs as regions meet it |
| `ChainMeaning.WrappedRun` | include/libvhost-user/libvhost-user.c:247-249 | a buffer that ends past 2^64 is one run of its whole length, or none |
| `ChainMeaning.NothingMapsPastEnd` | include/libvhost-user/libvhost-user.c:247-249 | and no list of addresses translates it |
| `ChainMeaning.ChainSound` | include/libvhost-user/libvhost-user.c:2785-2876 | an accepted chain is a finite linked path, readable buffers before writable ones, each nonempty and reachable, within the slot limits; its runs are the buffers' bytes in order when no buffer on it ends past 2^64 |
| `ChainMeaning.ChainComplete` | include/libvhost-user/libvhost-user.c:2785-2876 | a linked path of nonempty reachable buffers in order, within the slot limits, is accepted |
| `ChainMeaning.ChainMappedIff` | include/libvhost-user/libvhost-user.c:2785-2876 | for every table, a head is mapped if and only if an acceptable chain starts there, and its element is that chain byte by byte if and only if no buffer on the chain ends past 2^64 |
| `ChainMeaning.HeadMappedIff` | include/libvhost-user/libvhost-user.c:2785-2876 | any head, direct or indirect: mapped if and only if its table is there, of whole descriptors when indirect, and an acceptable chain starts in it, at entry 0 when indirect; byte by byte if and only if no buffer on it ends past 2^64 |
| `ChainMeaning.WrapOvershoots` | include/libvhost-user/libvhost-user.c:247-249 | without the no-wrap condition a run can be longer than its region: a concrete region and request |
| `DirtyLog.VuLog.LogPage` | include/libvhost-user/libvhost-user.c:721-726 | sets the bit of one page and no other |
| `DirtyLog.VuLog.LogWrite` | include/libvhost-user/libvhost-user.c:728-747 | adds exactly the pages from the first of the range up to its 64-bit end; with logging off nothing changes |
| `DirtyLog.VuLog.LogQueueFill` | include/libvhost-user/libvhost-user.c:3031-3088 | adds exactly the pages marked for the ranges its bounded walk writes; with logging off nothing changes |
| `DirtyLog.MeetsIsByte` | include/libvhost-user/libvhost-user.c:728-747 | a range meets a page when some byte of it lies in the page |
| `DirtyLog.MarksIff` | include/libvhost-user/libvhost-user.c:728-747 | the pages marked for a range are those it meets if and only if it ends below 2^64 |
| `DirtyLog.WrappedUnmarked` | include/libvhost-user/libvhost-user.c:728-747 | sixteen bytes from eight before 2^64 on mark no page |
| `DirtyLog.FillRangesExact` | include/libvhost-user/libvhost-user.c:3031-3088 | along a chain the ranges logged are the first `len` bytes of its writable buffers |
| `DirtyLog.FirstBytesAre` | include/libvhost-user/libvhost-user.c:3031-3088 | those ranges are, address by address, the first `len` of all the buffers |
| `DirtyLog.FillBounded` | include/libvhost-user/libvhost-user.c:3073-3087 | however descriptors are linked, no more ranges than the table has entries |
| `DirtyLog.LinkedBounded` | include/libvhost-user/libvhost-user.c:3073-3087 | a linked chain is no longer than its table, so the walk's bound never cuts it |
| `DirtyLog.FillLogged` | include/libvhost-user/libvhost-user.c:3090-3108 | one fill dirties precisely the pages marked for the first `len` writable bytes and for the used entry, and clears none; they are the pages of those bytes when no range ends past 2^64 |
| `HashTableModel.TableInvariant` | include/hashtable/hashtable.c:123-154 | every node is in the chain hash modulo capacity, no key has two nodes, the size is the total chain length, the number of keys and at most the capacity |
| `HashTableModel.ModIsRemainder` | include/hashtable/hashtable.c:335-341 | the chain index is the remainder of the hash |
| `HashTableModel.HashTable.constructor` | include/hashtable/hashtable.c:9-31 | an empty map of the requested or the minimum capacity |
| `HashTableModel.HashTable.Copy` | include/hashtable/hashtable.c:33-64 | a table with the same map, hash and capacity, pushed node by node |
| `HashTableModel.HashTable.Insert` | include/hashtable/hashtable.c:123-154 | the map gains or replaces the key; the capacity doubles exactly when the table was full; the result says which |
| `HashTableModel.HashTable.Contains` | include/hashtable/hashtable.c:156-176 | whether the key is in the map |
| `HashTableModel.HashTable.Lookup` | include/hashtable/hashtable.c:178-198 | the value of the key in the map, if any |
| `HashTableModel.HashTable.Erase` | include/hashtable/hashtable.c:222-260 | the map loses the key and nothing else; the capacity shrinks to the minimum exactly when the last key goes |
| `HashTableModel.HashTable.Clear` | include/hashtable/hashtable.c:262-276 | the empty map at the minimum capacity |
| `HashTableModel.HashTable.Reserve` | include/hashtable/hashtable.c:289-303 | keeps the map; nothing happens at or below the threshold, else the capacity becomes the requested one over the load factor |
| `HashTableModel.HashTable.PushFront` | include/hashtable/hashtable.c:382-385 | a new node at the head of its chain adds its key |
| `HashTableModel.HashTable.Resize` | include/hashtable/hashtable.c:411-435 | a new array of the requested or the minimum capacity, the same map |
| `HashTableModel.HashTable.MoveChain` | include/hashtable/hashtable.c:437-454 | relinks every node of one old chain into the new array |
| `HashTableModel.RehashDone` | include/hashtable/hashtable.c:437-454 | once every old chain is moved the table is well formed and stands for the same map |
| `HashTableModel.PushGood` | include/hashtable/hashtable.c:382-385 | pushing a new key keeps the invariant and adds it to the map |
| `HashTableModel.OverwriteGood` | include/hashtable/hashtable.c:139-145 | replacing a value keeps the invariant and updates the map |
| `HashTableModel.CutGood` | include/hashtable/hashtable.c:222-260 | unlinking the first, a middle or the last node removes its key and nothing else |
| `DirBlock.CreateKeeps` | src/dentry.c:64-80 | creating behind the last entry appends one record: the block stays tiled up to an unchanged tail, also when the terminating NUL falls just past the name |
| `DirBlock.DeleteKeeps` | src/dentry.c:114-131 | merging a record into the one before keeps the tiling and the tail |
| `DirBlock.AppendedEntries` | src/dentry.c:64-80 | creation appends one (name, inode) entry |
| `DirBlock.MergedEntries` | src/dentry.c:114-131 | deletion removes its target and nothing else |
| `DirBlock.OpKeeps` | src/dentry.c:64-131 | each create appends its entry when there is room, each delete removes the first entry of its name unless that is the first of the block, and otherwise no byte changes; the tiling and the tail are kept |
| `DirBlock.DirectoryRun` | src/dentry.c:64-197 | over every run the records tile the block, the tail never changes and the entries are those of the plain list |
| `DirBuffer.DentryFind` | src/dentry.c:163-197 | the first entry of the name and the one before it, as the abstract list has them; without a name the last entry |
| `DirBuffer.DentryHasEnoughSpace` | src/dentry.c:141-153 | whether the slack of the last record holds the new one |
| `DirBlock.HasSpaceIff` | src/dentry.c:141-153 | there is room if and only if the record can be cut so that both names fit |
| `DirBuffer.DentryCreate` | src/dentry.c:64-80 | the bytes written are a directory with the entry appended, tail unchanged |
| `DirBuffer.DentryDelete` | src/dentry.c:114-131 | the bytes written are a directory without the target, tail unchanged |
| `DirBuffer.DentryInit` | src/dentry.c:82-112 | a fresh block is a directory of the two dot entries |
| `SgCursor.Cursor.Select` | kfsd/src/descriptor_utils.rs:87-108 | the slices handed on are the shortest prefix reaching `count` bytes, or all of them |
| `SgCursor.PrefixIsShortest` | kfsd/src/descriptor_utils.rs:87-108 | the prefix reaches the count or is everything, and no shorter one does |
| `SgCursor.HandedAtMostIff` | kfsd/src/descriptor_utils.rs:78-108 | the callback gets at most `count` bytes if and only if there are no more or a slice ends exactly there |
| `SgCursor.HandedMore` | kfsd/src/descriptor_utils.rs:78-108 | one slice of eight bytes is handed on whole for a count of one |
| `SgCursor.Cursor.Advance` | kfsd/src/descriptor_utils.rs:110-139 | the first n bytes are gone, the rest is unchanged, and consumed plus available is conserved |
| `SgCursor.Cursor.Read` | kfsd/src/descriptor_utils.rs:287-308 | delivers the first min(count, available) bytes of the flat string and leaves the rest of it |
| `SgCursor.Cursor.Write` | kfsd/src/descriptor_utils.rs:404-425 | stores the data at the next addresses in order and nowhere else, and marks exactly those addresses dirty |
| `SgCursor.Cursor.SplitAt` | kfsd/src/descriptor_utils.rs:142-177 | fails exactly when the offset exceeds what is available and then changes nothing; otherwise keeps the first `offset` addresses and hands on the rest |
| `SgCursor.SameAddrsSameFlat` | kfsd/src/descriptor_utils.rs:65-72 | two slicings of the same addresses are the same string |
| `SgCursor.WriteReadBack` | kfsd/src/descriptor_utils.rs:404-425 | bytes written through one slicing of disjoint memory read back through any other slicing of it, the rest unchanged |
| `SgCursor.NothingLost` | kfsd/src/descriptor_utils.rs:87-177 | over every sequence of reads and splits, the bytes delivered followed by those remaining are the original string |
| `InodeCache.RefinesStore` | src/cache.c:274-354 | on slots that are apart, over every run of get, modify, create and delete with evictions, the cache keeps distinct numbers and clean entries equal to disk, and every get returns what a plain store would |
| `InodeCache.UnmountDisk` | src/op_destory.c:47-53 | then after any run and the unmount loop the slots on disk hold every live inode |
| `InodeCache.KeptIff` | src/cache.c:274-354 | every run from a mount, with its evictions and the unmount, keeps every live inode on disk if and only if no two inodes share a slot |
| `InodeCache.LostWrite` | src/cache.c:352-354 | for any two inodes in one slot, creating both and unmounting leaves the second one's contents on disk for the first |
| `InodeCache.UntouchedIff` | src/cache.c:352-354 | every run from a mount leaves a slot of the disk alone if and only if no inode has it |
| `InodeCache.Overwrite` | src/cache.c:352-354 | creating an inode and unmounting writes its slot, whatever was there |
| `InodeSlots.ApartIff` | src/inode.c:251-263 | the inodes of a formatted disk have slots of their own if and only if there is one group or the inodes of a group are a multiple of 16 |
| `InodeSlots.FormattedCacheIff` | src/inode.c:251-263 | on a formatted disk every run of the cache, the only writer, keeps every live inode under exactly that condition |
| `InodeSlots.LostAt700MiB` | src/inode.c:251-263 | on a 700 MiB image creating inodes 7457 and 7467 loses inode 7457 |
| `InodeSlots.RootFreeIff` | src/inode.c:251-263 | no inode's slot is in the root directory if and only if the inodes of a group are a multiple of 16 or the tables do not end on a multiple of four blocks |
| `InodeSlots.RootUntouchedIff` | src/inode.c:251-263 | every run of the cache leaves the root directory's blocks alone under exactly that condition |
| `InodeSlots.LostRootAt288Blocks` | src/inode.c:251-263 | on an image of 288 blocks creating inode 65 overwrites the start of the root directory |
| `InodeCache.VictimIff` | src/cache.c:285-312 | an entry to evict is found exactly when there is room, an invalid entry, or a use count below INT_MAX |
| `InodeCache.NeverStalls` | src/cache.c:285-312 | within INT_MAX requests of an unused cache every next request finds an entry |
| `InodeCache.GetCounts` | src/inode.c:145-164 | a get raises its entry's use count by one, from 0 when loaded, and changes nothing else of a cached entry or of any other |
| `InodeCache.LoadKeeps` | src/cache.c:311-322 | eviction with write-back and reload keeps the store |
| `InodeCache.StoreKeeps` | src/cache.h:86-86 | a change followed by the dirty mark is a change of the store |
| `InodeCache.CreateKeeps` | src/inode.c:339-375 | creating a number that is not live adds it to the store |
| `InodeCache.DropKeeps` | src/op_unlink.c:15-45 | invalidating the entry of a deleted inode removes it from the store |
| `InodeCache.ICache.constructor` | src/cache.c:49-52 | an empty cache over slots that are apart agrees with the mounted disk |
| `InodeCache.ICache.Find` | src/cache.c:274-281 | the valid entry of the number, or none |
| `InodeCache.ICache.LruScan` | src/cache.c:285-308 | the first invalid entry, else the first with the least use count |
| `InodeCache.ICache.WriteBack` | src/cache.c:352-354 | the slot of the entry's number has the entry's inode, no other slot changes |
| `InodeCache.ICache.Insert` | src/cache.c:333-350 | the next free entry, else the one the scan chooses, is written back when dirty and taken over, loaded from disk or left unread |
| `InodeCache.ICache.GetByNumber` | src/inode.c:145-164 | number 0 is refused; otherwise the entry holds the store's inode and its use count grows |
| `InodeCache.ICache.Set` | src/cache.h:86-86 | the store has the new inode |
| `InodeCache.ICache.CreateInode` | src/inode.c:339-375 | the store gains the new inode |
| `InodeCache.ICache.Invalidate` | src/op_unlink.c:40-40 | the store loses the inode |
| `InodeCache.ICache.Unmount` | src/op_destory.c:47-53 | the disk equals the store |
| `BlockAlloc.MarkBlock` | src/bitmap.c:124-137 | marking an extent sets its four blocks and no other |
| `BlockAlloc.FreeExtentBlocks` | src/bitmap.c:94-106 | the half-byte test is that all four blocks are unused |
| `BlockAlloc.MarkKeeps` | src/bitmap.c:94-137 | find then set keeps the bitmap exact and the extents aligned and disjoint |
| `BlockAlloc.AllocationRun` | src/bitmap.c:94-137 | over every run the used blocks are exactly those below the metadata end and those of the extents, which are aligned and pairwise disjoint |
| `BlockAlloc.Conservation` | src/bitmap.c:124-137 | k allocations use exactly 4k more blocks |
| `BlockAlloc.NoFragments` | src/bitmap.c:94-122 | no free extent means every block is used |
| `BlockBitmap.DBitmap.ScanGroup` | src/bitmap.c:99-106 | the lowest free unit of the group, or none |
| `BlockBitmap.DBitmap.PblockFind` | src/bitmap.c:94-122 | the lowest free extent of the first group that has one, from the inode's group on and wrapping round; the all-ones value exactly when none is free anywhere |
| `BlockBitmap.DBitmap.WrapScan` | src/bitmap.c:109-121 | the lowest free extent of the first group behind the given one, wrapping round, that has one; all others are searched |
| `BlockBitmap.DBitmap.PblockSet` | src/bitmap.c:124-137 | the extent is marked and its group dirty |
| `BlockBitmap.DBitmap.Allocate` | src/op_write.c:74-77 | find then set: the extent the search meets first joins a sound allocation; the all-ones result comes exactly when every block is used, and exactly then the group assertion of the set fails and no bit changes |
| `BlockBitmap.DBitmap.PblockCount` | src/bitmap.c:203-216 | the two counts come out exchanged; the used count is right exactly when half the blocks are used |
| `Mkfs.PlanFits` | mkfs/main.c:110-147 | the areas follow one another, lie on the disk and inside the first group, the descriptors fit their block and block numbers fit 32 bits |
| `Mkfs.PlanSomeIff` | mkfs/main.c:206-216 | the formatter takes an image if and only if it has at least 512 KiB and fewer than 260608 blocks |
| `Mkfs.AreasApart` | mkfs/main.c:144-176 | no two metadata areas, the tables at their rounded-down length, share a block and all lie below the allocated count |
| `Mkfs.FillBlockBitmap` | mkfs/main.c:218-221 | the filled buffer marks exactly the blocks below the allocated count |
| `Mkfs.Format` | mkfs/main.c:206-225 | the group bitmaps of a formatted disk |
| `Mkfs.FormattedSound` | mkfs/main.c:206-225 | they mark exactly the metadata and the first two inodes' extents |
| `Mkfs.AllocationsApart` | mkfs/main.c:206-225 | over every run on a formatted disk, no extent handed out meets a metadata area, the first two extents or another extent |
| `Mkfs.OffersOnDiskIff` | mkfs/main.c:110-111 | every block the bitmaps offer is on the disk exactly when the disk fills its last group |
| `Mkfs.FormattedCount` | mkfs/main.c:206-225 | a formatted disk has exactly the allocated count of blocks in use |
| `Mkfs.FormattedMiscounted` | src/bitmap.c:203-216 | on every disk just formatted the reported used count is wrong |
| `Mkfs.SmallestImage` | mkfs/main.c:110-147 | the smallest image has 128 blocks, offers block 128, and counts 32752 blocks as used where 16 are |
| `Mkfs.SlotsInTableIff` | src/inode.c:251-263 | inode slots stay inside their group's table exactly when the inodes of a group are a multiple of 16 |
| `Mkfs.SlotsDisjointIff` | src/inode.c:251-263 | no two inodes share a byte of the disk if and only if there is one group or the inodes of a group are a multiple of 16 |
| `Mkfs.SlotsInOrder` | src/inode.c:251-263 | under that condition the inodes lie on the disk in the order of their numbers |
| `Mkfs.SlotShared` | src/inode.c:251-263 | otherwise the first slot past the first group's table is the first slot of the second group |
| `Mkfs.SharedAt700MiB` | mkfs/main.c:110-147 | a 700 MiB image has six groups of 7466 inodes, and slot 7456 of the first is slot 0 of the second |
| `Mkfs.SlotsBelowDataIff` | src/inode.c:251-263 | all slots end before the data if and only if the inodes of a group are a multiple of 16 or the tables do not end on a multiple of four blocks |
| `Mkfs.SlotInRoot` | src/inode.c:251-263 | otherwise the first slot past the last table is the first byte of the root directory |
| `Mkfs.RootAt288Blocks` | mkfs/main.c:110-147 | an image of 288 blocks has one group of 72 inodes, and slot 64 is the start of the root directory |
| `Mkfs.SlotsApartIff` | src/inode.c:251-263 | no two inodes share a byte and none shares one with a bitmap, the descriptors, the root directory or the control file, if and only if the inodes of a group are a multiple of 16, or there is one group whose table does not end on a multiple of four blocks |
| `Extents.BlockFromEes` | src/extents.c:22-54 | a covered block gives its extent's physical block and length, unless the extent ends at 2^32, where its end wraps to 0 and it is passed over; past every extent gives 0; in a gap the 32-bit difference wraps |
| `Extents.LookupInGap` | src/extents.c:22-54 | block 3 between extents of blocks 0 and 5 gives block 2^32 + 18 |
| `Extents.LookupAtLimit` | src/extents.c:22-54 | the last of 2^32 blocks has an extent and is not found |
| `Extents.Descend` | src/extents.c:96-102 | the last index entry whose key is not past the block |
| `Extents.GetPblock` | src/extents.c:78-112 | on a covered block of a tree of any depth, the physical block and length its extent assigns, or none when that extent ends at 2^32 |
| `Extents.FlatSorted` | src/extents.c:78-112 | the leaves of a well-formed tree form one sorted list of disjoint extents |
| `Extents.LookupFlat` | src/extents.c:78-112 | the lookup through the tree is the lookup of the unique covering extent in the flat list |
| `Indirect.SlotIn` | src/inode.c:81-105 | every logical block has a slot with indices in bounds that decodes back to it |
| `Indirect.SlotOut` | src/inode.c:81-105 | every slot in bounds is the slot of its block |
| `Indirect.GetDind` | src/inode.c:49-58 | the element of the list under a double indirect block, by quotient then remainder |
| `Indirect.GetTind` | src/inode.c:60-69 | the element of the list under a triple indirect block, by its three indices |
| `Indirect.GetDataPblock` | src/inode.c:81-105 | the lookup returns the element of the block list the pointers lay out, where the slot of the block leads |
| `FileIO.OpenFile.OpWrite` | src/op_write.c:65-112 | the file's bytes in the range are the data and no other disk byte changes; the size becomes the range end, and every byte before the old end stays in the file exactly when the range reaches that end; the result is the length of the last block write |
| `FileIO.ShrinkingWrite` | src/op_write.c:108-108 | one byte written at the start of a file of ten bytes leaves one byte to read |
| `FileIO.LastWriteIff` | src/op_write.c:86-112 | the length returned is the whole range if and only if that lies in one block |
| `FileIO.LastWriteIs` | src/op_write.c:86-112 | it is the part of the range in its last block |
| `FileIO.TwoBlockWrite` | src/op_write.c:86-112 | a write of 200 bytes at offset 4000 returns 104 |
| `FileIO.RestUnchanged` | src/op_write.c:65-112 | the file's bytes outside the range keep their values |
| `FileIO.OpenFile.WriteBlocks` | src/op_write.c:86-106 | the block loop writes the data at the file's addresses in order; its result is the length of the last block's part |
| `FileIO.OpenFile.Truncated` | src/op_read.c:24-50 | a read is cut exactly at the end of the file, is 0 for an empty file, and from the end on is 2^64 - EINVAL |
| `FileIO.ReadPastEnd` | src/op_read.c:39-42 | a read at the end of a file of ten bytes gets the size 2^64 - 22 |
| `FileIO.OpenFile.FirstRead` | src/op_read.c:61-87 | the range inside one block, else the bytes up to a block boundary |
| `FileIO.OpenFile.ReadOn` | src/op_read.c:148-165 | what the disk has at the addresses the loop takes, over any covered blocks, or the failed assertion of a read off the disk |
| `FileIO.OpenFile.OpRead` | src/op_read.c:128-169 | for every covered range, what the disk has at the addresses the code takes, or the failed assertion of a read off the disk; the file's bytes when each turn's blocks are consecutive; nothing for an empty file |
| `FileIO.ReadsFileIff` | src/op_read.c:148-165 | a read of a covered range returns the file's bytes on every disk contents if and only if each turn's blocks are consecutive on the disk |
| `FileIO.TakenIff` | src/op_read.c:148-165 | the disk blocks the loop takes, turn by turn, are the file's if and only if each turn's blocks are consecutive |
| `FileIO.TakenAddrsIff` | src/op_read.c:128-169 | the same for the addresses of the range's bytes, the first part included |
| `FileIO.AlignedReads` | src/op_read.c:148-165 | they are when the part after the first block boundary starts an extent or ends inside the one it starts in |
| `FileIO.MisreadInMiddle` | src/op_read.c:148-165 | three extents, the second following the first on the disk: the read of blocks 4 to 11 takes disk block 109 for block 9, which is at 300 |
| `FileIO.OpenFile.WriteThenRead` | src/op_write.c:65-112 | a read of the range just written returns the data when each turn's blocks are consecutive, and a file on other blocks keeps its bytes |
| `FileIO.ReadBack` | src/op_write.c:65-112 | what is stored at a file's addresses reads back from them |
| `FileIO.OthersUnchanged` | src/op_write.c:65-112 | no byte of a file with disjoint extents changes |
| `FileIO.AddrsDistinct` | src/inode.c:81-84 | no two bytes of a file share a disk address |

## Left out

- Sockets, event file descriptors, mmap and postcopy: the message loop around the region table and the queues. Whether mmap succeeded is a parameter.
- Allocation failure and event-descriptor failure in recovery, and a queue whose in-flight log was never mapped.
- `unmap_rings`, and the in-flight marks after unpop and rewind, which those calls do not touch.
- `vu_queue_get_avail_bytes`, which walks chains only to add up lengths, and `vu_queue_set_notification`, whose flag is a field here: neither changes what a queue holds.
- Driver steps are atomic in the crash model: the driver's store order inside one submission is not modelled.
- Regions.VuDev.AddMemReg: a region is nonempty and ends below 2^64, which the code does not check; with others the table would no longer be disjoint intervals.
- Regions.VuDev.InsertionPoint: the same regions.
- Regions.VuDev.HotAdd: the same regions.
- Regions.VuDev.SetMemTable: the same regions, in every entry of the message.
- ChainMap.QueueMapDesc: an indirect table lies in one region; the copy of a table that spans several (libvhost-user.c:2405-2416) is not modelled.
- VuVirtqObject.VuVirtq.QueuePop: the tables indirect heads point to lie in one region.
- VuVirtqObject.VuVirtq.TakeHead: the same tables.
- VuVirtqObject.VuVirtq.PopOldest: the same tables.
- VuVirtqObject.VuVirtq.Resettle: the log's last batch head is an index of the queue; the code would clear a mark outside the log.
- VuVirtqObject.VuVirtq.CountMarked: inuse plus the queue size is below 2^32, where the sum in the code would wrap.
- VuVirtqObject.VuVirtq.PlaceIndices: the same bound.
- VuVirtqObject.VuVirtq.ScanLog: the same bound.
- VuVirtqObject.VuVirtq.CheckQueueInflights: inuse plus the queue size is below 2^32, where the sum in the code would wrap; the log's last batch head is an index of the queue.
- FetchOrder.FetchOrderKept: for fewer than 2^64 fetches, past which the 64-bit counter wraps.
- `ht_move`, `ht_swap`, the default hash (a parameter), power-of-two capacities and the return code of `ht_erase`. Node memory is an explicit address store, so freeing and aliasing of node memory by other code are not captured.
- HashTableModel.HashTable.Resize: requests whose resulting capacity is at least the size, which both callers make and `_ht_should_grow` asserts.
- `bitmap_pblock_free`: it calls the set function with a length that function rejects.
- BlockBitmap.DBitmap.PblockSet: sets only; clearing has no working caller.
- BlockBitmap.DBitmap.PblockFind: disks of up to 2^32 blocks, which `Mkfs.PlanFits` gives for every formatted one; a hint in the last group when that is full starts the code's second loop at an index past the group array, and is excluded.
- BlockBitmap.DBitmap.WrapScan: the same hint.
- BlockBitmap.DBitmap.Allocate: the same hint; with assertions compiled out, a full disk makes the code write past the group array.
- The inode bitmap search: the block search with one bit a unit.
- Group descriptor counts, the dentry cache tree, path lookup, permissions and the FUSE operations as a whole.
- `dentry_next` loading further blocks, and the cached last entry of a directory (src/dentry.c:29 changes a cached inode without the dirty mark).
- DirBuffer.DentryDelete: an entry that is not the first, as the dot entry always is; for the first the code follows a null predecessor.
- Mkfs.Format: writing the blocks to the disk, the superblock and the root directory contents.
- FileIO.OpenFile.OpRead: a range from before the end of the file or an empty file; past the end the code reads with the negative error as a length, over the caller's buffer; a read off the disk is the failed assertion, which a build without assertions does not make.
- FileIO.OpenFile.OpWrite: an inode that already owns extents covering the range, with logical blocks below 2^32 - 1; block size 4096, as the formatter writes.
- Extents.LookupFlat: only covered blocks, as the next.
- Extents.GetPblock: only covered blocks, where every node of the path has a key not past the block; every node has an `eh_max` of at most four, as the code asserts.
- InodeCache.ICache.Insert: an eviction when no use count is below INT_MAX indexes outside the array and is excluded.
- InodeCache.ICache.LruScan: the same.
- InodeCache.ICache.GetByNumber: numbers of live inodes; what the disk holds under a number that is not live is not modelled.
- InodeSlots.FormattedCacheIff: the cache is the only writer; directory and file blocks that share bytes with a slot are `InodeSlots.RootUntouchedIff` and `Mkfs.SlotsApartIff`.
- InodeCache.RefinesStore: slots that are apart, exactly as `InodeCache.KeptIff` needs them; pointers to entries kept by callers across a later eviction are not modelled.
- The Rust daemon's file system backend and everything under include/vhost-user.
