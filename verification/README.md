# A verified model of tkrzw

tkrzw is a library of key-value databases.  This project models the parts of it where a fast
structure must agree with a plain one, and proves that it does on every run:

- **HashDBM**, a hash table in a file.  Records sit at offsets; bucket heads and child offsets
  link them into chains; updates happen in place, with a pool of free blocks, or by appending.
  Two readings of the file have to agree with a map: walking the chain of a key's bucket, and
  replaying the record section from its start.  Around this sit the record codec, forward and
  backward import, the validator, the enumerations, and the rebuild that runs beside writers.
- **BabyDBM**, an on-memory B+ tree whose leaves form a doubly linked list, reorganised lazily
  through a queue, with iterators that cache a leaf.
- **The LRU structures**: `CacheSlot`, `LinkedHashMap` and `DoubleLRUCache`, whose records are on
  hash chains and on a recency list at once.
- **ShardDBM**: compare-and-exchange over many shards, and the iterator that merges shards.

Code that changes things step by step is modelled by classes and methods with loops; addresses
are numbers, and 0 is the null address.  What the methods promise is stated on values (a map, an
ascending sequence of records, a recency sequence), and lemmas about those values carry the
proofs.

## How the model is organised

| files | what they hold |
|---|---|
| `Common` | bytes, actions of record processors, sizes of maps |
| `HashStore`, `HashAppend`, `HashInPlace` | the file as a value, its two readings, and the effect of every single write in either mode |
| `RecordSize`, `Numbers`, `Checksum`, `RecordCodec` | whole sizes, number encodings, the checksum, and the bytes of a record |
| `FreeBlockPool`, `PoolImage` | the pool of free blocks and its image in a closed file |
| `HashDBM`, `HashShape`, `HashAppendRuns` | the database object, the shape of an in-place file, whole runs of appending mode |
| `HashImport`, `HashRebuild`, `HashValidate`, `HashEach`, `HashProcessEach` | import in both directions, rebuilding beside writers, validation and recounts, enumerations, processing every record |
| `BabyTree`, `BabyLeaves`, `BabyReorganize`, `BabyEdit` | the tree and the list of leaves as values, and what each kind of change keeps |
| `BabyDBM`, `BabyBounds`, `BabyIterator` | the tree object, how full its nodes are, and its iterators |
| `LinkedRecords`, `CacheSlot`, `CacheMemory`, `LinkedHashMap`, `DoubleLRUCache` | records on chains and on a list, the three structures made of them, and the memory cap |
| `CompareExchange`, `ShardDBM`, `ShardIterator` | the operation on one database, on many shards, and the merged iteration |

Points where the code decides, and the model follows it:

- A processor that answers a missing record with a removal makes appending mode log one more
  removal if the key has any record, without touching the record count.  The recount of such a
  log is too small; `HashAppendRuns.RunsRecount` gives the exact condition and
  `HashAppendRuns.PhantomMiscounts` the failing case.
- `Previous` of the B+ tree iterator passes over the leaf of its key when every record of that leaf
  lies below the key.  `BabyIteration.Previous` says exactly when the step is right and
  `BabyIteration.PreviousSkips` is a run after which it is not.
- A cache slot within its memory cap may be over it after an update, an insertion or a rebuild.  An
  update never evicts, an insertion evicts one record only, and a rebuild keeps the record that
  crosses the cap.
  `CacheMemory.HitFits`, `InsertFits` and `RebuildFits` say exactly when the cap holds afterwards,
  and `UpdateExceeds`, `InsertExceeds` and `RebuildExceeds` are runs after which it does not.
- `DoubleLRUCache.GiveBack` of an identifier that is still hot leaves it in both lists:
  `GiveBack` states the exact condition, and `DoubleLRUCaches.GiveBackDuplicates` is such a run.
- The recounted data size of a log is not that of its map; `HashAppendRuns.RunsResize` gives the
  difference on every run and `HashAppendRuns.SettingMissizes` a request that makes one.  The source
  compares that size for in-place files only.
- A removal through the shard iterator uses the ascending order of the heap even when the iterator is
  going backwards.  `ShardIteration.RemovableBackwards` says exactly when the heap is in that order,
  `LandsOnNext` when the iterator is then on the next record, and `NotRemovableBackwards` and
  `RemovalSkips` are runs where it is not so.

## Model

| member | source | states |
|---|---|---|
| `HashStore.ReplayGet` | tkrzw_dbm_hash_impl.cc:349-429 | replaying records from the oldest binds each key as the last record for it says |
| `HashStore.LookupFrame` | tkrzw_dbm_hash.cc:1316-1349 | a write that touches no chained record and no bucket changes no lookup |
| `HashAppend.InvLooksUp` | tkrzw_dbm_hash.cc:1307-1497 | in either mode, between operations, walking the chain of every key gives exactly what replaying the record section gives |
| `HashAppend.AppendOnly` | tkrzw_dbm_hash.cc:1389-1431 | after the append alone, replay gives the updated map and every lookup still gives the old one |
| `HashAppend.AppendAgrees` | tkrzw_dbm_hash.cc:1389-1431 | after an appended update the first chain record of every key is the last record for that key in the log, also when the update drops the old head from its chain |
| `HashAppend.AppendKeeps` | tkrzw_dbm_hash.cc:1389-1431 | append and bucket update together keep the invariant, and the file holds the map with the update |
| `HashInPlace.InPlaceIsInv` | tkrzw_dbm_hash.cc:1307-1497 | one live record a key, on the chain of its bucket, makes chains and replay agree |
| `HashInPlace.PlaceKeeps` | tkrzw_dbm_hash.cc:1401-1423 | writing a record into a free block or at the end leaves every chain and every lookup as it was |
| `HashInPlace.PlaceReplays` | tkrzw_dbm_hash.cc:1401-1423 | that write alone leaves replay with the old map or the updated one |
| `HashInPlace.SpliceKeeps` | tkrzw_dbm_hash.cc:1368-1377 | relinking a predecessor past a record keeps the layout, the acyclic chains and one record a key |
| `HashInPlace.SpliceLooksUp` | tkrzw_dbm_hash.cc:1424-1431 | the relinking write alone switches lookups from the old map to the updated one |
| `HashInPlace.VoidKeeps` | tkrzw_dbm_hash.cc:1432-1439 | voiding the one live record that is off its chain restores the full invariant and changes no lookup |
| `HashInPlace.OverwriteKeeps` | tkrzw_dbm_hash.cc:1383-1388 | overwriting a chained record where it lies keeps the invariant and every chain |
| `HashInPlace.LoggedIs` | tkrzw_dbm_hash.cc:1307-1497 | a file that looks up a map replays to that same map |
| `RecordSize.AlignNumber` | tkrzw_sys_config.h:374-380 | the least multiple of the alignment that is not below the number |
| `RecordSize.WholeSize` | tkrzw_dbm_hash_impl.cc:219-232 | the least aligned size that holds header, key and value and is at least the ideal size; the ideal size itself where that is aligned and large enough |
| `FreeBlocks.FreeBlockPool.InsertFreeBlock` | tkrzw_dbm_hash_impl.cc:550-558 | a pool with room gains the block; a full one stays as it is unless the block is larger than its least one, which then makes room, so whatever is dropped is no larger than anything kept |
| `FreeBlocks.FreeBlockPool.FetchFreeBlock` | tkrzw_dbm_hash_impl.cc:560-569 | takes a block of the least size among those large enough, at the least offset among those, and fails exactly when there is none |
| `FreeBlocks.FreeBlockPool.SetCapacity` | tkrzw_dbm_hash_impl.cc:537-543 | keeps exactly the greatest blocks that fit the new capacity |
| `PoolImage.Serialize` | tkrzw_dbm_hash_impl.cc:576-592 | the image is the greatest blocks, all of them or as many as the section has room for, greatest first, then zeros, and fills its section exactly |
| `PoolImage.Room` | tkrzw_dbm_hash_impl.cc:576-579 | all blocks, or as many as fit the section and no fewer |
| `PoolImage.ImageAt` | tkrzw_dbm_hash_impl.cc:580-589 | each block of the image is at its multiple of the offset width and four bytes, its offset in units of the alignment before its size |
| `PoolImage.Deserialize` | tkrzw_dbm_hash_impl.cc:594-610 | for any bytes, an ordered set of exactly the blocks read up to the first of no size or the capacity |
| `PoolImage.ImageReads` | tkrzw_dbm_hash_impl.cc:576-610 | the image of blocks that fit the widths reads back as those blocks, cut at the capacity |
| `PoolImage.CloseAndOpen` | tkrzw_dbm_hash.cc:1290-1305 | closing and reopening keeps exactly the greatest blocks that the section and the capacity have room for |
| `HashDatabase.HashDBM.constructor` | tkrzw_dbm_hash.cc:1264-1288 | a file with empty buckets satisfies the invariant and holds the empty map |
| `HashDatabase.HashDBM.RemoveInPlace` | tkrzw_dbm_hash.cc:1368-1382 | a removal in place drops exactly its key, leaves a void record of the same size, registers that place in the pool with nothing larger dropped for it, and both writes are atomic |
| `HashDatabase.HashDBM.OverwriteInPlace` | tkrzw_dbm_hash.cc:1383-1388 | an overwrite sets exactly its key in one atomic write to the one record, whose place, child and size it keeps |
| `HashDatabase.HashDBM.MoveInPlace` | tkrzw_dbm_hash.cc:1389-1440 | a value that does not fit goes to the least block that is large enough, or to the end if there is none; the old place becomes void and joins the pool; the three writes each leave lookup and replay at the map before or after |
| `HashDatabase.HashDBM.InsertInPlace` | tkrzw_dbm_hash.cc:1466-1495 | a new key is stored in the least block that is large enough, or at the end if there is none, at the head of its chain, in two atomic writes |
| `HashDatabase.HashDBM.AppendUpdate` | tkrzw_dbm_hash.cc:1389-1431 | an appended update is the log with one more record, in two atomic writes |
| `HashDatabase.HashDBM.Tally` | tkrzw_dbm_hash.cc:1441-1453 | the record count and the data size stay those of the map |
| `HashDatabase.HashDBM.ProcessImpl` | tkrzw_dbm_hash.cc:1307-1497 | in both modes: the processor is shown the value of the map exactly when the key is there and reading is asked for, and its absence exactly when it is not; no other key changes; a permitted answer to remove leaves the key absent, one to set leaves it with that value, and anything else leaves it as it was; the counts are those of the map, the invariant is kept, and after each file write lookup and replay each give the map before or the map after |
| `HashDatabase.HashDBM.Contains` | tkrzw_dbm_hash.cc:1316-1349 | the chain walk finds a key exactly when the map has it |
| `HashDatabase.HashDBM.SetUpdateModeAppending` | tkrzw_dbm_hash.cc:857-868 | switching an in-place database to appending needs no write and keeps the invariant and the map |
| `HashShape.InPlaceShape` | tkrzw_dbm_hash.cc:1307-1497 | in every state between in-place operations: aligned records tile the record section, each live record lies at exactly one position of the chain of its key's bucket, no void record lies on a chain, every pool block is exactly one void record, and lookup gives the map |
| `HashAppendRuns.RequestKeeps` | tkrzw_dbm_hash.cc:1307-1497 | one request of appending mode keeps the invariant and the form of the log, and the log holds the map updated by its answer |
| `HashAppendRuns.RunsRefine` | tkrzw_dbm_hash.cc:1307-1497 | after any list of requests, replay and lookup both give the map that the requests ask for, and the validator accepts the file |
| `HashAppendRuns.RunsRecount` | tkrzw_dbm_hash.cc:1988-2005 | after any list of requests, the recount is the number of records if and only if no request removed a key whose last record was already a removal |
| `HashAppendRuns.RunsResize` | tkrzw_dbm_hash.cc:1988-2005 | after any list of requests, the recounted data size differs from that of the map by exactly the sum of what the settings, removals and repeated removals of the run throw it off |
| `HashAppendRuns.SettingMissizes` | tkrzw_dbm_hash.cc:1988-2005 | in every state whose recounted size is right, setting a record to a value of another length makes it wrong by the difference |
| `HashAppendRuns.PhantomMiscounts` | tkrzw_dbm_hash.cc:1441-1453 | in every state, removing a record twice with a processor that also removes missing records makes the recount one too small |
| `Numbers.FixNumReads` | tkrzw_sys_config.h:423-434 | a number that fits its width is read back |
| `Numbers.FixNumBytes` | tkrzw_sys_config.h:423-427 | the bytes are the digits of the number to the base 256, the most significant first |
| `Numbers.VarNumReads` | tkrzw_sys_config.h:436-539 | a variable-length number is read back from anywhere in a region, with the position after it |
| `Numbers.VarNumBytes` | tkrzw_sys_config.h:436-506 | the bytes are the digits to the base 128, the most significant first, with the top bit set on all but the last |
| `Numbers.SizeIsLeast` | tkrzw_sys_config.h:541-553 | the number of bytes is the least that holds the number |
| `Numbers.ReadVarNum` | tkrzw_sys_config.h:508-525 | the byte loop computes what the recursive reading says, and a step of 0 exactly when the region ends first |
| `Checksum.HashChecksum6Continuous` | tkrzw_hash_util.cc:72-86 | the batched 32-bit sum never wraps around and is the sum of the bytes modulo 61 |
| `Checksum.HashChecksum6Pair` | tkrzw_hash_util.h:93-113 | for buffers of any length, in one go or one after the other, the sum of all bytes modulo 61 |
| `Checksum.MagicChecksum` | tkrzw_dbm_hash_impl.h:425-428 | the checksum in the first byte lies between 3 and 63 |
| `Checksum.ComputeMagicChecksum` | tkrzw_dbm_hash_impl.h:425-428 | what the source computes, by 32-bit additions, is that checksum |
| `RecordCodec.EncodedSize` | tkrzw_dbm_hash_impl.cc:252-299 | the bytes written for a record are exactly its whole size, padding and its length included |
| `RecordCodec.FirstByteReads` | tkrzw_dbm_hash_impl.cc:257-271 | the two high bits of the first byte are the operation, the others the checksum |
| `RecordCodec.SizesInOrder` | tkrzw_dbm_hash_impl.cc:272-280 | behind the child the head holds the sizes of key, value and padding in this order, and then the CRC |
| `RecordCodec.BodyLayout` | tkrzw_dbm_hash_impl.cc:281-289 | behind the head come the key, the value, and the padding, if any: its mark and zeros |
| `RecordCodec.RecordRoundTrip` | tkrzw_dbm_hash_impl.cc:53-182 | for every operation, key, value, child, checksum width, ideal size and first read size of at least the minimum, reading what was written returns all of them and the whole size |
| `RecordCodec.ZeroNeverParses` | tkrzw_dbm_hash_impl.cc:53-78 | a region that starts with a zero byte is never read as a record |
| `HashImport.ImportForward` | tkrzw_dbm_hash.cc:1725-1775 | replaying a section of a file onto a database applies its records in order and nothing else |
| `HashImport.ExtractOffsets` | tkrzw_dbm_hash_impl.cc:431-478 | the buffered offset file holds the offsets of the records that are not void, in file order |
| `HashImport.OffsetReader.ReadOffset` | tkrzw_dbm_hash_impl.cc:490-533 | each call returns the last unread number of the offset file, across buffer boundaries, and nothing once all are read |
| `HashImport.NextOffset` | tkrzw_dbm_hash_impl.cc:481-533 | reading an extracted offset file in reverse chunks gives the extracted offsets reversed |
| `HashImport.BackwardStep` | tkrzw_dbm_hash.cc:1837-1937 | importing one older record keeps: keys of newer records have their last value or are dead |
| `HashImport.BackwardIsReplay` | tkrzw_dbm_hash.cc:1837-1937 | a backward import leaves the destination's keys alone and adds the replay of the records under them |
| `HashImport.ReplayBackward` | tkrzw_dbm_hash.cc:1837-1937 | the loop over the offset file performs that backward import |
| `HashImport.ImportBackward` | tkrzw_dbm_hash.cc:1777-1937 | offsets extracted, read in reverse and imported: the database holds the replay of the section |
| `HashImport.ImportsAgree` | tkrzw_dbm_hash.cc:1725-1937 | of two empty databases, one that imports a section forward and one that imports it backward hold the same map, its replay |
| `HashImport.BackwardIsForward` | tkrzw_dbm_hash.cc:1837-1937 | for every log, whatever map and dead keys a backward import ends with, the map is that of forward replay |
| `HashRebuild.AppendStepKeeps` | tkrzw_dbm_hash.cc:1389-1431 | a writer's append, in any phase of a rebuild, keeps what the rebuilder has copied equal to a replayed section of the log |
| `HashRebuild.OlderStepKeeps` | tkrzw_dbm_hash.cc:1575-1669 | so does importing one more record of the prefix backward |
| `HashRebuild.NewerStepKeeps` | tkrzw_dbm_hash.cc:1575-1669 | so does one more record of a catch-up round |
| `HashRebuild.LockedStepKeeps` | tkrzw_dbm_hash.cc:1575-1669 | so does one more record of the last round, with every record locked |
| `HashRebuild.RoundStepKeeps` | tkrzw_dbm_hash.cc:1582-1605 | so does the end of the prefix or of a round |
| `HashRebuild.WaitStepKeeps` | tkrzw_dbm_hash.cc:1592-1611 | so does the choice of another round by the end of the file read under the shared lock, the choice of none, the full lock after however much was appended since that choice, and the swap |
| `HashRebuild.SwitchStepKeeps` | tkrzw_dbm_hash.cc:1575-1585 | so does the switch of update mode under the full lock, from either mode |
| `HashRebuild.NextKeeps` | tkrzw_dbm_hash.cc:1575-1669 | every step of writers or rebuilder keeps the invariant |
| `HashRebuild.RunKeeps` | tkrzw_dbm_hash.cc:1575-1669 | every state of every interleaving satisfies it |
| `HashRebuild.SwapIsExact` | tkrzw_dbm_hash.cc:1575-1669 | in every interleaving, bursts of writes between the last choice and the full lock included, the copy swapped in holds exactly the map that the old file holds at the swap, by replay and by lookup |
| `HashValidate.CheckHashChain` | tkrzw_dbm_hash.cc:2035-2061 | the walk accepts a record exactly when it meets it on the chain, or when appending a later record of its key, with nothing of another bucket before |
| `HashValidate.ValidateRecords` | tkrzw_dbm_hash.cc:1945-2013 | the loop accepts exactly the tiled files in which every record that is not void passes its chain check and has a child of its own bucket, and recounts all records |
| `HashValidate.AcceptedRecords` | tkrzw_dbm_hash.cc:1945-2013 | in an accepted file the sizes lead exactly to the end, every record that is not void is on the chain of its bucket or, when appending, overtaken there by a later one of its key, and every child is of its bucket |
| `HashValidate.Complete` | tkrzw_dbm_hash.cc:1945-2013 | every file written within one update mode is accepted |
| `HashValidate.SoundInPlace` | tkrzw_dbm_hash.cc:1945-2013 | a file whose chains are sound is accepted as an in-place one if and only if it satisfies the invariant of that mode: every live record is on its chain |
| `HashValidate.SoundLog` | tkrzw_dbm_hash.cc:1945-2013 | a log whose chains are sound, newest first, is accepted if and only if it satisfies the invariant, so walking the chains of an accepted one gives what its records replay to |
| `HashValidate.RecountInPlace` | tkrzw_dbm_hash.cc:1988-2005 | SET and ADD records of an in-place file number the keys of the map, and their sizes add up to its data size |
| `HashValidate.RecountLog` | tkrzw_dbm_hash.cc:1988-2005 | ADD minus REMOVE records of a log number the keys of the map, less the removals of missing keys |
| `HashValidate.ResizeLog` | tkrzw_dbm_hash.cc:1988-2005 | the recounted data size of a log is that of the map and the drift of its records: settings are not counted, and removals count an empty value |
| `HashEach.ScanRecords` | tkrzw_dbm_hash.cc:431-464 | the linear scan of an in-place file visits exactly the records of the map, each once |
| `HashEach.WalkBuckets` | tkrzw_dbm_hash.cc:465-527 | the read-only bucket walk with live and dead key sets visits exactly the records of the map, each once |
| `HashProcessEach.ProcessEach` | tkrzw_dbm_hash.cc:465-527 | the writable walk, in both modes: afterwards each key that the map had holds what the processor made of the record that was there, and no other key holds anything |
| `HashEach.ReadBucketKeys` | tkrzw_dbm_hash.cc:1673-1723 | with a dead set only, the iterator's bucket read gives exactly the keys of the map that belong to the bucket |
| `BabyTree.SearchStep` | tkrzw_dbm_baby.cc:608-626 | the child entered by the binary search over separators is the one whose span covers the key |
| `BabyTree.OneCovers` | tkrzw_dbm_baby.cc:608-626 | at each height exactly one node covers a key, so search is deterministic on meaning |
| `BabyTree.OneParent` | tkrzw_dbm_baby.cc:628-647 | a node is the child of one node, in one position |
| `BabyDatabase.BabyDBM.AddLinkToInnerNode` | tkrzw_dbm_baby.cc:878-883 | adds exactly the link to the node and changes no other node; separators that were in order stay in order |
| `BabyTree.LinkKeeps` | tkrzw_dbm_baby.cc:878-883 | linking the right half of a divided node at its place completes separators, spans and depth |
| `BabyTree.GrowKeeps` | tkrzw_dbm_baby.cc:707-714 | a new root over the halves of the old one is a tree one level higher |
| `BabyTree.JoinKeeps` | tkrzw_dbm_baby.cc:851-873 | joining neighbouring children of a node keeps separators, spans and equal depth |
| `BabyTree.CollapseKeeps` | tkrzw_dbm_baby.cc:816-825 | a root without links can give way to its only child |
| `BabyLeaves.GatherSorted` | tkrzw_dbm_baby.cc:672-741 | the records of the leaves, in list order, ascend strictly |
| `BabyLeaves.EditApplies` | tkrzw_dbm_baby.cc:973-1007 | editing an ascending sequence at the place the search finds is applying the answer to the dictionary, and keeps it ascending |
| `BabyReorganize.DivideLeafKeeps` | tkrzw_dbm_baby.cc:676-706 | a divided leaf leaves the list and all records in place, and the tree lacking one link only |
| `BabyReorganize.JoinLeftKeeps` | tkrzw_dbm_baby.cc:767-790 | joining a leaf into its left neighbour keeps tree, list and records |
| `BabyReorganize.JoinRightKeeps` | tkrzw_dbm_baby.cc:791-814 | joining a leaf into its right neighbour keeps tree, list and records |
| `BabyDatabase.BabyDBM.constructor` | tkrzw_dbm_baby.cc:579-584 | one empty leaf is a valid, empty database |
| `BabyDatabase.BabyDBM.SearchTree` | tkrzw_dbm_baby.cc:608-626 | returns the one leaf whose span covers the key |
| `BabyDatabase.BabyDBM.TraceTree` | tkrzw_dbm_baby.cc:628-647 | returns the path of inner nodes to that leaf, one for each level |
| `BabyDatabase.BabyDBM.DivideNodes` | tkrzw_dbm_baby.cc:672-741 | with any cascade up to a new root: the leaf keeps the first half of its records and a new leaf behind it has the second, no inner node is left with more than 256 links unless it had them before or is a half of one that did, and the stored records, separator order, equal depth, leaf list with its ends, queue and cached iterator leaves are all kept |
| `BabyDatabase.BabyDBM.JoinPrevLinkInInnerNode` | tkrzw_dbm_baby.cc:885-894 | erases exactly the link to the child; its left neighbour keeps its own link |
| `BabyDatabase.BabyDBM.JoinNextLinkInInnerNode` | tkrzw_dbm_baby.cc:896-913 | the neighbour takes the child's place and loses its own link, also when the child is the heir |
| `BabyDatabase.BabyDBM.MergeInner` | tkrzw_dbm_baby.cc:826-874 | the links of the node and of its smaller neighbour under the same parent end in one node, and the tree and the least number of links are kept |
| `BabyDatabase.BabyDBM.MergeNodes` | tkrzw_dbm_baby.cc:743-876 | with any cascade down to a collapsed root: of the leaf and its smaller neighbour under the same parent one takes over the records of both and the other is gone, and all that DivideNodes keeps is kept |
| `BabyDatabase.BabyDBM.ReorganizeTree` | tkrzw_dbm_baby.cc:649-662 | empties the queue, keeps the stored records, validity and every iterator; in sequential runs a queued leaf of more than 256 records is halved, one of less than 128 below the root is merged and any other is left alone, and every leaf below the root is at least half full |
| `BabyDatabase.BabyDBM.PopAndReorganize` | tkrzw_dbm_baby.cc:649-662 | one queued leaf is halved, merged or left alone as its number of records says, unless it has been looked at, and every entry left names a leaf that has been looked at or is still the leaf of its key |
| `BabyDatabase.BabyDBM.ProcessImpl` | tkrzw_dbm_baby.cc:973-1007 | the processor is shown the dictionary's record for the key, or its absence; a permitted removal leaves no such record, a permitted value is stored under the key already there or, if there is none, under the given one, and no other record changes; the leaf is queued exactly when it has grown beyond 256 records, or shrunk below 128 and is not the root; validity is kept |
| `BabyDatabase.BabyDBM.Process` | tkrzw_dbm_baby.cc:403-418 | a whole operation does to the ordered dictionary what the answer to the record shown says and nothing else, and keeps a run of such operations sequential: every leaf below the root has at least 127 records and every inner node below it at least 128 links, so the first record of a leaf is there to be read after a removal |
| `BabyDatabase.DividedQueue` | tkrzw_dbm_baby.cc:649-662 | dividing a leaf keeps every other queued key routed to its leaf |
| `BabyDatabase.MergedQueue` | tkrzw_dbm_baby.cc:649-662 | so does merging it |
| `BabyDatabase.DivideCursors` | tkrzw_dbm_baby.cc:694-701 | after a division every cached leaf is the leaf that a search for the iterator's key returns |
| `BabyDatabase.JoinCursors` | tkrzw_dbm_baby.cc:785-812 | so after a join |
| `BabyBounds.LeavesInOrder` | tkrzw_dbm_baby.cc:672-913 | the doubly linked list is the in-order walk of the leaves |
| `BabyBounds.ManyLeaves` | tkrzw_dbm_baby.cc:664-741 | a node below the root at height h has at least 129^(h-1) leaves |
| `BabyBounds.LevelsNeedLeaves` | tkrzw_dbm_baby.cc:664-741 | a database of level L > 1 has at least 2 * 129^(L-2) leaves |
| `BabyBounds.TraceFits` | tkrzw_dbm_baby.cc:628-647 | below 2 * 129^20 leaves the twenty slots of the path array are enough |
| `BabyIteration.SetPositionFirst` | tkrzw_dbm_baby.cc:1162-1174 | passes over empty leaves to the first record, if there is one |
| `BabyIteration.SetPositionLast` | tkrzw_dbm_baby.cc:1176-1188 | passes over empty leaves to the last record, if there is one |
| `BabyIteration.SyncPosition` | tkrzw_dbm_baby.cc:1248-1283 | from the cached leaf if there is one, moves to the least key at or above the given one, across empty leaves |
| `BabyIteration.MakeIterator` | tkrzw_dbm_baby.cc:1028-1032 | a registered iterator has no position and disturbs no other |
| `BabyIteration.First` | tkrzw_dbm_baby.cc:1042-1047 | the least key of all, or nothing exactly when there is none |
| `BabyIteration.Last` | tkrzw_dbm_baby.cc:1049-1054 | the greatest key of all, or nothing exactly when there is none |
| `BabyIteration.JumpLower` | tkrzw_dbm_baby.cc:1063-1091 | the greatest key below the given one, or not above it, or nothing, for every valid tree |
| `BabyIteration.JumpUpper` | tkrzw_dbm_baby.cc:1093-1120 | the least key above the given one, or not below it, or nothing |
| `BabyIteration.Next` | tkrzw_dbm_baby.cc:1122-1129 | the least key strictly above the iterator's, even if its own record is gone |
| `BabyIteration.NextImpl` | tkrzw_dbm_baby.cc:1197-1219 | the step behind Next, from the cached leaf |
| `BabyIteration.Previous` | tkrzw_dbm_baby.cc:1131-1138 | reaches the greatest key below the iterator's if and only if the leaf of that key is empty or has a record at or above it |
| `BabyIteration.PreviousSkips` | tkrzw_dbm_baby.cc:1221-1246 | a run, for any two ordered keys, after which a step back misses the one record that is there |
| `BabyIteration.OwnRecordReaches` | tkrzw_dbm_baby.cc:1221-1246 | an iterator whose own record is present meets the condition |
| `BabyIteration.ProcessHere` | tkrzw_dbm_baby.cc:1285-1347 | from the cached leaf if there is one, shows the processor the least record at or above the iterator's key, and does to the dictionary what it answers to that record and nothing else; it fails exactly when there is no such record |
| `LinkedRecords.FindRecord` | tkrzw_dbm_cache.cc:291-300 | the chain walk finds the record of a key exactly when the list has one |
| `LinkedRecords.MoveLastSound` | tkrzw_dbm_cache.cc:301-317 | moving a record to the end of the doubly linked list keeps chains and list holding the same records |
| `LinkedRecords.FreeSound` | tkrzw_dbm_cache.cc:500-533 | unlinking a record from chain and list keeps both holding the same records |
| `LinkedRecords.SwapSound` | tkrzw_dbm_cache.cc:336-356 | putting a moved record in the place of the old one, on its chain and in the list, keeps both |
| `CacheSlots.HitRefines` | tkrzw_dbm_cache.cc:300-359 | a hit does to the map what the processor answers and nothing else |
| `CacheSlots.HitOrder` | tkrzw_dbm_cache.cc:300-359 | after a hit the record is the last of the recency sequence, with its value or the new one, or gone, and the others are as they were |
| `CacheSlots.InsertRefines` | tkrzw_dbm_cache.cc:363-387 | an insertion adds its record and drops the least recently used one exactly when the new one exceeds the record cap or the memory cap; the record cap is kept |
| `CacheSlots.InsertOrder` | tkrzw_dbm_cache.cc:363-387 | an insertion that keeps to both capacities goes to the end and drops nothing; any other one drops exactly the head |
| `CacheMemory.HitFits` | tkrzw_dbm_cache.cc:319-356 | after a hit the memory cap holds if and only if the memory in use and the difference that the answer makes are within it |
| `CacheMemory.InsertFits` | tkrzw_dbm_cache.cc:363-387 | after an insertion, which evicts at most one record, the cap holds if and only if the new record fits in the place of the least recently used one; in an empty slot, if and only if the buckets fit |
| `CacheMemory.ProcessFits` | tkrzw_dbm_cache.cc:289-388 | after any operation the cap holds if and only if a check on the state before it succeeds |
| `CacheMemory.RebuildFits` | tkrzw_dbm_cache.cc:445-479 | after a rebuild the cap holds if and only if the buckets fit and no admitted record starts below the cap and ends above it |
| `CacheMemory.UpdateExceeds` | tkrzw_dbm_cache.cc:336-356 | a run within the cap that an update takes over it, for any hash, key and longer value |
| `CacheMemory.InsertExceeds` | tkrzw_dbm_cache.cc:373-386 | a run within the cap that an insertion takes over it although it evicts |
| `CacheMemory.RebuildExceeds` | tkrzw_dbm_cache.cc:456-473 | a run that a rebuild takes over the cap |
| `CacheSlots.CacheSlot.constructor` | tkrzw_dbm_cache.cc:246-255 | an empty slot |
| `CacheSlots.CacheSlot.Reserialize` | tkrzw_dbm_cache.cc:167-185 | a value that is no longer than the old one stays where it is; a longer one may move to an address not in use |
| `CacheSlots.CacheSlot.ProcessImpl` | tkrzw_dbm_cache.cc:289-388 | the processor is shown the cached value exactly when there is one; a hit, reads included, goes to the end of the recency sequence with its value or the new one, or out of it, and the others keep their order; an insertion goes to the end and drops exactly the head if it exceeds a capacity, and nothing otherwise; chains, list, totals and record cap are kept |
| `CacheSlots.CacheSlot.RemoveLRU` | tkrzw_dbm_cache.cc:500-533 | drops exactly the head of the recency sequence |
| `CacheSlots.CacheSlot.Rebuild` | tkrzw_dbm_cache.cc:445-479 | keeps the records, from the least recently used on, that the new capacities allow, in order, on new chains |
| `CacheSlots.Kept` | tkrzw_dbm_cache.cc:445-479 | the number of records kept is the most for which each was admitted below both capacities |
| `CacheSlots.CacheSlot.GetKeys` | tkrzw_dbm_cache.cc:535-546 | the keys in recency order |
| `LinkedHashMaps.LinkedHashMap.Get` | tkrzw_containers.h:928-982 | finds a key exactly when it is there, and puts its record last, first or nowhere else as the mode says, the others keeping their order |
| `LinkedHashMaps.LinkedHashMap.Set` | tkrzw_containers.h:992-1079 | a new record goes first if the mode says so and last otherwise; an existing one gets the new value and goes last, first or stays as the mode says, the others keeping their order; it is kept when overwriting is off |
| `LinkedHashMaps.LinkedHashMap.Remove` | tkrzw_containers.h:1081-1111 | the list loses the record of the key, and the others keep their order |
| `LinkedHashMaps.LinkedHashMap.Migrate` | tkrzw_containers.h:1113-1244 | the record leaves one map, whose other records keep their order, and enters the other at the end the mode names, superseding the record of that key there; both stay sound |
| `LinkedHashMaps.LinkedHashMap.Rehash` | tkrzw_containers.h:1392-1402 | new chains hold the same records, and the list is unchanged |
| `LinkedHashMaps.LinkedHashMap.Clear` | tkrzw_containers.h:1246-1261 | an empty, sound map with the same buckets |
| `DoubleLRUCaches.MigrateKeeps` | tkrzw_containers.h:1532-1552 | moving an entry between the lists loses, duplicates and alters nothing and keeps them disjoint |
| `DoubleLRUCaches.GiveBackSeparates` | tkrzw_containers.h:1527-1530 | giving back keeps the lists disjoint if and only if the identifier is not hot |
| `DoubleLRUCaches.DoubleLRUCache.Get` | tkrzw_containers.h:1532-1552 | returns the value of the identifier; the entries of both lists together are unchanged, the lists stay disjoint and the hot list within its capacity; a hit in a list moves to its end, the others keeping their order; with promotion an identifier that is not hot leaves a hot list with room as it was but for the entry at its end, and drops exactly the front of a full one, even on a miss, which is then the last warm entry |
| `DoubleLRUCaches.DoubleLRUCache.Add` | tkrzw_containers.h:1517-1525 | adds exactly one entry, at the end of the warm list, unless the identifier has one, whose value is then returned |
| `DoubleLRUCaches.DoubleLRUCache.GiveBack` | tkrzw_containers.h:1527-1530 | the warm list gets the entry unless it has one for the identifier, the hot list is unchanged, and the lists are disjoint afterwards if and only if the identifier is not hot |
| `DoubleLRUCaches.GiveBackDuplicates` | tkrzw_containers.h:1517-1552 | a run of Add, Get and GiveBack that ends with an identifier in both lists |
| `DoubleLRUCaches.DoubleLRUCache.Remove` | tkrzw_containers.h:1555-1560 | removes the entry of the identifier and no other |
| `DoubleLRUCaches.DoubleLRUCache.RemoveLRU` | tkrzw_containers.h:1562-1583 | takes out the entry used longest ago, warm before hot, and leaves the other entries in order |
| `CompareExchange.ExchangedValue` | tkrzw_dbm.h:353-430 | after an exchange a key holds the last value desired for it, or what it held before |
| `CompareExchange.FeasibleMeans` | tkrzw_dbm.h:353-391 | the conditions hold if and only if every value expected is there and every key expected to be missing is missing |
| `CompareExchange.ExchangeMeans` | tkrzw_dbm.h:393-430 | each key has the value that the last desire for it names, or is gone if that names none, and every other key is left alone |
| `CompareExchange.Database.CompareExchangeMulti` | tkrzw_dbm.h:1186-1209 | all or nothing on one database: it succeeds if and only if every expected value is there and every key expected to be missing is missing; then each key has what was desired for it last and no other changes, and otherwise nothing changes |
| `Shards.ShardDBM.ProcessMulti` | tkrzw_dbm_shard.cc:190-316 | the nested callbacks check every condition before the first write and lock shards in ascending order; they succeed if and only if every condition of every shard holds, then each key has what was desired for it last and no other changes, and otherwise nothing changes |
| `Shards.ShardDBM.GroupByShard` | tkrzw_dbm_shard.cc:195-206 | the commands hold exactly the conditions and desired values of their shards, in order, shards ascending |
| `Shards.ShardDBM.ListGroups` | tkrzw_dbm_shard.cc:285-310 | commands in ascending order of shards, each with all conditions and desired values of its shard and no others |
| `Shards.ShardDBM.CompareExchangeMulti` | tkrzw_dbm_shard.cc:190-316 | the sharded operation does to the union of the shards what the single-database operation does, with the same status: it succeeds if and only if every expected value is there and every key expected to be missing is missing, then each key has what was desired for it last and no other changes, and otherwise nothing changes |
| `Shards.ShardsTogether` | tkrzw_dbm_shard.cc:190-316 | the commands of all shards together are the single-database exchange on the union |
| `Shards.FilterDesired` | tkrzw_dbm_shard.cc:195-203 | splitting by shard changes nothing of what is desired for a key |
| `Shards.NoWaitingCircle` | tkrzw_dbm_shard.cc:190-316 | any number of callers that lock in ascending order cannot wait for each other in a circle |
| `ShardIteration.StepForwards` | tkrzw_dbm_shard.cc:668-696 | advancing the slot at the front makes the front the least record above the current one |
| `ShardIteration.StepBackwards` | tkrzw_dbm_shard.cc:698-726 | the same downwards |
| `ShardIteration.ShardIterator.First` | tkrzw_dbm_shard.cc:555-575 | the least record of all shards, or nothing |
| `ShardIteration.ShardIterator.Last` | tkrzw_dbm_shard.cc:577-597 | the greatest record of all shards, or nothing |
| `ShardIteration.ShardIterator.Jump` | tkrzw_dbm_shard.cc:599-620 | the least record at or above a key |
| `ShardIteration.ShardIterator.JumpLower` | tkrzw_dbm_shard.cc:622-643 | the greatest record below a key, or not above it |
| `ShardIteration.ShardIterator.JumpUpper` | tkrzw_dbm_shard.cc:645-666 | the least record above a key, or not below it |
| `ShardIteration.ShardIterator.Next` | tkrzw_dbm_shard.cc:668-696 | the least record above the current one, whichever way the iterator was going |
| `ShardIteration.ShardIterator.Previous` | tkrzw_dbm_shard.cc:698-726 | the greatest record below the current one, whichever way the iterator was going |
| `ShardIteration.ShardIterator.Remove` | tkrzw_dbm_shard.cc:793-810 | removes exactly the current record; going forwards the iterator is then on the least record above it; going backwards with a lone slot it is on the next record of that shard |
| `ShardIteration.RemoveForwards` | tkrzw_dbm_shard.cc:728-810 | going forwards, the front after a removal is the least record above the removed one |
| `ShardIteration.RemovableBackwards` | tkrzw_dbm_shard.cc:755-800 | going backwards, the front of the heap is one for the ascending order that a removal uses if and only if it is alone in the heap |
| `ShardIteration.LandsOnNext` | tkrzw_dbm_shard.cc:793-810 | a removal with a lone slot is on the next record if and only if no other shard has a record between the removed one and the one it is on |
| `ShardIteration.NotRemovableBackwards` | tkrzw_dbm_shard.cc:577-597 | a run to a heap of two slots that the ascending order does not admit |
| `ShardIteration.RemovalSkips` | tkrzw_dbm_shard.cc:793-810 | a run, for any three ordered records in two shards, whose removal passes the middle one over |
| `ShardIteration.ListForwards` | tkrzw_dbm_shard.cc:555-696 | First and repeated Next list every record of every shard once, ascending |
| `ShardIteration.ListBackwards` | tkrzw_dbm_shard.cc:577-726 | Last and repeated Previous list every record once, descending |

## Left out

- Files, memory maps, direct I/O, renames, time and failing reads or writes: a file is a value, a write either happens or not.
- Locks: record locks and the database lock appear only as the steps that they make indivisible.
- Compression, CRC and bucket hashes: bucket hashes are any function of the bytes, the stored CRC is any number that fits its width.
- `FindNextOffset`, `skip_broken_records` and zero regions at the end of a damaged file: heuristics without an exact guarantee; files are well formed.
- Offsets beyond the offset width: no limit on the file size is modelled outside the codec and the pool image.
- A pool capacity of zero: the pool always has room for one block.
- Recounts after a switch of update mode: they hold within one mode only.
- Pool persistence after a crash: the pool image is written by a clean close only.
- The dead-key database of the backward import: a set of keys.
- BabyDBM comparators: any order given by a rank of keys in the reals from 0 to 1, which covers every strict weak order on the keys of a run.
- BabyDatabase.BabyDBM.ProcessImpl: a permitted removal of the only record of a leaf below the root, where the source reads the first record of an empty leaf; `Process` shows that runs of single operations never come to it.
- BabyDBM.Process: the bounds on nodes are for single-record operations one after another; writers of many records at once, and writers beside each other, may empty a leaf before it is reorganised.
- BabyDBM import and export of records: loops over the operations modelled.
- CacheSlot.ProcessEach and export: loops over the records already related to the recency sequence.
- LinkedHashMap `operator[]`, `insert`, `load_factor` and the LRUCache class: easier than what is modelled.
- DoubleLRUCache with a hot capacity of 0: Get then reads the front of an empty list.
- ShardDBM.ProcessMulti as a public call: its delegating processors do not check and write in two passes.
- ShardIteration.ShardIterator.Remove: going backwards it is for a heap of at most one slot, since popping a heap that is not in the given order has no meaning in C++; `RemovableBackwards` shows that those are the only heaps in that order.
- ShardIterator.Process and Set: the value that a slot has cached, which Process does not renew.
- Keys of different shards that the comparator holds equal.
- The binary heap, `upper_bound` and `lower_bound`: given by what they return.
- SkipDBM, TreeDBM, TinyDBM, AsyncDBM, PolyDBM, command line tools and language bindings.
