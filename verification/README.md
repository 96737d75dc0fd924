# ZestDB storage engine: a Dafny model

ZestDB is a sharded, log-structured key-value database. This project models its storage engine
and durability protocol, its sharded pattern commands, its online snapshot and the text
algorithms of its facade, and proves properties of them over all inputs, all runs and all
interleavings.

`dafny verify dfyconfig.toml` checks everything.

## How the model is laid out

| file | component |
|---|---|
| `Base.dfy`, `Decimal.dfy` | keys, values, locations; little-endian integers; unsigned decimal numbers as `from_chars` reads them |
| `IndexLog.dfy` | the INDEX log: record codec, torn-tail loading, `IndexManager` |
| `WalLog.dfy` | the write-ahead log: codec, `WAL`, sequence numbers over appends, clears and restarts, the merge |
| `Segment.dfy` | one segment file and its shared file position |
| `Storage.dfy` | the segments of a shard: append with rotation and the sentinel test, containment, deletion |
| `Lru.dfy` | the cache: list, table of iterators, recency over whole runs |
| `ShardEngine.dfy`, `Compaction.dfy` | index log plus segments as one value; what each operation does to the stored map; the compactor and its space bound |
| `Cores.dfy` | index log, segments and cache of one shard as one value, against its map |
| `Shard.dfy` | the `Shard` object, every method against the plain map, against the functions of `Cores.dfy` and against the files on disk |
| `Readers.dfy` | such a shard under its reader-writer lock, readers' sub-steps interleaved |
| `Selection.dfy`, `LimitCounter.dfy`, `Sharding.dfy` | the smallest matching keys, the lock-free limit counter, routing and the sharded commands over the shards of `Cores.dfy` |
| `Commands.dfy` | write commands on a plain map; replay absorption, restorable keys |
| `Durability.dfy`, `Crash.dfy`, `Recovery.dfy`, `LostTail.dfy` | volatile and durable copies, crashes, boot and replay, for one shard and for the whole database |
| `Scenarios.dfy` | runs in which the conditions of those theorems are false |
| `Misread.dfy` | records behind a WAL that does not end clean |
| `DiskMarks.dfy` | what the objects have synced, against the durable copies of the crash model |
| `GroupCommit.dfy`, `Batches.dfy` | sessions, WAL bytes and syncs, acknowledgements and the flusher |
| `Snapshot.dfy` | copying file prefixes while writers go on |
| `RegexCost.dfy`, `Tokenizer.dfy`, `CommandLines.dfy`, `Settings.dfy` | the regex cost estimate, command lines, the settings rules |

Objects that the source updates in place are classes (`IndexManager`, `WAL`, `DataSegment`,
`StorageManager`, `LRUCache`, `Shard`, `ShardManager`, `Facade`); their methods are proved against
functions on values, and the run-wide theorems are about those functions. Protocols with
concurrency or crashes (`Readers`, `LimitCounter`, `GroupCommit`, `Crash`, `LostTail`,
`Snapshot`) are state machines over their atomic steps.

## What the model takes for granted

- Values are not empty: `set` refuses an empty value, and a read that returns an empty string is a
  failed read.
- Characters stand for bytes; integers are read from their low eight bits. INDEX and WAL records
  whose fields do not fit their machine types are outside `Fits`. Segment ids, sequence numbers
  and the match counter stay below their machine maxima (`Fits`, `LogFits`, `CounterFits`), and the
  bytes of a segment, with a value more, and twice the live bytes of one stay below 2^64.
  Everything else about record widths follows from the settings rules (`Settings.RunLogLoads`).
  SegSize is any 64-bit number; SegSize + 1 wraps.
- In an INDEX record read from disk offset + size stays below 2^64, as in every record the program
  writes. (The source's 64-bit sum in `contains` wraps: a record whose sum wraps would count as
  contained, and every read of it would fail.) Nor has a live record size 0: none is ever written,
  and the source would keep one whose reads all fail. `Shards.Shard.constructor` and
  `Shards.Shard.Boot` require this.
- I/O succeeds, except where a parameter says otherwise: segment writes and WAL appends, of which a
  failed one leaves any number of its bytes (`fault`), WAL syncs, and flushes.
- `std::hash` is any function and a hash table is walked in any order.
- The crash theorems are about serial runs: a command's WAL record is appended before the next
  command executes. A write command there is one that was carried out in full, as it then is logged;
  that is every `setby` whose value fits, unless SegSize is 2^64-1 (`ShardEngine.AcceptedAll`).
- A crash keeps, of each INDEX and segment file, any byte-prefix not shorter than its last sync. A
  segment file of which no byte was synced may be missing altogether.

## Where the code differs from its documentation or from what one would expect

- Replay orders the merged logs by sequence number, not by time stamp (src/ShardManager.cpp:212).
- A key that the WAL changes by `setby` only is lost when the crash let its new index record reach
  the disk without the value bytes: verification drops the entry, and a replayed `setby` finds no
  key. `Crash.FittingCrashExactly` says exactly when recovery is complete, `Scenarios.PatternSetLost`
  is a run that loses a key.
- Replay refuses a logged value that is larger than the SegSize of that moment, and `scfg` may have
  lowered it. `Crash.CrashRecoversExactly` says exactly when the live map comes back all the same,
  `Scenarios.SmallerSegmentsLose` is a run that loses an acknowledged value. `Crash.RecoveryExact`
  states the same of complete recoveries.
- A pattern command is logged in the shard of its mode word (src/ZestDB.cpp:1229-1235), so a flush
  interrupted between two WAL clears can leave it to be replayed over a newer `set`.
  `Recovery.PartialClearExact` says exactly when it is harmless, `Scenarios.PatternOutlivesSet` is a
  run in which it is not.
- A value flushed long ago is lost when an overwrite that was never acknowledged got only its index
  record to disk. `LostTail.LostTailExact` says exactly when, `Scenarios.UnsyncedOverwriteLost` is
  such a run.
- A key can come back with a value it never had: when its deletion is lost with the unsynced tail of
  one WAL, and a later pattern set, which did not find it, is replayed from another one.
  `LostTail.LostTailExact` covers that, `Scenarios.PatternRevives` is such a run.
- The tombstones that boot writes for dropped entries are not synced, the entries are. After a
  second crash a dropped key can answer with another key's value: `LostTail.RevivedExactly`,
  `Scenarios.AnotherKeysValue`.
- A WAL is never cut: what a failed append or a crash leaves of a record stays, and the reader takes
  the bytes of the next record for the missing ones. An acknowledged and synced write can be lost
  that way: after every partial append to a WAL that ended clean (`GroupCommit.TornAppendLoses`).
  `WalLog.AppendableExact` and `WalLog.TornAppendableExact` say exactly behind which files records
  are read back, `GroupCommit.NextSetIsSafeExact` exactly when the next acknowledged `set` is safe;
  without a partial append every acknowledged write is (`GroupCommit.UntornIsSafe`).
- With SegSize 2^64-1 the failure sentinel SegSize+1 wraps to 0 and collides with the first offset
  of a segment (`Segment.SentinelCollides`): the first `set` of a new shard is refused although its
  value is valid and has been written twice (`Settings.ValidSetRefused`).
- A limited `setby` can be executed again without effect, a limited `delby` exactly when its limit
  is 0 or not below the number of matches (`Commands.SetByTwice`, `Commands.DelByTwice`).
- A bound behind another bound or behind `*`, `+` or `?` is charged copies of the last atom only, or
  of a single state: `a{1000}{1000}` costs 1999, `(...)*{1000}` 999 more than its group.
  `RegexCost.CostUndercounts` says exactly when the charge falls short of the states.
- A `setby` without a limit whose value ends in `lim` and another word, behind at least one word, is
  read as one with a limit: `Tokenizer.SetByRoundTrip`.

## Model

| member | source | states |
|---|---|---|
| `IndexLog.ReplayAppend` | src/IndexManager.cpp:48-60 | appending one record to a log changes its table by that record: the last record of a key wins, a tombstone removes it |
| `IndexLog.ReplayFrame` | src/IndexManager.cpp:48-60 | records about other keys leave a key's location alone |
| `IndexLog.ReplaySource` | src/IndexManager.cpp:48-60 | a key's location always comes from one of its own live records |
| `IndexLog.CompactPreservesTable` | src/IndexManager.cpp:154-188 | a log rewritten as one live record per key, in any order, stands for the same table |
| `IndexLog.DeserializeWhole` | src/IndexManager.hpp:27-81 | a stream that starts with a serialized record yields that record and its length exactly when the key has at most 256 bytes, whatever follows |
| `IndexLog.DeserializeTorn` | src/IndexManager.hpp:51-81 | a record cut anywhere is refused |
| `IndexLog.RecordLayout` | src/IndexManager.hpp:27-81 | a record is 21 bytes of header and its key: the key length, offset, segment, size and tombstone flag at their places, little-endian |
| `IndexLog.LoadPrefix` | src/IndexManager.cpp:40-70 | for every byte-prefix of a log the loader reads exactly the whole leading records, keeps exactly their bytes, and no further acceptable record was whole |
| `IndexLog.LoadWhole` | src/IndexManager.cpp:40-60 | a log is read back in full if and only if all its keys have at most 256 bytes |
| `IndexLog.AppendAfterTruncation` | src/IndexManager.cpp:62-76 | after the torn tail was cut off, records appended later are all read at the next load, behind the recovered ones |
| `IndexLog.LoadIndexIntoMemory` | src/IndexManager.cpp:40-70 | the load loop returns the table of the readable records and the position where reading stopped |
| `IndexLog.IndexManager.constructor` | src/IndexManager.cpp:11-28 | opening a file gives the table of its readable records, rewritten and synced |
| `IndexLog.IndexManager.Compact` | src/IndexManager.cpp:154-188 | the rewritten log has one record per key of the unchanged table and is synced |
| `IndexLog.IndexManager.Append` | src/IndexManager.cpp:72-76 | the file grows by exactly the serialized record |
| `IndexLog.IndexManager.Search` | src/IndexManager.cpp:78-87 | the answer is the one of last-record-wins replay of the whole log |
| `IndexLog.IndexManager.Insert` | src/IndexManager.cpp:107-111 | one live record more, and the table maps the key to its location; table and log still agree |
| `IndexLog.IndexManager.Update` | src/IndexManager.cpp:89-105 | a known key gets the record, a tombstone takes it out of the table; an unknown key leaves log and table alone |
| `IndexLog.IndexManager.FindMatching` | src/IndexManager.cpp:129-142 | each matching key of the table exactly once |
| `IndexLog.IndexManager.Flush` | src/IndexManager.cpp:190-200 | afterwards every byte of the log is on disk, and nothing is left to flush |
| `WalLog.ReadWhole` | src/WAL.cpp:101-120 | a record with its size, command and sequence number is read back, newlines in the command included, with or without the final newline |
| `WalLog.ReadTorn` | src/WAL.cpp:101-116 | a record cut before the end of its sequence number is refused |
| `WalLog.RecordLayout` | src/WAL.cpp:49-55 | a record is its size in 4 bytes, the command, the sequence number in 8 bytes and a newline |
| `WalLog.DecodePrefix` | src/WAL.cpp:85-125 | every byte-prefix of a WAL decodes to exactly the records whose size, body and sequence number fit |
| `WalLog.DecodeMonotone` | src/WAL.cpp:85-125 | bytes appended to a file, whatever they are, never change what was read before them |
| `WalLog.DecodeBehind` | src/WAL.cpp:99-120 | behind a file on which the reader ends clean it reads what it would read in a file of its own |
| `WalLog.AppendableExact` | src/WAL.cpp:40-63 | for any file, every sequence of records appended to it is read back in full behind what was read, if and only if the reader ends clean on it; the next `set`, whatever its number will be, already decides |
| `WalLog.TornAppendableExact` | src/WAL.cpp:20 | so for a log cut at any byte if and only if the cut is at the end of a record, newline included |
| `WalLog.AppendReads` | src/WAL.cpp:40-63 | a whole or partial append changes nothing that was readable or durable, and a whole one behind a file that ends clean is read back and ends clean |
| `WalLog.DoneOnce` | src/WAL.cpp:28-77 | after a sync or a clear that worked the next one needs no I/O and changes nothing |
| `WalLog.WAL.constructor` | src/WAL.cpp:14-26 | any file found on disk, torn or not, is opened as it is and may be cleared although nothing was appended yet |
| `WalLog.WAL.Append` | src/WAL.cpp:40-63 | the object does what the value-level append does, whole or in part; what was readable stays so, and a whole record behind a file that ends clean is read back |
| `WalLog.WAL.Sync` | src/WAL.cpp:65-77 | the object does what the value-level sync does: a successful one makes every byte durable, and it succeeds exactly when nothing is dirty or the I/O does |
| `WalLog.WAL.Clear` | src/WAL.cpp:28-38 | the object does what the value-level clear does, and the file is empty also when the flag lets it skip the work |
| `WalLog.WAL.GetCmds` | src/WAL.cpp:85-125 | on any bytes the loop returns what the reader function says; on a log cut anywhere exactly the whole records |
| `WalLog.StableSort` | src/ShardManager.cpp:212 | ascending sequence numbers, a permutation, and records with equal numbers keep their order |
| `WalLog.CollectAll` | src/ShardManager.cpp:201-212 | all records of all files, each once, sorted stably by sequence number |
| `WalLog.SplitIsPermutation` | src/ShardManager.cpp:205-210 | splitting a history over the shards' files loses and doubles no record |
| `WalLog.ApplyKeepsConsistent` | src/WAL.cpp:40-84 | every append, clear and restart keeps the files the per-shard parts of one history with increasing numbers; the counter stays above all of them |
| `WalLog.MergeIsAppendOrder` | src/ShardManager.cpp:201-215 | over every run of appends, clears and restarts that retain the WALs, the sorted merge is strictly increasing and is exactly the retained records in the order they were appended |
| `WalLog.NumbersConsecutive` | src/WAL.cpp:49-50 | from one restart to the next the records of all files together are numbered one after the other, each appended with the next number |
| `WalLog.RestartNumber` | src/ShardManager.cpp:212-215 | after a restart numbering goes on from the largest number in the files, or from 0 when they are empty |
| `Misread.NeverRead` | src/WAL.cpp:99-120 | behind a file that does not end clean a record is never decoded, if its command does not occur in the file, its first character does not come again and its size is 266 |
| `Misread.UnreadableSet` | src/WAL.cpp:99-120 | so behind every such file below 2^64 bytes some `set` line, whatever its number, is logged in vain |
| `Segment.WriteAppends` | src/DataSegment.cpp:57-89 | an accepted write appends its bytes and returns the old end; a refused or failed one returns the sentinel and leaves the accepted bytes alone |
| `Segment.ReadReturns` | src/DataSegment.cpp:91-113 | a read within the accepted bytes returns them; any read keeps the data and the position invariant |
| `Segment.WriteIsPlaced` | src/DataSegment.cpp:57-89 | without a fault the outcome of a write depends on the contents only, wherever reads have left the file position |
| `Segment.ReadIsSlice` | src/DataSegment.cpp:91-113 | a read returns the bytes of a range within the contents and nothing otherwise, and leaves the contents alone |
| `Segment.SentinelCollides` | src/StorageManager.cpp:48-56 | an accepted write is taken for a failure if and only if SegSize is 2^64-1 and the segment is empty |
| `Segment.ReadBackForever` | src/DataSegment.cpp:57-113 | over every interleaving of reads, reads past the end, and writes, faulty ones included, a written value is read back at the offset its write returned |
| `Segment.DataSegment.constructor` | src/DataSegment.cpp:11-55 | an existing file is opened with all its bytes as content |
| `Segment.DataSegment.Write` | src/DataSegment.cpp:57-89 | the object does what the value-level write does, and its content grows by the value exactly when it was accepted |
| `Segment.DataSegment.Read` | src/DataSegment.cpp:91-113 | the object does what the value-level read does, and its content stays |
| `Segment.DataSegment.IsFull` | src/DataSegment.cpp:115-117 | full exactly when no non-empty value would be accepted |
| `Segment.DataSegment.Flush` | src/DataSegment.cpp:123-133 | every accepted byte is on disk afterwards, and nothing is left to flush |
| `Storage.AppendSpec` | src/StorageManager.cpp:48-87 | fails exactly for a value larger than a segment and, with SegSize 2^64-1, for one that does not go behind bytes already in the latest segment; otherwise the value is readable at the location, in the latest segment; no old byte ever moves |
| `Storage.AppendRotates` | src/StorageManager.cpp:58-87 | an append that succeeds opens at most one segment, and only if the value did not fit behind the latest one's bytes |
| `Storage.AppendAtMax` | src/StorageManager.cpp:48-56 | with SegSize 2^64-1 a fitting value is refused if and only if the latest segment is empty or gone, and is written all the same |
| `Storage.FirstWriteRefused` | src/StorageManager.cpp:77-84 | there the first value of a new shard is written to two segments and refused, the second one is not |
| `Storage.ReadStable` | src/StorageManager.cpp:94-102 | what a location reads does not change when segments grow |
| `Storage.StorageManager.constructor` | src/StorageManager.cpp:18-46 | the files found become the segments, all of them synced, and the latest id is their largest; none found opens segment 1 |
| `Storage.StorageManager.Append` | src/StorageManager.cpp:58-87 | the object, with its segments' file positions, does what the value-level append does and keeps every old byte; nothing becomes durable, and of a segment it opens no byte is |
| `Storage.StorageManager.AppendTo` | src/StorageManager.cpp:48-56 | the segment's own write and the comparison with SegSize + 1 amount to the value-level append to that segment |
| `Storage.StorageManager.Contains` | src/StorageManager.cpp:89-92 | true exactly when the segment exists and holds the whole range |
| `Storage.StorageManager.Read` | src/StorageManager.cpp:94-102 | whatever was read and written before, the bytes at the location or, when it is not contained, nothing; no segment's content changes |
| `Storage.StorageManager.RemoveUnusedSegments` | src/StorageManager.cpp:104-128 | exactly the segments in use remain, with their bytes and with as many of them synced as before; the latest id stays |
| `Storage.StorageManager.Flush` | src/StorageManager.cpp:130-136 | syncing only the segments written since their last sync leaves every byte of every segment on disk and none dirty |
| `Lru.OrderIsRecency` | src/LRUCache.cpp:9-69 | over every run the list holds each cached key once, never more than the capacity (0 included), in descending order of last put or hit |
| `Lru.CapacityIsLast` | src/LRUCache.cpp:50-58 | over every run the capacity is that of the last resize, or of the constructor without one, and never more keys are cached |
| `Lru.StepExactly` | src/LRUCache.cpp:9-69 | over every run what each operation does to the entries: a hit nothing; a put stores the entry and drops nothing while there is room, and otherwise exactly the key whose last put or hit is the oldest; with capacity 0 nothing; a removal its key only |
| `Lru.EvictsOldest` | src/LRUCache.cpp:25-48 | a put that evicts drops exactly one key, the one whose last put or hit is the oldest |
| `Lru.ResizeKeepsNewest` | src/LRUCache.cpp:50-58 | a resize keeps as many keys as fit, and every kept one was used after every dropped one |
| `Lru.PutValid` | src/LRUCache.cpp:25-48 | after a put the key has the new entry, every other cached entry is an old one, and the capacity holds |
| `Lru.LRUCache.constructor` | src/LRUCache.cpp:5-7 | an empty cache of the given capacity |
| `Lru.LRUCache.Get` | src/LRUCache.cpp:9-23 | the cached entry or none; a hit moves its own node to the front, list and table stay in bijection through the stored iterators, and the capacity is as it was |
| `Lru.LRUCache.Put` | src/LRUCache.cpp:25-48 | the value-level put, with list and table in bijection and the capacity as it was |
| `Lru.LRUCache.Resize` | src/LRUCache.cpp:50-58 | the eviction loop drops exactly the tail of the list, and the capacity is the new one |
| `Lru.LRUCache.Remove` | src/LRUCache.cpp:60-69 | exactly the key's node and table entry go, and the capacity is as it was |
| `Lru.LRUCache.EvictWhileOver` | src/LRUCache.cpp:54-57 | the loop ends with as many nodes as fit, the first ones of the list |
| `ShardEngine.SetSpec` | src/Shard.cpp:227-253 | `set` stores the pair and nothing else; it fails, changing no answer, exactly when the append is refused |
| `ShardEngine.DelSpec` | src/Shard.cpp:255-278 | `del` removes the key and nothing else, and succeeds exactly when it was stored |
| `ShardEngine.SetAllSpec` | src/Shard.cpp:315-360 | a pattern set stores the value under exactly the keys whose appends are accepted, and counts them |
| `ShardEngine.AcceptedAll` | src/Shard.cpp:323-353 | below SegSize 2^64-1 these are all given keys, or none when the value is larger than a segment |
| `ShardEngine.AcceptedAtMax` | src/Shard.cpp:334-344 | with SegSize 2^64-1 they are all but the first when the latest segment is empty or gone, otherwise all |
| `ShardEngine.DelAllSpec` | src/Shard.cpp:362-395 | a pattern delete removes exactly the given keys and counts them |
| `Compaction.CompactPreserves` | src/Shard.cpp:124-160 | for every table order compaction changes no value, keeps every entry backed by bytes, and leaves exactly the referenced segments |
| `Compaction.CompactSpaceBound` | src/Shard.cpp:124-160 | when no relocation was refused, the n segments that remain satisfy (n - 2) * SegSize <= 2 * live bytes |
| `Compaction.AlwaysMove` | src/Shard.cpp:136-147 | below SegSize 2^64-1 no relocation is ever refused |
| `Compaction.RelocateInvariants` | src/Shard.cpp:131-149 | after any number of entries: same values, kept entries in place, and next-fit packing of the opened segments |
| `Compaction.MovingFits` | src/Shard.cpp:133-145 | an entry that has to move is smaller than half a segment |
| `Compaction.OldSegmentHalfLive` | src/Shard.cpp:125-135 | an old segment still in use after the pass is at least half live |
| `Compaction.HalfLiveBound` | src/Shard.cpp:133 | segments at least half live hold together at least half their capacity in live bytes |
| `Compaction.CompactGrows` | src/Shard.cpp:124-160 | segments that stay keep their bytes |
| `Shards.Shard.constructor` | src/Shard.cpp:32-80 | boot from any files gives the table of the readable records without the entries whose bytes are missing, each with its tombstone logged, and a cache of the configured capacity that agrees with it; what it leaves on disk is a booted disk of the crash model, with that disk's sync marks |
| `Shards.Shard.Boot` | src/Shard.cpp:75-90 | verification and cache warm-up on the loaded index establish the shard invariant |
| `Shards.Shard.VerifyIndexEntries` | src/Shard.cpp:438-463 | exactly the entries whose bytes exist remain, and one tombstone is logged for each other |
| `Shards.Shard.FillCache` | src/Shard.cpp:162-187 | warming the cache changes no answer and caches as many stored keys as fit |
| `Shards.Shard.Get` | src/Shard.cpp:189-225 | the map's value or not found, through cache, index and segment; a read never fails; a value read from a segment is cached, and the shard as a value is that of `GetOne` |
| `Shards.Shard.Set` | src/Shard.cpp:227-253 | the map gains the pair; exactly a refused append changes nothing, in the cache neither, and is reported; the shard is that of `SetOne`, and nothing becomes durable |
| `Shards.Shard.Del` | src/Shard.cpp:255-278 | the map and the cache lose the key; the reply says whether it was there; the shard is that of `DelOne`, and nothing becomes durable |
| `Shards.Shard.GetBy` | src/Shard.cpp:280-313 | matching pairs, none twice: all of them, or as many as the shared counter leaves of the limit, and the counter grows by their number |
| `Shards.Shard.SetBy` | src/Shard.cpp:315-360 | exactly the matching keys whose appends are accepted get the value, and their number is reported; below SegSize 2^64-1 these are all matches, or none for an oversized value; the shard is that of `SetMany`, and nothing becomes durable |
| `Shards.Shard.DelBy` | src/Shard.cpp:362-395 | exactly the matching keys go, and their number is reported; the shard is that of `DelMany`, and nothing becomes durable |
| `Shards.Shard.MatchingKeys` | src/Shard.cpp:397-408 | the smallest matching keys in byte order, at most `limit` |
| `Shards.Shard.CompactSegments` | src/Shard.cpp:109-160 | no answer changes although cached locations go stale, exactly the referenced segments remain, below SegSize 2^64-1 within the space bound; whatever disk of the crash model had the shard's sync marks before, its compaction has them afterwards |
| `Shards.Shard.RelocateSparse` | src/Shard.cpp:124-149 | the relocation loop does to the files what the value-level loop does |
| `Shards.LiveBytesOf` | src/Shard.cpp:125-128 | the table of live bytes per segment is right for every segment |
| `Shards.Shard.FlushData` | src/Shard.cpp:410-417 | all bytes of all segments and of the index are on disk afterwards, no answer changes; whatever disk of the crash model had the shard's sync marks before, its flush has them afterwards |
| `Shards.Shard.ReloadSettings` | src/Shard.cpp:465-478 | the shard works with the new SegSize, the cache has the new capacity and drops only what does not fit, no answer changes |
| `DiskMarks.AppendTracks` | src/Shard.cpp:227-278 | a command that only appends, on files whose sync marks a disk of the crash model has, leaves the marks that disk keeps |
| `DiskMarks.FlushTracks` | src/Shard.cpp:410-417 | files synced in full are the flushed disk of the crash model |
| `DiskMarks.CompactTracks` | src/Shard.cpp:131-159 | the compactor's syncs, all of them when something moved and none of a segment otherwise, leave the compacted disk of the crash model |
| `DiskMarks.BootTracks` | src/Shard.cpp:75-80 | a booted shard's files are a booted disk of the crash model |
| `DiskMarks.FlushedImages` | src/Shard.cpp:410-417 | after a flush a crash leaves an image if and only if it is the whole files |
| `DiskMarks.MovedIsSeen` | src/Shard.cpp:131-150 | something was moved if and only if the table changed |
| `DiskMarks.CompactedImages` | src/Shard.cpp:131-159 | what a crash may leave after a compaction, exactly: the whole files when the table changed; otherwise the whole rewritten INDEX and, of each segment that stays, any prefix not shorter than its last sync |
| `DiskMarks.QuietCompaction` | src/Shard.cpp:131-159 | when every entry lies in the latest segment or in one at least half live, nothing moves: table and latest segment stay, and exactly the segments that hold an entry remain as they were |
| `Cores.GetOneInv` | src/Shard.cpp:189-225 | a `get` through cache, index and segment answers as the map and keeps the cache equal to it; what it read from a segment becomes the newest entry, so does a cached key |
| `Cores.SetManyInv` | src/Shard.cpp:315-360 | a pattern set on index, segments and cache does to the map what the accepted appends say |
| `Cores.DelManyInv` | src/Shard.cpp:362-395 | a pattern delete on index and cache takes exactly the keys from the map |
| `Readers.WriteInv` | src/Shard.cpp:227-278 | every write, compaction or resize does to index, segments and cache what it does to the map |
| `Readers.WritesAreCommands` | src/Shard.cpp:227-395 | below SegSize 2^64-1 what a writer does to the map is what the command of that name does, or nothing for an oversized value; compaction and resize do nothing |
| `Readers.CompactingTrims` | src/Shard.cpp:109-160 | a compaction among the readers leaves exactly the segments the index names and does not touch the cache |
| `Readers.ResizeTakes` | src/Shard.cpp:465-478 | a resize gives the shard its SegSize and the cache its capacity; no other writer changes either |
| `Readers.ReadsAsGet` | src/Shard.cpp:189-225 | taken alone, the sub-steps of a read give the answer and the cache of the whole `get` |
| `Readers.ReadInv` | src/Shard.cpp:189-225 | every sub-step of a read keeps the cache equal to the map and what the other readers know true |
| `Readers.NextInv` | src/Shard.cpp:189-306 | every step of any thread keeps the invariant |
| `Readers.AnswersAreTheMaps` | src/Shard.cpp:189-306 | in every interleaving every answered `get` is the map's answer, never a failed read, and every finished scan lists each matching pair exactly once |
| `Selection.NthElementAndResize` | src/ShardManager.cpp:87-90 | the `n` smallest keys |
| `Selection.Sort` | src/ShardManager.cpp:91 | strictly ascending in the order `Less`, same keys |
| `Selection.LessIsByteOrder` | src/ShardManager.cpp:87-91 | the order is that of strings: `a` precedes `b` if and only if it is a proper prefix or smaller at the first difference |
| `Selection.SmallestAreFirst` | src/ShardManager.cpp:87-91 | the `n` smallest keys of a set are exactly those that fewer than `n` of its keys precede in that order, listed in it |
| `Selection.MatchingKeys` | src/Shard.cpp:397-408 | the `limit` smallest of a shard's matches, whatever the table order |
| `Selection.FirstMatchingKeys` | src/ShardManager.cpp:76-93 | per-shard truncation, concatenation, truncation and sort give the first `limit` of all matching keys in order, whatever the shards and the table orders |
| `Selection.SmallestUnique` | src/ShardManager.cpp:87-91 | a set has only one subset of its `n` smallest members |
| `Selection.CoveringSuffices` | src/ShardManager.cpp:82-90 | the smallest keys of the candidates are the smallest of all |
| `LimitCounter.StepInv` | src/Shard.cpp:284-298 | every load, fetch_add and compensating fetch_sub of any worker keeps: counter = accepted + pending, accepted <= limit |
| `LimitCounter.PendingImpliesLimit` | src/Shard.cpp:293-298 | a counter at or above the limit means that the limit is already reached by accepted entries |
| `LimitCounter.LimitExact` | src/Shard.cpp:280-306 | in every interleaving never more than `limit` entries are accepted, and min(limit, matches) once all workers finished |
| `LimitCounter.ResponseExact` | src/Shard.cpp:280-306 | in every interleaving the delivered keys are matching keys of the tables, none twice, never more than `limit`, and min(limit, matching keys) of them once all workers finished |
| `LimitCounter.ReachedStopsScans` | src/IndexManager.cpp:129-142 | in every interleaving, once the counter has reached the limit no worker looks at another entry of its table |
| `LimitCounter.StepProgress` | src/IndexManager.cpp:129-142 | every step of an unfinished worker brings it nearer its end, whatever the others do |
| `Sharding.LookupRouted` | src/ShardManager.cpp:27-45 | a key is stored only in the shard its hash selects, so looking there is looking in the whole map |
| `Sharding.PointwiseMerge` | src/ShardManager.cpp:95-161 | shards that agree with a map key by key make up that map |
| `Sharding.MergeResponses` | src/ShardManager.cpp:59-72 | splicing the shards' arrays gives the array of all rows, empty arrays included |
| `Sharding.DumpMore` | src/Shard.cpp:302-313 | the text of an array grows by a comma and its next element |
| `Sharding.ShardManager.GetShardId` | src/ShardManager.cpp:27-30 | in range, and the shard that answers for the key |
| `Sharding.ShardManager.Get` | src/ShardManager.cpp:32-35 | the answer of the whole map, through the shard's cache, index and segments; only that shard's cache changes |
| `Sharding.ShardManager.Set` | src/ShardManager.cpp:37-40 | the whole map gains the pair, unless the key's own shard refuses the append, which below SegSize 2^64-1 it does exactly for an oversized value; no other shard changes |
| `Sharding.ShardManager.Del` | src/ShardManager.cpp:42-45 | the whole map loses the key; found exactly when it was there; no other shard changes |
| `Sharding.ShardManager.GetBy` | src/ShardManager.cpp:47-74 | one array of pairs of the whole map, none twice: all matches, or min(limit, matches) of them, with their number |
| `Sharding.ShardManager.FirstMatching` | src/ShardManager.cpp:76-93 | the keys of the whole map that match and that fewer than `limit` other matches precede in byte order, in that order |
| `Sharding.ShardManager.SetBy` | src/ShardManager.cpp:95-127 | limited or not, exactly chosen keys get the value and their number is reported; below SegSize 2^64-1 these are all chosen keys, or none for an oversized value |
| `Sharding.ShardManager.DelBy` | src/ShardManager.cpp:129-161 | limited or not, exactly the chosen keys go and their number is reported |
| `Sharding.ShardManager.Replay` | src/ShardManager.cpp:217-221 | a serial log, limited commands included, replayed from any base map gives what the commands that fit make of it, whatever the shard count, the hash and the table orders |
| `Commands.RunPerKey` | src/Shard.cpp:227-278 | an unlimited log acts on each key separately |
| `Commands.OverwrittenForgets` | src/ShardManager.cpp:201-224 | once a log sets or deletes a key, what it held before does not matter |
| `Commands.ChosenExactly` | src/ShardManager.cpp:76-93 | a limited pattern command acts on the matching keys that fewer matching keys than its limit precede in byte order |
| `Commands.ReplayAbsorbs` | src/ShardManager.cpp:201-224 | replaying a whole unlimited log on a state that holds, for each key, the effects of some prefix of it ends where running it once ends |
| `Commands.SetByTwice` | src/ShardManager.cpp:95-109 | a pattern set, limited or not, executed twice is executed once |
| `Commands.DelByTwice` | src/ShardManager.cpp:129-143 | a `delby` with limit n executed twice is executed once if and only if n is 0 or at least the number of matches |
| `Commands.SaturatedReplayAbsorbs` | src/ShardManager.cpp:201-224 | a log with limited commands is absorbed when no limit cuts anything off, neither in the run nor in the replay |
| `Commands.ReplayExact` | src/ShardManager.cpp:217-221 | replaying the commands whose values fit gives a key's live value if and only if the key is absent, or was found right and nothing that fits touches it, or the last command that wrote it fits and is a `set` or still finds the key |
| `Recovery.SetIsWrite` | src/Shard.cpp:227-253 | the engine's `set` is a write of the crash model |
| `Recovery.DelIsWrite` | src/Shard.cpp:255-278 | the engine's `del` is a write of the crash model |
| `Recovery.SetByIsWrite` | src/Shard.cpp:315-360 | the engine's pattern set, all of whose appends are accepted, is a write of the crash model, for any table order |
| `Recovery.DelByIsWrite` | src/Shard.cpp:362-395 | the engine's pattern delete is a write of the crash model, for any table order |
| `Recovery.IdleIsWrite` | src/ShardManager.cpp:37-45 | a shard a command does not concern does nothing, which is a write of the crash model |
| `Recovery.SetRefuses` | src/Shard.cpp:233-241 | a refused `set` only leaves bytes in segments |
| `Recovery.SetByRefuses` | src/Shard.cpp:336-344 | so does a pattern set of an oversized value |
| `Durability.FlushKeeps` | src/Shard.cpp:410-417 | a flush keeps every key rebuildable |
| `Durability.CompactKeeps` | src/Shard.cpp:109-160 | a compaction, with the sync marks that `DiskMarks.CompactedImages` describes, keeps every key rebuildable and answered as before |
| `Durability.RefusedKeeps` | src/ShardManager.cpp:217-221 | a command refused during replay keeps every key rebuildable and answered as before |
| `Durability.BootFinds` | src/Shard.cpp:75-80 | after a crash with any durable prefixes, load, truncation and verification answer exactly what the loaded entry names, if its bytes are there |
| `Durability.RebuiltExactly` | src/Shard.cpp:438-463 | after such a crash, replaying the commands that fit rebuilds a key if and only if it is restorable from the log, the value sizes and what the files say |
| `Durability.RestorableIffKept` | src/Shard.cpp:438-463 | when every value fits, that is if and only if the key is not one changed by pattern sets only whose entry verification drops |
| `Crash.NextInv` | src/ShardManager.cpp:163-224 | every command, reconfiguration, replayed or refused command, flush, compaction, WAL clear and crash keeps all keys rebuildable and all answers right |
| `Crash.LoggedWhere` | src/ZestDB.cpp:1229-1235 | a `set` or `del` is logged in its key's shard, a pattern command in the shard of its mode word, `re`, `sw`, `ct` or `ew` in any case, hashed as it is written |
| `Crash.SegSizeIsLast` | src/Shard.cpp:465-478 | over every run, commands are executed and replayed with the SegSize of the last configuration or boot |
| `Crash.RecoveryRebuildsLiveMap` | src/ShardManager.cpp:201-224 | over every run, crashes during recovery included, the database answers as the live map whenever no replay is pending |
| `Crash.CrashRecoversExactly` | src/Shard.cpp:75-80 | for a crash at any point of any run and any SegSize afterwards, load, truncation, verification and replay rebuild exactly the live map if and only if every key is restorable |
| `Crash.FittingCrashExactly` | src/ShardManager.cpp:201-224 | when all logged values still fit, if and only if verification drops no key that the WAL changes by pattern sets only |
| `Crash.RecoveryExact` | src/ShardManager.cpp:201-224 | the same of complete recoveries: once boot has replayed the last record, with any flushes and compactions in between, the database answers as the live map if and only if every key is restorable |
| `Crash.SingleKeyCrashRecovers` | src/ShardManager.cpp:201-224 | with `set` and `del` only, and values that fit, every complete recovery gives back the live map, whatever reached the disk |
| `Recovery.SyncedReboot` | src/Shard.cpp:410-417 | booting from fully synced files finds every value again |
| `Recovery.AgreesExact` | src/ShardManager.cpp:217-221 | replayed records leave an absent key absent if and only if the last of them to set or delete it, if any, deletes; a present one as it is if and only if that one sets, and the last to touch it writes its value |
| `Recovery.PartialClearExact` | src/ShardManager.cpp:163-178 | when only some shards' WALs outlive a flush, replaying what is left gives the live map if and only if it agrees with it on the keys that have both a surviving and a cleared record |
| `Scenarios.PatternOutlivesSet` | src/ZestDB.cpp:1229-1235 | a run of two shards in which a crash between two WAL clears lets an outliving pattern set undo a later `set` |
| `Scenarios.PatternSetLost` | src/Shard.cpp:438-463 | a run and a crash after which a complete replay loses a key that was set by pattern |
| `Scenarios.SmallerSegmentsLose` | src/StorageManager.cpp:75-86 | a run and a crash after which the replay, under a lowered SegSize, loses an accepted value |
| `Scenarios.UnsyncedOverwriteLost` | src/Shard.cpp:438-463 | a run and a crash that loses an unsynced overwrite, and with it the flushed value |
| `Scenarios.AnotherKeysValue` | src/Shard.cpp:438-463 | after a first crash whose boot drops a key, a `set` of another one and a second crash, the dropped key answers with the other key's value |
| `Scenarios.PatternRevives` | src/ZestDB.cpp:1229-1235 | a run and a crash that loses a deletion but not a later pattern set logged in another shard, and brings the key back with a value it never had |
| `LostTail.RecoveredValue` | src/WAL.cpp:40-77 | what comes back of a key, by its last durable record that fits: what boot finds; or what a `set` or deletion left; or a pattern set's value if the key is present by then |
| `LostTail.LostTailExact` | src/WAL.cpp:40-77 | after a crash that loses any unsynced records, unlimited pattern commands included, a key holds a value it had, not older than its last durable record that fits, if and only if: without one, it survives verification or was once absent; with a `set` or deletion, always; with a pattern set, it is present as it was then, or that value or absence came again |
| `LostTail.AcknowledgedSurvives` | src/Server.cpp:150-157 | when all records about a key are durable and fit, the crash takes nothing from it, if and only if they are not pattern sets only or verification does not drop it |
| `LostTail.RevivedExactly` | src/Shard.cpp:438-463 | a key dropped at boot and not written since is there again after a second crash if and only if the crash cuts the INDEX before its tombstone and other values fill its range; it then answers with their bytes |
| `GroupCommit.RunInv` | src/Server.cpp:125-157 | every interleaving of sessions and flusher, partial appends included, keeps the protocol's invariant |
| `GroupCommit.ClearInv` | src/ShardManager.cpp:163-178 | clearing a WAL, which also resets `dirty` between another session's append and its sync, loses nothing: everything logged is covered by the flush |
| `GroupCommit.AcknowledgedIsSafe` | src/Server.cpp:125-160 | in every interleaving, failed and partial appends, failed syncs and flushes included, every acknowledged write whose WAL ended clean before it has a record the reader finds in the durable bytes, or all its effects in synced data files |
| `GroupCommit.NextSetIsSafeExact` | src/WAL.cpp:40-63 | in every reachable world with an idle session, the flusher at rest and WALs below 2^64 bytes: every line read as a `set` that is logged, synced and acknowledged next is safe if and only if its WAL ends clean |
| `GroupCommit.UntornIsSafe` | src/WAL.cpp:52-62 | in every interleaving without a partial append every acknowledged write is safe |
| `GroupCommit.TornAppendLoses` | src/WAL.cpp:46-62 | whatever a run did before: once an append is torn in a WAL that ended clean, some `set` logged, synced and acknowledged behind it is lost |
| `GroupCommit.FirstAppendTorn` | src/WAL.cpp:46-62 | that happens from the first command of a new database on |
| `GroupCommit.FlushEmptiesWals` | src/ShardManager.cpp:163-178 | from every reachable world, an undisturbed flush empties all WALs if every shard could be flushed, and otherwise leaves every WAL as it was; the files show what the flushed shards hold |
| `Batches.AcknowledgedOnce` | src/Server.cpp:125-160 | in every interleaving an acknowledgement is of exactly one session's batch, after all its syncs succeeded, and no write is acknowledged twice |
| `Batches.NeverAcknowledged` | src/Server.cpp:150-154 | a session whose sync failed is closed for good, and no write of its last batch is ever acknowledged |
| `Batches.SyncOutcome` | src/ShardManager.cpp:226-232 | from every reachable world, a batch whose syncs nobody disturbs is acknowledged if and only if no dirty WAL fails, and every WAL that did not fail is on disk |
| `Batches.AppliedExactly` | src/Server.cpp:125-160 | in every interleaving a shard's memory shows exactly the writes that have effects in it |
| `Snapshot.CopyPrefix` | src/ZestDB.cpp:32-44 | succeeds exactly when the file is long enough whenever a chunk is read, and then copies exactly `size` bytes, each as the file had it at that moment |
| `Snapshot.CopyIsOriginal` | src/ZestDB.cpp:531-559 | whenever each byte of each file is read during the later appends and rotations, those of limited commands included, the copy is the shard's files at the moment the sizes were recorded |
| `Snapshot.MeanwhileServed` | src/ZestDB.cpp:531-559 | meanwhile the shards go on serving: each append stores its pair, unless it is refused, or erases its key, and leaves the other shards alone |
| `Snapshot.SnapshotIsPointInTime` | src/ZestDB.cpp:519-560 | booting from the copy answers every key as the database did at that moment |
| `RegexCost.RePasses` | src/ZestDB.cpp:786-842 | scanning a printed tree, its atoms with any quantifiers behind them, in any surroundings, charges exactly its cost and needs exactly its depth |
| `RegexCost.RegexCostExact` | src/ZestDB.cpp:776-843 | a well-formed pattern with any sequences of quantifiers is refused if and only if it is longer than 1024, nested deeper than 32, or costs more than 100000; without stacked bounds the cost is the number of states of the pattern written out |
| `RegexCost.CostUndercounts` | src/ZestDB.cpp:801-836 | the cost never exceeds the states written out, and is less if and only if somewhere a bound that repeats stands behind an operator or another such bound |
| `RegexCost.QuantifierStates` | src/ZestDB.cpp:800-814 | `{n}` and `{n,}` stand for n copies of the atom, `{n,m}` for the larger number, never less than one, an operator for one state more |
| `RegexCost.StrayPasses` | src/ZestDB.cpp:790-836 | a closing bracket outside all groups and a brace that is never closed are charged as characters |
| `RegexCost.UnclosedPasses` | src/ZestDB.cpp:814-830 | a class that is never closed swallows the rest and costs one, so does a backslash at the end |
| `RegexCost.RepeatExactly` | src/ZestDB.cpp:800-814 | the numbers between braces: an empty part counts 0, the digits at the front of a part count whatever follows them, and no digits or more than 100000 refuse the pattern |
| `RegexCost.RoundSafe` | src/ZestDB.cpp:784-842 | for all inputs the stack is never empty and every number in it stays at most 100000 |
| `RegexCost.LargestBound` | src/ZestDB.cpp:802-813 | the loop over the numbers between braces finds the largest, or refuses an unreadable or too large one |
| `RegexCost.SkipClass` | src/ZestDB.cpp:816-826 | the loop stops at the bracket that closes the class, or behind the end |
| `RegexCost.ChargeRound` | src/ZestDB.cpp:797-836 | the loop body, with every 64-bit sum and product in range and no access to an empty stack |
| `RegexCost.IsRegexTooComplex` | src/ZestDB.cpp:776-843 | the loop terminates on every input and refuses exactly what the scan function refuses |
| `Tokenizer.WordsAreRuns` | src/ZestDB.cpp:921-931 | the words are exactly the maximal runs of non-blank characters, in order |
| `Tokenizer.SplitWords` | src/ZestDB.cpp:921-931 | the word loop returns those words with their positions |
| `Tokenizer.ScanLimit` | src/ZestDB.cpp:990-994 | the last `lim` that has a word behind it decides; without one there is no limit |
| `Tokenizer.VerbIs` | src/ZestDB.cpp:896-960 | the six commands by their long and short names in any case, and `lim` |
| `Tokenizer.SetExact` | src/ZestDB.cpp:912-975 | a line is read as the `set` of a key and a value if and only if it is one printed with them: the name in any case, any blanks between, a whitespace-free key, a value starting with a non-blank and not ending in CR or LF |
| `Tokenizer.SetRoundTrip` | src/ZestDB.cpp:968-975 | a printed `set` is read back |
| `Tokenizer.SetByRoundTrip` | src/ZestDB.cpp:1005-1035 | a `setby` printed without a limit is read back if and only if the value's last but one word, behind another one, is not `lim` |
| `Tokenizer.SetByLimitRoundTrip` | src/ZestDB.cpp:1014-1035 | a `setby` printed with `lim n` is read back for every value that starts and ends with a non-blank; n outside 32 bits is refused |
| `Tokenizer.DelByRoundTrip` | src/ZestDB.cpp:1036-1058 | a `delby` printed with or without a limit is read back; a limit outside 32 bits is refused |
| `CommandLines.GetExact` | src/ZestDB.cpp:962-967 | a line is read as the `get` of a key if and only if its first word is `get` or `g`, in any case, and its second one the key |
| `CommandLines.DelExact` | src/ZestDB.cpp:976-981 | the same of `del` and `d` |
| `CommandLines.GetByExact` | src/ZestDB.cpp:982-1004 | a line is read as a `getby` with this mode, pattern and limit if and only if its words say so: `getby` or `gb`, the mode in any case, the pattern, and a last `lim` with that number behind it, or none |
| `CommandLines.DelByExact` | src/ZestDB.cpp:1036-1058 | the same of `delby` and `db` |
| `CommandLines.RefusedExactly` | src/ZestDB.cpp:962-1058 | by the words of the line: exactly when each refusal is given, too few words or no 32-bit number as limit, and exactly when the line is none of the six commands |
| `CommandLines.NumbersAreDecimal` | src/ZestDB.cpp:902-906 | the numbers meant are decimal |
| `Settings.LoadIsLegal` | src/ZestDB.cpp:362-385 | every loaded configuration is legal: MaxValueSize < SegSize, MaxKeySize <= 256, no interval of 0 |
| `Settings.LoadExactly` | src/ZestDB.cpp:286-385 | a file loads exactly when every number fits its type and passes its test, and each setting then is the one given or its default, a MaxKeySize above 256 being 256 |
| `Settings.FixedExactly` | src/ZestDB.cpp:286-385 | the same of the settings that only a restart changes |
| `Settings.ScfgExactly` | src/ZestDB.cpp:1068-1213 | per parameter name: `scfg` succeeds if and only if the text is a number or flag in that parameter's range, and then exactly the field of that name has the value the text denotes |
| `Settings.Facade.SetConfig` | src/ZestDB.cpp:1068-1213 | `scfg` does what `ScfgExactly` says of its name and text, keeps the settings legal and the fixed ones alone; an unknown name, useSSL or a refused value leaves all as it is |
| `Settings.Facade.Reload` | src/ZestDB.cpp:388-424 | a reload succeeds exactly when the file loads and changes no fixed setting, and keeps the settings legal; a failed one leaves them alone |
| `Settings.DoKeepsInv` | src/ZestDB.cpp:698-774 | every command, reconfiguration and compaction keeps settings, stored entries and index records within their limits |
| `Settings.DoesExactly` | src/ZestDB.cpp:690-774 | in every legal state what each command does to the stored map, by the read-only flag, the size limits, the JSON rule and the refusals of the appends; reconfigurations and compactions do nothing to it |
| `Settings.RunLogLoads` | src/IndexManager.hpp:65 | in every reachable state the settings are legal and the INDEX bytes are read back in full, as long as segment ids fit 32 bits |
| `Settings.AcceptedSetSucceeds` | src/StorageManager.cpp:48-87 | in every reachable state a `set` that passes validation is stored if and only if its append is not refused, which below SegSize 2^64-1 it never is; it then opens at most one segment and leaves a record the loader accepts |
| `Settings.ValidSetRefused` | src/ZestDB.cpp:1082-1092 | `scfg` accepts SegSize 2^64-1, and the first valid `set` on a new shard then fails, the second succeeds |

## Left out

- Sockets, TLS, timers, sessions' read and write queues, the HTTP statistics server, authentication, roles and their checks in `execCmd`.
- The batch framing of `do_read_command`; only the order apply, log, sync, acknowledge of a batch is modelled.
- YAML and JSON parsing, `std::regex` matching, zip writing, directory walking, archive retention. A pattern is a predicate on keys, a JSON row an opaque non-empty string, a configuration file the values it gives.
- Crashes in the middle of a compaction pass, and fsync failures of the compactor.
- Limited pattern commands in the crash theorems: a limited `delby` is not absorbed by replay. They are in `Sharding.ShardManager.Replay`, in `Commands.SaturatedReplayAbsorbs` and in the snapshot theorems.
- Partial WAL appends in the crash theorems, which take the records that can be read; `WalLog` and `GroupCommit` say which those are.
- Order of two concurrent writers in the log versus in memory, and keys that come or go between `firstMatchingKeys` and the per-key writes.
- Cache warm-up running beside the new compactor thread at startup, and the server accepting before replay is finished.
- Sharding.ShardManager.SetBy: with SegSize 2^64-1 it does not say which of the chosen keys are refused; `ShardEngine.AcceptedAtMax` does, per shard.
- Sharding.ShardManager.Replay: with SegSize 2^64-1 only validity is promised, because which appends are refused depends on how the shards' segments happen to be filled.
- RegexCost.RegexCostExact: malformed patterns, whose refusal is `RegexCost.IsRegexTooComplex` against the scan function; `std::regex` may refuse some well-formed ones.
- Storage.StorageManager.Contains: does not model the wrap-around of offset + size at 64 bits; see above.
- Shards.Shard.GetBy: `taken` does not change while the loop runs; the workers' interleavings on the counter are `LimitCounter.LimitExact`.
- Sharding.ShardManager.GetBy: shard after shard; the workers' interleavings on the shared counter are `LimitCounter.ResponseExact`, which says which keys are delivered and does not build the JSON text.
- Compaction.CompactSpaceBound: with SegSize 2^64-1 it is stated for passes in which no relocation is refused, because a refused one leaves its old segment in place.
- Logger, performance counters, thread pool internals, help text, `main.cpp`, benchmarks.
