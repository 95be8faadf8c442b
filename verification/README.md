# Verification of the time series database

A Dafny model of the parts of the database where correctness rests on an argument rather than on a single function,
with proofs for all inputs and all runs.  `dafny verify dfyconfig.toml` checks everything.

**Writes against deletes** (`EpochTracker.dfy`, `EpochProtocol.dfy`, `EpochWaking.dfy`, `Guard.dfy`).  Writes and deletes of a shard take
generations from a tracker; a delete waits for the writes before it and blocks the later writes its guard matches.
The tracker is a class proved to take the steps of a transition system with any number of writers and deleters.
Proved of every run: a delete and a write it conflicts with never touch the shard together, the counters mean what
they should, nobody is ever stuck, no wake-up is lost, and everybody finishes.  Guards are compiled from the delete's condition by a pruning
compiler: it keeps the meaning, and it is known exactly when the compiled guard is conservative.

**The series file** (`Bytes.dfy`, `SeriesKey.dfy`, `SeriesSegment.dfy`, `RobinHood.dfy`, `HashMap.dfy`, `SeriesLog.dfy`,
`SeriesIndex.dfy`, `SeriesIndexObject.dfy`, `SeriesPartition.dfy`, `SeriesPartitionRuns.dfy`).  Series keys are encoded, logged
in segments, indexed in memory and in Robin Hood tables on disk, compacted and recovered.  Each layer is proved against the
one below, up to one statement: after any run of creates, deletes, compactions, swaps and restarts a partition answers as a
plain map from keys to ids would, and reads the key of a live id back from its segments.

**Replicated writes** (`ShardMapping.dfy`, `Quorum.dfy`, `PointsWriter.dfy`).  From the points of a request to shards, from the
answers of the owners of a shard to a verdict, and from the verdicts to the answer to the request: nil means every point
is stored, at as many owners of the shard it belongs to as the level asks for.

**Aggregation and windows** (`MergeTree.dfy`, `Aggregation.dfy`, `Mean.dfy`, `TopBottom.dfy`, `Window.dfy`).  Partial aggregates merged in any
shape equal one reduction, the bounded heap equals sort-and-take, and time windows tile time.

**Line protocol text** (`Escaping.dfy`, `TagText.dfy`, `FieldText.dfy`, `PointSplit.dfy`).  Escapes, scanners, tags, fields and the
splitting of long points, as round trips with their exact conditions.

Things the proofs found that the source or its comments do not say:

- A guard misses a point for `!=` on a tag the point lacks, and for a regular expression on `_name`.
- `SeriesSegmentSize` wraps for segment ids from 65514 on.
- Names, tag keys and tag values of 65536 bytes or more do not survive the series key codec, and different series can compare equal.
- `rhh.HashMap` leaves a new key uncounted when the element that ends up in the free slot has the empty key, which may be another key than the one inserted; so far behind, the count lets a table fill up, and the next insertion never ends.
- A series key whose stated length is close to 2^64 is read as a short one.
- `ShardGroupAt` can miss a covered time when groups overlap.
- A shard without owners fails a write at level All, which requires no acknowledgement of it.
- An empty time range can be counted as one bucket, and a range of more than 2^63 nanoseconds as a negative number of them.
- A range that begins in a window cut off at the least time is counted as one bucket too few.
- Near the ends of time, adding the offset wraps, and a window can end before it starts.
- `StringSize` is wrong for the least time, so `Split` may leave a point longer than asked.
- Positive infinity is written as a field that reads back as a boolean.
- A tag or field key, or a measurement name, that ends in a backslash swallows the separator behind it.

`Collections.dfy` and `Arithmetic.dfy` hold what several modules share, 64-bit wrap-around among it.  In the text modules a
byte string is a sequence of numbers below 256.  Where the source loops or updates fields the model does too, proved against functions on values; `Abs`, `State` and ghost fields such as `seen`, `stream` and `entries` connect the two.

## Model

| member | source | states |
|---|---|---|
| `Guard.ReductionPreservesMatches` | tsdb/guard.go:95-143 | The pruned AND/OR guard matches a point exactly when the unpruned tree over the same leaf guards does, for every expression and point. |
| `Guard.CompiledGuardIsPruned` | tsdb/guard.go:95-143 | A compiled guard is nil, the zero value, or a tree in which neither occurs anywhere. |
| `Guard.LeafIsConservative` | tsdb/guard.go:146-217 | A comparison misses no selected point, however comparisons are evaluated, if and only if it is safe on the point: the tag is there, or its absence does not satisfy the comparison. |
| `Guard.GuardIsConservative` | tsdb/guard.go:95-253 | A guard, in every part of its expression, misses no point the expression selects, if and only if every comparison in it is safe on the point. |
| `Guard.FilterableIsSafe` | tsdb/guard.go:220-253 | Comparisons are safe on a point that carries every tag compared, when no regular expression is applied to `_name`. |
| `Guard.GuardCanMiss` | tsdb/guard.go:192-248 | Two conditions that select a point their guard does not match: `!=` on a missing tag, and a regular expression on `_name`. |
| `Guard.GuardIsExact` | tsdb/guard.go:95-253 | An expression of nothing but `=` and `!=` tests of the measurement and of tags the point carries once matches exactly when it selects the point. |
| `Guard.ExistenceIsExact` | tsdb/guard.go:162-253 | For a regular expression, or two tags compared, the guard matches exactly the points that have the tag, or one of the two. |
| `Guard.GuardMatches` | tsdb/guard.go:39-55 | The loop over the points returns true exactly when some point lies in the time range, has a listed name (or none is listed) and matches the expression; a nil guard matches any write. |
| `Guard.DeletedPointsAreGuarded` | tsdb/guard.go:24-55 | A write holding a point a delete is about to remove, and on which its comparisons are safe, is matched by the guard that delete installs. |
| `Guard.OnlyDeletedPointsAreGuarded` | tsdb/guard.go:24-55 | With such an expression a write is blocked exactly if it holds a point in the time range, of a listed measurement, that the expression selects. |
| `Guard.UnconditionalDeleteGuardsAll` | tsdb/guard.go:24-55 | Without a condition a write is blocked exactly if it holds a point in the time range, of a listed measurement. |
| `EpochTracker.PendingDelete.Done` | tsdb/epoch_tracker.go:37-44 | One write fewer to wait for; the last one wakes every sleeper, and nobody is left asleep with nothing to wait for. |
| `EpochTracker.PendingDelete.Check` | tsdb/epoch_tracker.go:47-53 | One round of the waiting loop: passes exactly when nothing is pending, else sleeps, and never with nothing to wait for. |
| `EpochTracker.Latch.Done` | tsdb/guard.go:67-72 | The guard is done and nobody is left asleep on it. |
| `EpochTracker.Latch.Check` | tsdb/guard.go:58-64 | One round of the guard's waiting loop: passes exactly when the guard is done, else sleeps. |
| `EpochTracker.EpochTracker.constructor` | tsdb/epoch_tracker.go:23-27 | A new tracker is the initial state of the protocol. |
| `EpochTracker.GuardsOf` | tsdb/epoch_tracker.go:69-79 | Ranging over the registered deletes returns each one's guard exactly once, in some order. |
| `EpochTracker.DoneWithAll` | tsdb/epoch_tracker.go:85-96 | Exactly the deletes of this generation or a later one have one write fewer to wait for, and nobody is left asleep. |
| `EpochTracker.EpochTracker.StartWrite` | tsdb/epoch_tracker.go:63-80 | The object takes the protocol's step: a new generation, one more write, every registered guard handed out once. |
| `EpochTracker.EpochTracker.EndWrite` | tsdb/epoch_tracker.go:83-99 | The object takes the protocol's step: exactly the deletes of a later generation have one write fewer to wait for, and none of their sleepers is left with nothing to wait for. |
| `EpochTracker.EpochTracker.WaitDelete` | tsdb/epoch_tracker.go:127-147 | The object takes the protocol's step: a new generation, registered with a counter of its own set to the open writes. |
| `EpochTracker.EpochTracker.Deregister` | tsdb/epoch_tracker.go:118-123 | Only that delete's registration goes. |
| `EpochProtocol.EnterSeesEveryDelete` | tsdb/epoch_tracker.go:63-80 | A write is handed every registered delete, each once, all of an earlier generation. |
| `EpochProtocol.EveryConfigStarts` | tsdb/epoch_tracker.go:23-27 | Any number of writes and deletes, with any points and guards, can start from a new tracker. |
| `EpochProtocol.EndKeepsCounters` | tsdb/epoch_tracker.go:83-99 | Ending a write keeps every `pending` equal to the number of open earlier writes: the `gen <= largest` shortcut never skips a decrement that is due. |
| `EpochProtocol.StepKeepsInv` | tsdb/epoch_tracker.go:63-147 | Every step of every writer and deleter keeps the invariant. |
| `EpochProtocol.RunKeepsInv` | tsdb/epoch_tracker.go:63-147 | The invariant holds after every run, of any number of writers and deleters. |
| `EpochProtocol.MutualExclusion` | tsdb/store.go:1378-1388 | In no reachable state is a write past its guard waits while a delete whose guard matches its points is past its own wait. |
| `EpochProtocol.CountersInEveryRun` | tsdb/epoch_tracker.go:37-139 | In every reachable state `writes` counts the open writes, `pending` of each registered delete counts the open writes of an earlier generation, neither is negative, and `largest` bounds every registration. |
| `EpochProtocol.LeastGenerationCanStep` | tsdb/epoch_tracker.go:46-123 | The unfinished participant of least generation can always step. |
| `EpochProtocol.NoDeadlock` | tsdb/epoch_tracker.go:46-123 | As long as somebody is unfinished somebody can step. |
| `EpochProtocol.WaitsExactly` | tsdb/epoch_tracker.go:46-123 | A write that is not ended can step unless it is at a guard that matches its points and is not done, and a delete unless an earlier write is open: unrelated writes and deletes never hold each other up. |
| `EpochProtocol.StepReducesWork` | tsdb/epoch_tracker.go:63-147 | Every step reduces a measure of the work left. |
| `EpochProtocol.RunsAreBounded` | tsdb/epoch_tracker.go:63-147 | No run is longer than the work left at its start. |
| `EpochProtocol.MaximalRunsFinishEverybody` | tsdb/store.go:1321-1323 | A run that cannot be extended has finished every write and every delete. |
| `EpochWaking.RunRefines` | tsdb/epoch_tracker.go:37-53 | With sleeping and waking by broadcast every run is, but for the sleep, a run of the protocol, so all that holds there holds here. |
| `EpochWaking.StepKeepsInv` | tsdb/epoch_tracker.go:37-53 | Every step keeps that whoever sleeps has reason to: a counter broadcast at exactly zero and a guard broadcast when done wake everybody they should. |
| `EpochWaking.NoLostWakeup` | tsdb/epoch_tracker.go:37-53 | In no reachable state does anybody sleep whose wait is over. |
| `EpochWaking.NoDeadlock` | tsdb/guard.go:58-72 | As long as somebody is unfinished somebody who is awake can step. |
| `EpochWaking.RunsAreBounded` | tsdb/epoch_tracker.go:37-147 | Every run is finite, sleeping included. |
| `EpochWaking.MaximalRunsFinishEverybody` | tsdb/store.go:1378-1388 | A run that cannot be extended has finished everybody and left nobody asleep. |
| `Bytes.BigEndianRoundTrip` | tsdb/series_file.go:337-354 | Reading n big-endian bytes gives the number written modulo 256 to the n. |
| `Bytes.BigEndianDigits` | tsdb/series_file.go:337-354 | The most significant byte comes first. |
| `Bytes.UvarintRoundTrip` | tsdb/series_file.go:332-335 | A 64-bit number written as a base 128 varint and followed by any bytes is read back with its length. |
| `Bytes.UvarintDigits` | tsdb/series_file.go:332-335 | Seven bits a byte, least significant first, the high bit set exactly while more follow, and no zero byte at the end. |
| `Bytes.CompareTransitive` | tsdb/series_file.go:413-416 | Byte-wise comparison is transitive, and strictly so. |
| `Bytes.CompareDecides` | tsdb/series_file.go:413-416 | The first difference decides: the smaller byte, or the end of one text, comes first. |
| `SeriesKey.SeriesKeySize` | tsdb/series_file.go:470-480 | The size computed without encoding is the length of the encoded key. |
| `SeriesKey.AppendSeriesKey` | tsdb/series_file.go:271-324 | Appends exactly the encoded key; the length panic at the end cannot be reached. |
| `SeriesKey.GenerateSeriesKeys` | tsdb/series_file.go:449-458 | Each key cut out of the shared buffer is the key encoded on its own. |
| `SeriesKey.KnownKey` | tsdb/series_file.go:271-324 | The bytes of one encoded key. |
| `SeriesKey.ParseSeriesKeyInto` | tsdb/series_file.go:372-393 | The loop computes the recursive parse, whatever destination it is given, malformed input included; the total length is not looked at. |
| `SeriesKey.ParseTagsRoundTrip` | tsdb/series_file.go:347-354 | Encoded tags followed by any bytes parse back if and only if every key and value is shorter than 65536 bytes. |
| `SeriesKey.ParseRoundTrip` | tsdb/series_file.go:271-393 | An encoded key followed by any bytes parses back to its name and tags if and only if name, tag keys and tag values are all shorter than 65536 bytes. |
| `SeriesKey.ReadSeriesKeyRoundTrip` | tsdb/series_file.go:327-335 | Reading a key off the front of a buffer returns exactly the encoded key and the remainder, for keys of any length. |
| `SeriesKey.HugeLengthIsSmall` | tsdb/series_file.go:327-330 | A length whose sum with that of its prefix wraps is taken for a small one. |
| `SeriesKey.CompareSeriesKeys` | tsdb/series_file.go:395-445 | The loop over two encoded keys computes their recursive comparison; empty keys compare as the original says, malformed ones are reported. |
| `SeriesKey.CompareKeysOfParsed` | tsdb/series_file.go:395-445 | Comparing any two byte strings that parse is comparing the names and then the tags they parse to. |
| `SeriesKey.CompareKeysOfEncoded` | tsdb/series_file.go:395-445 | Comparing encoded keys of strings under 65536 bytes is comparing names, then tags as CompareTags does. |
| `SeriesKey.LongNamesLookEqual` | tsdb/series_file.go:395-445 | Names of 65536 bytes that start with a zero byte compare equal whatever else they hold. |
| `SeriesKey.CompareTagsEqual` | models/points.go:1912-1932 | CompareTags is zero exactly for equal tags. |
| `SeriesKey.CompareTagsAntisymmetric` | models/points.go:1912-1932 | CompareTags changes sign when its arguments are swapped. |
| `SeriesKey.CompareTagsTransitive` | models/points.go:1912-1932 | CompareTags is transitive. |
| `SeriesKey.CompareSeriesIsTotalOrder` | tsdb/series_file.go:395-445 | The order of series is total: zero exactly for equal name and tags, antisymmetric, transitive. |
| `SeriesSegment.SplitOfJoin` | tsdb/series_segment.go:295-302 | Splitting a joined offset gives back segment and position. |
| `SeriesSegment.JoinOrder` | tsdb/series_segment.go:295-297 | Offsets are ordered by segment, then by position. |
| `SeriesSegment.SegmentSizeRange` | tsdb/series_segment.go:319-328 | A segment has between 4 MB and 256 MB if and only if its id + 22 does not wrap a uint16; no segment is larger. |
| `SeriesSegment.SegmentSizeGrows` | tsdb/series_segment.go:319-328 | Later segments are at least as large. |
| `SeriesSegment.SegmentSizeDoubles` | tsdb/series_segment.go:319-328 | The first segment has 4 MB and each later one twice as much as the one before, up to 256 MB, while the id + 22 does not wrap. |
| `SeriesSegment.SeriesKeysAreSelfDelimiting` | tsdb/series_file.go:327-335 | Encoded series keys are found in front of any bytes. |
| `SeriesSegment.AppendSeriesEntry` | tsdb/series_segment.go:383-398 | Appends flag, id and, for inserts only, the key; any other flag is refused. |
| `SeriesSegment.KnownEntry` | tsdb/series_segment.go:368-398 | The bytes of an insert, of a tombstone and of the header of a segment. |
| `SeriesSegment.ReadEntryRoundTrip` | tsdb/series_segment.go:368-398 | An entry followed by any bytes is read back with its size. |
| `SeriesSegment.RecordsInOrder` | tsdb/series_segment.go:237-251 | Offsets of the records of a segment strictly increase and stay within it. |
| `SeriesSegment.ReadImage` | tsdb/series_segment.go:237-251 | At the start of each entry of a zero-padded segment that entry is read, and after the last one the end. |
| `SeriesSegment.Create` | tsdb/series_segment.go:59-88 | A created segment is writable and holds no entry; creation fails exactly for ids 65514 to 65516, whose wrapped size is below the header's. |
| `SeriesSegment.SeriesSegment.WriteLogEntry` | tsdb/series_segment.go:186-203 | Accepted exactly when the segment is writable and the end of the entry, in 32 bits, lies in it. An entry that fits becomes the last one, at the returned offset, which lies before the new end; a refused one changes nothing; for one whose end wraps, what is lost is stated. |
| `SeriesSegment.AcceptanceIsExact` | tsdb/series_segment.go:201-203 | Acceptance means that the entry fits exactly when its end does not wrap into the segment. |
| `SeriesSegment.SeriesSegment.InitForWrite` | tsdb/series_segment.go:117-136 | The size found by scanning is the size the writer had, so writing goes on where it stopped. |
| `SeriesSegment.SeriesSegment.ForEachEntry` | tsdb/series_segment.go:237-251 | Visits exactly the entries written, in order, each with flag, id, offset and key. |
| `SeriesSegment.KeyAtOffset` | tsdb/series_segment.go:273-292 | Reading at the offset of an inserted record plus the entry header, in whichever segment it is, returns the key inserted. |
| `RobinHood.DistIsMasked` | pkg/rhh/rhh.go:256-260 | The distance is the masked difference of the original. |
| `RobinHood.NothingAhead` | tsdb/series_index.go:195-215 | Once a probe has travelled further than the element it looks at, no element of that hash lies ahead. |
| `RobinHood.Lookup` | tsdb/series_index.go:195-215 | On a table that keeps the probe invariant the loop with early exit finds an element if and only if scanning all slots would; on any table it stops within capacity + 1 probes. |
| `RobinHood.LookupEager` | tsdb/series_index.go:246-256 | The same of the variant that compares before it gives up. |
| `RobinHood.Upgrade` | pkg/rhh/rhh.go:86-107 | Putting a further travelled element into a slot keeps every probe path unbroken. |
| `RobinHood.Insert` | tsdb/series_partition.go:634-707 | Wherever a slot is free or holds the same tag, insertion keeps the probe invariant and unique tags, adds exactly the new element in place of one with the same tag, loses nothing, reports whether it replaced one and which element took the free slot, and stops within the capacity the original asserts. |
| `RobinHood.NeverEnds` | pkg/rhh/rhh.go:66-113 | Otherwise the loop is not over after any number of rounds. |
| `HashMap.NextPow2` | pkg/rhh/rhh.go:264-271 | The least power of two, at least 2, not below v; none is found exactly above 2^61. |
| `HashMap.HashMap.constructor` | pkg/rhh/rhh.go:26-33 | A new map is empty. |
| `HashMap.HashMap.Get` | pkg/rhh/rhh.go:44-50 | Returns what the map holds for the key, or nothing. |
| `HashMap.HashMap.InsertElem` | pkg/rhh/rhh.go:66-113 | Updates the map at one key; the returned flag is true exactly if the key was there or the element that took the free slot has the empty key. |
| `HashMap.HashMap.Grow` | pkg/rhh/rhh.go:124-141 | Doubles the table and keeps its contents. |
| `HashMap.HashMap.Put` | pkg/rhh/rhh.go:52-64 | Updates the map at one key, growing as needed; ends exactly if it grows, a slot is free or the key is known. The count stays right exactly if the key was there or the element that takes the free slot does not have the empty key; so it does while the empty key is not used. |
| `HashMap.HashMap.ValidIsReady` | pkg/rhh/rhh.go:52-64 | While the count is right, and with a load factor of at most 100, there is always a free slot to insert into or the table grows. |
| `HashMap.EmptyKeyIsCounted` | pkg/rhh/rhh.go:52-113 | Three keys put into a new map, the empty one last: all are counted, for any hash that puts them into neighbouring slots. |
| `HashMap.OtherKeyIsNotCounted` | pkg/rhh/rhh.go:52-113 | Three keys put into a new map, of which one is counted. |
| `HashMap.FifthKeyIsNeverPut` | pkg/rhh/rhh.go:52-113 | After four keys the count is so far behind that the full table is not grown, and putting a fifth one never ends. |
| `SeriesLog.OneLivePerKey` | tsdb/series_partition.go:206-236 | In a well-formed log a key has at most one live id. |
| `SeriesLog.OneKeyPerId` | tsdb/series_partition.go:421-430 | In a well-formed log an id has one key and is not zero. |
| `SeriesLog.OffsetsIncrease` | tsdb/series_segment.go:186-198 | Offsets in a log are positive and strictly increase. |
| `SeriesIndex.ExecTracks` | tsdb/series_index.go:164-183 | Executing a record as it is appended keeps the index in step with the log. |
| `SeriesIndex.DeletedIsRight` | tsdb/series_index.go:157-162 | IsDeleted is true exactly of ids that were never inserted or have been deleted, with or without an on-disk part. |
| `SeriesIndex.OffsetIsRight` | tsdb/series_index.go:239-257 | An offset found is that of the record that inserted the id, and one is found for every id that exists, with or without an on-disk part. |
| `SeriesIndex.OffsetOfLive` | tsdb/series_index.go:239-257 | At the offset found for a live id stands the record that inserted it with its key. |
| `SeriesIndex.LookupIsRight` | tsdb/series_index.go:185-216 | FindIDBySeriesKey returns the live id of the key, and zero only if there is none, with or without an on-disk part. |
| `SeriesIndex.ReplayTracks` | tsdb/series_index.go:110-134 | Recovery over an index file of a log prefix brings the index in step with the whole log. |
| `SeriesIndex.RecoveryIsRight` | tsdb/series_index.go:110-257 | After Recover, ids, offsets and deletedness are those of the whole log, though only the records after the file's offset are executed. |
| `SeriesIndex.RecoveryWithoutFile` | tsdb/series_index.go:110-134 | Without a file the recovered maps equal those built by executing every record live. |
| `SeriesIndexObject.SeriesIndex.constructor` | tsdb/series_index.go:63-93 | An opened index has the file's tables and counters and empty maps. |
| `SeriesIndexObject.SeriesIndex.ExecEntry` | tsdb/series_index.go:164-183 | The object changes as the value-level step says. |
| `SeriesIndexObject.SeriesIndex.Insert` | tsdb/series_index.go:147-149 | As executing an insert record. |
| `SeriesIndexObject.SeriesIndex.Delete` | tsdb/series_index.go:152-154 | As executing a tombstone record. |
| `SeriesIndexObject.SeriesIndex.Recover` | tsdb/series_index.go:110-134 | The loops over segments and entries replay the whole log on the reopened index. |
| `SeriesIndexObject.SeriesIndex.FindOffsetByID` | tsdb/series_index.go:239-257 | The map and then the probing loop find the offset OffsetIsRight is about, or zero. |
| `SeriesIndexObject.SeriesIndex.IsDeleted` | tsdb/series_index.go:157-162 | Computes the deletedness that DeletedIsRight is about. |
| `SeriesIndexObject.SeriesIndex.FindIDBySeriesKey` | tsdb/series_index.go:185-216 | The map and then the probing loop find the id a linear search finds, or zero, deleted ids left out. |
| `SeriesIndexObject.SeriesIndex.FindIDByNameTags` | tsdb/series_index.go:218-224 | Looks up the encoded key of name and tags. |
| `SeriesPartition.CompactIndexTo` | tsdb/series_partition.go:544-632 | The compacted file ends at the last insert of the log, has its id as greatest id, and holds exactly the live series up to there, in tables of the least power of two above the load factor, on which the probing lookups are right; it fails only for tables beyond 2^61 slots. |
| `SeriesPartition.AddToTables` | tsdb/series_partition.go:634-707 | Adds one live record to both tables, within the steps the original asserts. |
| `SeriesPartition.CountSuffices` | tsdb/series_partition.go:545-547 | The capacity computed from the index is enough for every live series. |
| `SeriesPartition.CutAtLastInsert` | tsdb/series_partition.go:560-563 | Stopping at the first record past the last insert stops at a place recovery can start from. |
| `SeriesPartition.TablesAreUnique` | tsdb/series_partition.go:583-593 | A compacted file has one slot per key and one per id. |
| `SeriesPartitionRuns.NewPartitionInv` | tsdb/series_partition.go:51-98 | A new partition has the invariant: empty log, empty index, first id one more than its number. |
| `SeriesPartitionRuns.OpKeepsInv` | tsdb/series_partition.go:178-542 | Creating, deleting, compacting, swapping in a compacted file and restarting each keep the partition's invariant. |
| `SeriesPartitionRuns.RecoveredIsRight` | tsdb/series_partition.go:63-138 | Reopening from any file that was right for an earlier log is right for the present one. |
| `SeriesPartitionRuns.CreateRefines` | tsdb/series_partition.go:178-282 | Creating gives a new key the next id and leaves an existing key its id. |
| `SeriesPartitionRuns.DeleteRefines` | tsdb/series_partition.go:293-323 | Deleting removes exactly that id's key. |
| `SeriesPartitionRuns.RunRefines` | tsdb/series_partition.go:178-542 | Over every run the partition behaves as a catalogue of live keys. |
| `SeriesPartitionRuns.PartitionRefinesCatalogue` | tsdb/series_partition.go:63-542 | After every run of creates, deletes, compactions, swaps and restarts, lookup and deletedness answer as the catalogue does, the offset of a live id is that of the record that inserted it with its key, and the next id is the catalogue's. |
| `SeriesPartitionRuns.LiveKeysAreReadBack` | tsdb/series_partition.go:339-352 | After every run, the key of a live id is read back from the segments the log is written to. |
| `SeriesPartitionRuns.KeyIsReadBack` | tsdb/series_partition.go:475-491 | Reading at the offset of any inserted record of a log written to segments gives its key. |
| `SeriesPartitionRuns.IndexKnowsGreatestId` | tsdb/series_index.go:164-177 | After every run the index knows the greatest id given out. |
| `SeriesPartitionRuns.IdsNameTheirPartition` | tsdb/series_file.go:237-239 | In every run, every id a partition gives out is new and its residue is the partition's number. |
| `SeriesPartitionRuns.OpenSegments` | tsdb/series_partition.go:119-126 | Scanning the segments from the back computes the recursive scan. |
| `SeriesPartitionRuns.MaxSeriesID` | tsdb/series_segment.go:225-234 | The greatest id inserted in a segment, or zero. |
| `SeriesPartitionRuns.ScanBackIsEnough` | tsdb/series_partition.go:119-126 | Ids that grow along the log make the scan from the back find the next id a scan of the whole log would, however the log is cut into segments. |
| `Quorum.AcknowledgedIsStored` | coordinator/points_writer.go:430-471 | An owner's acknowledgement means the points are stored there; at level Any it may also mean they are queued for a retry. |
| `Quorum.ReplyIsLastError` | coordinator/points_writer.go:430-471 | An error an owner sends is that of the last thing tried; a write that is only queued keeps its own. |
| `Quorum.WriteToShard` | coordinator/points_writer.go:410-518 | For any arrivals: nil exactly if enough acknowledgements come before the first timeout or closing, else that disturbance, else by whether anybody acknowledged. |
| `Quorum.OrderDoesNotMatter` | coordinator/points_writer.go:473-517 | The verdict is of the same kind for every order of the same answers. |
| `Quorum.VerdictByCount` | coordinator/points_writer.go:473-517 | Without disturbance nil means at least the required acknowledgements, exactly when there are owners or the level asks for some; partial write means some but too few; failure means none, and is the first error to arrive. |
| `Quorum.NoOwnersNoSuccess` | coordinator/points_writer.go:414-421 | With no owners at level All the required zero acknowledgements still count as a failed write. |
| `Quorum.SuccessIsAcknowledged` | coordinator/points_writer.go:414-506 | A write succeeds exactly if, before anything disturbed it, an owner acknowledged at level Any or One, more than half of the owners at level Quorum, and every owner at level All or any other. |
| `Quorum.SuccessIsStored` | coordinator/points_writer.go:430-506 | A successful write at any level but Any is stored at an owner, at more than half of them or at all, as the level says, whatever happened at each. |
| `Quorum.StoredIsSuccess` | coordinator/points_writer.go:430-517 | When every owner answers undisturbed, at any level but Any, a write succeeds exactly if it is stored at the owners the level asks for. |
| `Quorum.QuorumsShareAnOwner` | coordinator/points_writer.go:414-421 | Two successful quorum writes to the same owners were acknowledged by a common owner. |
| `ShardMapping.Append` | coordinator/points_writer.go:315-319 | The list with the group added is sorted and otherwise unchanged. |
| `ShardMapping.SortedMeans` | services/meta/data.go:1662-1678 | Groups are sorted by where they end or were truncated, and then by where they start. |
| `ShardMapping.ShardOfIs` | services/meta/data.go:1715-1717 | A point's shard is the one its hash stops at going round the shards of the group that contains its time. |
| `ShardMapping.ShardGroupAt` | coordinator/points_writer.go:304-312 | The binary search loop computes the recursive search. |
| `ShardMapping.SearchFindsGroup` | coordinator/points_writer.go:288-312 | On disjoint groups the one candidate searched for is the group containing the time, or there is none. |
| `ShardMapping.SearchIsExact` | coordinator/points_writer.go:304-312 | On any list of groups, truncated, overlapping or out of order, the search finds a group for exactly the covered times if and only if, for each group and each place the search can end, the times of the group between the ends probed on the way are none that the group found there starts after. |
| `ShardMapping.UntruncatedIsExact` | coordinator/points_writer.go:304-312 | On a sorted list of groups that are not truncated that is so if and only if no group starts in a gap before a group sorted in front of it. |
| `ShardMapping.OverlapIsMissed` | coordinator/points_writer.go:304-312 | Two overlapping groups for which a covered time is not found. |
| `ShardMapping.ShardMapping.constructor` | coordinator/points_writer.go:141-147 | A new mapping holds no point. |
| `ShardMapping.ShardMapping.MapPoint` | coordinator/points_writer.go:150-156 | Adds the point to its shard and to no other; reallocation discards nothing. |
| `ShardMapping.GroupsFor` | coordinator/points_writer.go:241-265 | The groups collected are sorted and disjoint and cover every point not older than the retention bound; each is the answer to one call for such a point. An error is that of the next call, for the first such point they do not cover. |
| `ShardMapping.MapShards` | coordinator/points_writer.go:232-282 | Every shard gets, in order, exactly the points whose group and hash lead to it, and stands under its id, where nothing else stands. Dropped are exactly the points older than the retention bound that no group made for a point inside it contains. |
| `ShardMapping.OneShardPerId` | coordinator/points_writer.go:267-281 | Points that lead to the same shard id lead to the same shard. |
| `ShardMapping.FixedGroupsAreTrustworthy` | services/meta/data.go:639-677 | Groups of a fixed length, each with a shard of its own, meet what MapShards assumes of the metadata. |
| `ShardMapping.EveryPointGoesOnce` | coordinator/points_writer.go:267-281 | A point goes to its one target as often as it occurs and nowhere else. |
| `ShardMapping.GoesToItsTarget` | coordinator/points_writer.go:267-281 | Every point goes somewhere. |
| `PointsWriter.AllReported` | coordinator/points_writer.go:391-404 | As many reports as shards means every shard reported. |
| `PointsWriter.Collect` | coordinator/points_writer.go:385-406 | The first event that is not the success of a shard decides: a timeout, closing, or a failure with the verdict of that shard; without one, whether points were dropped. Undisturbed, nil is returned exactly if nothing was dropped and every shard met its level. |
| `PointsWriter.OneOutcome` | coordinator/points_writer.go:385-406 | That leaves one result. |
| `PointsWriter.WritePoints` | coordinator/points_writer.go:333-406 | A write that returns nil dropped nothing; every point is in the list of the shard its time and hash lead to, the write to that very shard met its level, and at any level but Any an owner, more than half of them or all, as the level says, stored it. Any other result is told: no database, no policy, a group that was not created, or what the first event that is not a success makes of it; undisturbed, nil is returned whenever nothing was dropped and every shard met its level. Dropped are exactly the points older than the retention bound that no group made for a point inside it contains. |
| `Aggregation.FuncReducer.constructor` | query/functions.gen.go:603-611 | A new reducer has seen nothing. |
| `Aggregation.StartMakesNoDifference` | query/call_iterator.go:109-448 | The reduce functions give the same without a previous point as with the initial one. |
| `Aggregation.FuncReducer.Aggregate` | query/functions.gen.go:615-628 | The reducer stands for one more point. |
| `Aggregation.FuncReducer.Emit` | query/functions.gen.go:631-633 | Emits the reduction of the points seen. |
| `Aggregation.ReduceRaw` | query/call_iterator.go:109-448 | Reducing raw points gives their answer: the count, the sum modulo 2^64, or the best point of the selector, and the number of points. |
| `Aggregation.ReducePartials` | query/iterator.go:111-147 | Reducing partial answers, counts by summing, gives the answer for all their points. |
| `Aggregation.AnswerIsUnique` | query/call_iterator.go:109-448 | An answer depends only on which points there are. |
| `MergeTree.RawPoints` | query/iterator.go:111-147 | All points below a tree of merges over raw shards are raw. |
| `Aggregation.EvalAnswers` | query/iterator.go:111-147 | Any tree of merges over shards gives an answer for all its points. |
| `Aggregation.DistributionDoesNotMatter` | query/iterator.go:111-147 | Any distribution over non-empty shards, merged in any order and nesting, gives the value, time and number of points of one reducer over all points. |
| `Aggregation.CountsMustBeSummed` | query/iterator.go:139-146 | Counting partial counts instead of summing them would be wrong. |
| `Mean.MeanReducer.constructor` | query/functions.go:135-137 | A new reducer has seen nothing. |
| `Mean.MeanReducer.Aggregate` | query/functions.go:140-148 | The reducer stands for one more point, weighted by the points it stands for itself. |
| `Mean.MeanReducer.Emit` | query/functions.go:151-157 | Emits the weighted mean and the number of points. |
| `Mean.PartialStandsForPoints` | query/functions.go:140-157 | A partial mean carries the weight and the sum of its points. |
| `Mean.EvalIsReduce` | query/functions.go:109-157 | Any tree of merges gives the mean of all its points. |
| `Mean.DistributedMean` | query/functions.go:109-157 | Any distribution over non-empty shards gives the arithmetic mean of all points and their number. |
| `TopBottom.Up` | query/functions.go:1935-1950 | Sifting up restores the heap and keeps its points. |
| `TopBottom.Down` | query/functions.go:1935-1950 | Sifting down restores the heap and keeps its points. |
| `TopBottom.RootIsWorst` | query/functions.go:1935-1950 | No point of a heap is worse than its root. |
| `TopBottom.Reducer.constructor` | query/functions.go:1924-1933 | A new reducer keeps nothing of an empty stream. |
| `TopBottom.Reducer.Aggregate` | query/functions.go:1935-1950 | After every point the heap keeps at most n points of the stream, none worse than one left out, and leaves none out while there is room. |
| `TopBottom.Reducer.Emit` | query/functions.go:1952-1964 | Emits the kept points and keeps them: for top by descending values, for bottom by ascending ones, equal values by ascending times; what was left out comes after all of them in that order. |
| `TopBottom.SortBestFirst` | query/point.gen.go:354-378 | Sorted, and a permutation. |
| `TopBottom.EmitIsSortAndTake` | query/functions.go:1920-2102 | What is emitted has the values and times of the first n of the stream sorted by descending (top) or ascending (bottom) values and ascending times. |
| `Window.WindowOf` | query/iterator.go:788-864 | The branches, with Go's truncating remainder and every sum in 64 bits, compute the floored window, cut off at the ends of time. |
| `Window.ModIsFloored` | query/iterator.go:802-808 | Correcting a negative truncated remainder gives the floored one. |
| `Window.WindowContainsTime` | query/iterator.go:788-864 | A window contains its time exactly when the shifted time is a time and neither bound leaves 64 bits, or at two times where the window wraps to be all integers but the greatest. |
| `Window.WholeRangeIsOneWindow` | query/iterator.go:788-792 | Without an interval the window is the whole range with both its ends, but empty if that ends at the greatest integer. |
| `Window.WindowIsRegular` | query/iterator.go:788-864 | A window contains its time, has the length of the interval and starts at the offset modulo the interval exactly when nothing is cut off and no sum wraps, but for wrapping the interval divides. |
| `Window.WindowsTile` | query/iterator.go:788-864 | Such windows are equal or disjoint, and contain each other's times exactly when equal. |
| `Window.WindowsAtTheEnds` | query/iterator.go:788-864 | A time whose window ends before it starts, and one whose window contains it by wrapping twice. |
| `Window.BucketCount` | query/compile.go:1172-1178 | Computes the bucket formula, each operation in 64 bits. |
| `Window.BucketsCountWindows` | query/compile.go:1172-1183 | For every range, interval and offset: the number of different windows met, and exactly when the bucket formula gives it. If the range, less the offset, does not pass the end of the integers, that is when the stretch fits 64 bits and the first of several windows is not cut off at the least time, and otherwise the formula gives too few; if it does pass it, that is when the stretch wraps and the interval divides 2^64 as often as there are windows; an empty range is counted as none exactly when its ends are in neighbouring windows (or one further apart, the earlier cut off, or almost all of time apart). |
| `Window.CutRangeCountsOneLess` | query/compile.go:1172-1183 | A range of several windows whose first is cut off at the least time is counted as one window less. |
| `Window.LongRangeCountsNegative` | query/compile.go:1172-1183 | Hours over five centuries: 4444446 windows, counted as -679649. |
| `Window.EmptyRangeCountsOne` | query/compile.go:1172-1183 | An empty range inside one window is counted as one bucket. |
| `Escaping.EscapeWith` | models/points.go:1249-1257 | Replacing code by code computes the composed escape. |
| `Escaping.UnescapeWith` | models/points.go:1259-1271 | Replacing code by code computes the composed unescape, also when there is no backslash to look for. |
| `Escaping.EscapeRoundTrip` | models/points.go:1226-1271 | Unescaping in the same order of codes undoes escaping, for every byte string. |
| `Escaping.EscapeAllIsByByte` | models/points.go:1226-1257 | Replacing code by code comes to one pass that puts a backslash in front of every byte of the codes. |
| `Escaping.EscapedBytes` | models/points.go:28-37 | The codes are comma and space, and in tags the equals sign. |
| `Escaping.TagRoundTrip` | models/points.go:1249-1271 | unescapeTag undoes escapeTag on every byte string. |
| `Escaping.ScanToLoop` | models/points.go:1138-1154 | The loop stops at the first unescaped stop byte, or the end. |
| `Escaping.ScanExactly` | models/points.go:1138-1154 | Scanning escaped text that does not end in a backslash stops exactly at its end. |
| `TagText.AppendHashKey` | platform/models/points.go:2164-2219 | Appends every tag with a value, escaped, whether or not the escaping pass is skipped. |
| `TagText.KeyOfOneTag` | models/points.go:1609-1620 | A key with one tag, byte by byte. |
| `TagText.WalkTags` | models/points.go:1512-1550 | The loop computes the recursive walk; unescaping only when there is a backslash makes no difference. |
| `TagText.TagsAtMostCommas` | models/points.go:1579-1606 | Every text has at least as many commas as it has tags. |
| `TagText.ParseTags` | models/points.go:1579-1606 | Storing the tags into a slice sized by the commas never goes out of range and returns all of them. |
| `TagText.WalkHashKey` | models/points.go:1512-1550 | Walking the tags written behind a name returns exactly them. |
| `TagText.TagsRoundTrip` | models/points.go:1512-1620 | Walking the key made of a name and tags returns exactly the tags with a value, if and only if there are none, or the name is not empty and neither it nor anything before a separator ends in a backslash. |
| `TagText.TooFewTags` | models/points.go:1512-1550 | Otherwise too few tags come back. |
| `TagText.BackslashSwallowsTag` | models/points.go:1512-1550 | The key `n,a\\=b` has no tag. |
| `FieldText.UnescapeStringField` | models/points.go:1288-1316 | The loop computes the recursive unescape. |
| `FieldText.StringRoundTrip` | models/points.go:1278-1316 | Unescaping undoes escaping of string values, for every byte string. |
| `FieldText.StringWritten` | models/points.go:1278-1284 | A string is written in quotes, with a backslash in front of every quote and backslash. |
| `FieldText.KeyRoundTrip` | pkg/escape/strings.go:1-21 | Unescaping undoes escaping of field keys, for every byte string. |
| `FieldText.EscapedKeyBytes` | pkg/escape/strings.go:1-21 | A backslash goes in front of every comma, quote, space and equals sign. |
| `FieldText.IsEscaped` | pkg/escape/bytes.go:28-41 | True exactly if a backslash stands before a special byte somewhere. |
| `FieldText.AppendUnescaped` | pkg/escape/bytes.go:45-65 | Moving stretches between backslashes appends the unescaped text. |
| `FieldText.NoEscapeNoChange` | pkg/escape/bytes.go:28-65 | Where IsEscaped finds nothing, unescaping changes nothing. |
| `FieldText.ScanFieldValue` | models/points.go:1201-1224 | The loop stops at the first comma outside quotes, or the end. |
| `FieldText.ScanFindsEnd` | models/points.go:1201-1224 | The scan finds the end of a value that a comma or nothing follows exactly when the value has no comma outside quotes and closes its quotes, the last only if something follows. |
| `FieldText.StringIsScanned` | models/points.go:1278-1284 | An escaped string in quotes is such a value, whatever the string. |
| `FieldText.MarshalBinary` | models/points.go:2094-2176 | Appending field by field gives the section of all fields. |
| `FieldText.TwoFieldsWritten` | models/points.go:2094-2176 | Two fields, byte by byte. |
| `FieldText.TypedIsScanned` | models/points.go:1201-1224 | Integers, floats, booleans, strings and nothing are scanned to their end. |
| `FieldText.MarshalledIsShown` | models/points.go:1997-2176 | A marshalled field is shown with its kind and its value, an integer without its suffix, except for positive infinity. |
| `FieldText.NumbersStartWith` | models/points.go:2011 | The bytes a number may start with. |
| `FieldText.FieldIterator.Next` | models/points.go:1984-2027 | Moves on by one field: the item shown and what remains are the fields of what remained before; at the end nothing changes; panics exactly when there is no equals sign and the slice ends at its capacity. |
| `FieldText.IterateFirst` | models/points.go:1984-2027 | A field with an escaped key is shown whole, and the rest as if it stood alone, exactly when the end of its value is found. |
| `FieldText.FieldsRoundTrip` | models/points.go:1984-2176 | Iterating over any marshalled fields shows of each its key, whether it is an integer, an unsigned integer, a float, a boolean, a string or nothing, and its value, if and only if no key ends in a backslash, nothing is positive infinity and the scan finds the end of all raw bytes. |
| `FieldText.TypedFieldsRoundTrip` | models/points.go:1984-2176 | Without raw bytes that is so if and only if no key ends in a backslash and nothing is positive infinity. |
| `FieldText.BackslashSwallowsKey` | models/points.go:1984-2027 | A key that ends in a backslash comes back as another key. |
| `PointSplit.StringSize` | models/points.go:1690-1709 | The length of the text without building it, except at the least time, where it is 18 short. |
| `PointSplit.Written` | models/points.go:1668-1673 | A point as it is written, with and without a time; the time in decimal. |
| `PointSplit.JoiningRestores` | models/points.go:1848-1882 | Joining the sections of groups of fields with commas gives the section of all fields. |
| `PointSplit.UnitsJoin` | models/points.go:1848-1882 | The stretches Split takes for fields, joined with commas, are the section, for any bytes. |
| `PointSplit.UnitsOfMarshalled` | models/points.go:1848-1882 | Of marshalled fields that can be read these stretches are the fields, so no field is torn. |
| `PointSplit.Split` | models/points.go:1848-1882 | For any field section: panics exactly when there is splitting to do, a field has no equals sign and the slice ends at its capacity. The pieces have the point's key and time, their fields joined with commas are the point's fields, every piece has a whole field, and pieces of several fields but the last are no longer than asked. If the section ends in a field none could have taken one more and the last piece fits too, but for a window of 18 sizes at the least time. |

## Left out

- Files, memory maps, buffering and flushing: a segment is its bytes, padded with zeros, with only whole entries in it.
- Locks and memory visibility: each method that holds the mutex is one step; `Done` is two.
- Wrap-around of the 64-bit epoch and of the 32-bit number of aggregated points.
- Hash functions are parameters; masking a hash is written as a remainder, which agrees for the powers of two used.
- The batches and double-checked locking of `CreateSeriesListIfNotExists`: a create is one key at a time under the lock.
- Creating a new segment when one is full: a partition's log is the concatenation of its segments, at increasing offsets, and a restart finds it cut anywhere.
- Keys are stored with their slots in the on-disk tables instead of being read back through the segments; that reading returns the key is KeyAtOffset.
- The checks of file headers when segments and index files are opened.
- Sorting by the Go library is modelled by insertion; the results are stated for any sorted permutation.
- Auxiliary fields, names and tags of query points, and the other value types of the reducers, which follow the same code.
- Floating-point rounding and NaN; median, mode, stddev, spread, percentile, integrals, moving averages and Holt-Winters.
- Windows in a time zone with daylight saving.
- The metadata service: shard groups it creates contain the time asked for and are disjoint or the same, and a shard id names one shard.
- RPC, connection pools, hinted handoff queues, subscribers, statistics and logging.
- ParsePoints, scanKey, scanTags and scanNumber.
- Parsing and executing statements; conditions other than tag comparisons are an arbitrary semantics.
- SeriesKey.ParseSeriesKeyInto: the capacity of the destination slice is not modelled; its contents are overwritten in every case.
- Mean.DistributedMean: exact over real numbers, without the rounding of the division or the wrap-around of an integer sum.
- Aggregation.DistributionDoesNotMatter: value and time of a selector, not its auxiliary fields, which ties leave to the order.
- PointsWriter.WritePoints: goroutines and channels are an arbitrary order of events per shard and per request; each owner of a shard answers at most once, with the answer to what happened there.
- FieldText.MarshalBinary: fields are given in the order of their sorted keys, floats as the decimal form they are formatted to, and values of any other type as the string they are formatted to.
- TagText.ParseTags: reuse of the destination slice is not modelled.
