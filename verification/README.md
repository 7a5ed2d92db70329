# FreeTSDB in Dafny

A model of the hard logic of FreeTSDB, with proofs over all inputs, all runs and
all reachable states. `dafny verify dfyconfig.toml` checks the whole project.

- **Writes against deletes.** `EpochTracker` is the tracker that hands out
  generations, as a value and as the object that updates it. `Guard` is the
  compiler that turns a delete's condition into a cheap matcher. `EpochProtocol`
  runs any number of writes and deletes in any interleaving of their atomic steps
  and proves mutual exclusion, deadlock freedom and termination.
- **Series file.** `RobinHood` is the theory of a Robin Hood table, `HashMap` the
  in-memory one. `SeriesLog`, `SeriesIndex`, `SeriesCompactor` and
  `SeriesPartition` are the two-tier index over a log, its recovery, its
  compaction and the histories of all these together, which refine a plain map.
  `SeriesCreate` creates many series under one lock.
  `SeriesKey` is the codec of series keys and the comparator on encoded keys.
- **Line protocol.** `Scanner`, `LineKey` and `ScanKey` scan the key of a point and
  bring its tags into order through an index array. `Escape` has the escapes, their
  inverses and the scanner for field values, and `Split` cuts long points. `TagSort`
  is the theory of the sort.
- **Clustered writes.** `ShardGroups` finds the shard group of a time,
  `PointsWriter` distributes a batch over shards and waits for them, and
  `Consistency` collects the replies of a shard's owners.
- **Queries.** `Aggregates` and `Mean` reduce the points of each shard and then the
  results, `TopN` is the bounded heap of top and bottom, `Windows` the arithmetic
  of time windows, and `Integral` the trapezium rule cut at window ends.

`Bytes`, `Wrappers`, `Collections` and `Arithmetic` are small helpers.

Hash functions, clocks, the metadata service, stores, sockets and the order in
which messages arrive are parameters; the theorems hold for all of them. Machine
arithmetic is modelled where it matters: 32-bit and 64-bit wrap-around of
aggregates and windows, 16-bit lengths, 64-bit varints, masks instead of
remainders, capacities of slices. Floating point numbers are reals.

## What was found

- `scanTags` writes past its index array when a point has 100, 200, 400, ... tags
  (`models/points.go:639` lacks the growth check of line 626). `ScanKey.LineScans`
  says exactly when a line crashes the scan, `ScanKey.HundredTagsCrash` is an
  example.
- A guard lets points pass that lack a tag which the delete compares, as in
  `host != 'a'`. `Guard.ComparisonCovered` says exactly which comparisons do,
  `Guard.TextComparisonCovered` and `Guard.PatternCovered` spell it out for texts and
  patterns, `Guard.MissingTagEscapes` is an example.
- For `_name =~ /re/` the guard looks for a tag called `_name`
  (`tsdb/guard.go:198`), so it lets all points of the measurements pass that the
  delete selects, unless they carry such a tag (`Guard.MeasurementPatternCovered`,
  with `Guard.MeasurementPatternEscapes` as an example).
- A delete that compares two tags goes by the keys of a series and not by the values:
  `host = region` removes every series that carries both
  (`Guard.ComparedTagsDiffer`).
- When shard groups overlap, as they can after the shard duration of a policy is
  changed, a batch can drop points that are in scope. Where the groups' ends are in
  order this happens exactly when some group hides another
  (`ShardGroups.InScopeIsMissed`, with `ShardGroups.OverlapLosesPoint` as an
  example). The ends can be out of order only around a truncated group that overlaps
  a group which ends before it; then a point can be lost that no group hides
  (`ShardGroups.TruncationLosesPoint`). A truncated group and its replacement over
  the same time do no harm (`ShardGroups.InScopeIsFound`).
- The conversion of `ErrShardDeletion` in `coordinator/points_writer.go:355-357`
  never applies, for any level, owners and order of replies: `writeToShard` wraps
  that error before returning it (`PointsWriter.DeletionIsNotRecognised`,
  `Consistency.NeverPlain`, with `PointsWriter.DeletedShardFails` as an example).
- An aggregate whose count of points wraps around to zero is merged as one point
  (`Aggregates.Distributes`, `Aggregates.WrapLosesCount`). From 2^32 points on a mean
  is wrong, unless the sum is zero and the number of points is no multiple of 2^32;
  at such a multiple the code divides by zero (`Mean.MeanExact`, with
  `Mean.WrapInflatesMean` and `Mean.WrapDividesByZero` as examples).
- The number of buckets is right if and only if the span of the windows does not
  overflow (`Windows.BucketsExact`); when it does the number can be negative and
  pass any limit (`Windows.BucketsOverflow`).
- Closing an integral loses area if and only if the last point is at the start of
  its window, the point before it is in a window before the preceding one, and the
  line over the windows between has area (`Integral.CloseKeepsArea`, with
  `Integral.CloseLosesGap` as an example). Without windows it loses all area if and
  only if the last point is at time zero
  (`Integral.CloseKeepsAreaWithoutWindows`, `Integral.CloseLosesArea`).
- The area over windows without a point goes to the next window that has one
  (`Integral.SkippedWindowMoves`; a window that follows the one before gets only its
  own, `Integral.AdjacentShare`). Against time a point at the very beginning of a
  window makes that window come twice, the second time without area
  (`Integral.WindowsShare`, `Integral.WindowComesTwice`).
- `StringSize` miscounts the least 64-bit time (`Split.LeastTimeIsMiscounted`).
- The hash map takes a new key for an overwritten one, and so falls behind in its
  count, if and only if an empty key comes to rest in a vacant slot: the new key
  itself, or the last one that it displaces (`HashMap.InsertSlot`,
  `HashMap.HashMap.Put`, with `HashMap.EmptyKeyIsMiscounted` as an example).
- The comment on `SeriesIndex.Clone` says that the in-memory maps are not cloned,
  but `idOffsetMap` is; the model follows the code.
- Table lookups end even on a full table, since the probe distance passes every
  displacement; no vacant slot is needed for them.

## Model

| member | source | states |
|---|---|---|
| `EpochTracker.EpochTracker.StartWrite` | freetsdb-0.1.2/tsdb/epoch_tracker.go:63-80 | the write gets the next generation, and the guards of exactly the deletes registered at that moment, each once |
| `EpochTracker.EpochTracker.SignalDeletes` | freetsdb-0.1.2/tsdb/epoch_tracker.go:90-95 | every registered delete of at least the generation is owed one write less, the others are unchanged |
| `EpochTracker.EpochTracker.EndWrite` | freetsdb-0.1.2/tsdb/epoch_tracker.go:83-98 | if the write is not newer than the largest delete, every registered delete of at least its generation is owed one write less and the others are unchanged; one write less is in flight |
| `EpochTracker.EpochTracker.WaitDelete` | freetsdb-0.1.2/tsdb/epoch_tracker.go:127-147 | registers the delete under a new largest generation, owed all writes in flight, and the waiter knows that generation, its state and the tracker |
| `EpochTracker.Waiter.Done` | freetsdb-0.1.2/tsdb/epoch_tracker.go:118-123 | removes exactly this delete from the tracker and releases its guard |
| `EpochTracker.DeleteState.Signal` | freetsdb-0.1.2/tsdb/epoch_tracker.go:37-44 | one write less is owed |
| `EpochProtocol.PendingKept` | freetsdb-0.1.2/tsdb/epoch_tracker.go:83-98 | after any step, what a registered delete is owed is the number of writes in flight with a smaller generation |
| `EpochProtocol.StepKeeps` | freetsdb-0.1.2/tsdb/epoch_tracker.go:63-147 | every atomic step of every operation keeps the invariant: generations, counters, guards handed out, guards passed, drained deletes |
| `EpochProtocol.RunKeeps` | freetsdb-0.1.2/tsdb/epoch_tracker.go:63-147 | the invariant holds in every state of every run |
| `EpochProtocol.DeleteExcludesWrites` | freetsdb-0.1.2/tsdb/epoch_tracker.go:46-53 | from the return of a delete's wait until it leaves the tracker, no earlier write is in flight, every write in flight was handed its guard, and none that the guard matches is writing |
| `EpochProtocol.NoLostDelete` | freetsdb-0.1.2/tsdb/store.go:1319-1396 | no point that a running delete removes is being written at that time, if at each comparison of the condition the point carries the tag or a missing tag fails the comparison |
| `EpochProtocol.WaitsForOlder` | freetsdb-0.1.2/tsdb/epoch_tracker.go:46-53 | every wait is for an unfinished operation of a strictly smaller generation |
| `EpochProtocol.UnblockedIsEnabled` | freetsdb-0.1.2/tsdb/guard.go:57-72 | an unfinished operation that waits for nobody can take its next step |
| `EpochProtocol.SomeoneCanStep` | freetsdb-0.1.2/tsdb/epoch_tracker.go:46-147 | deadlock freedom: whenever an operation is unfinished, one of no larger generation can step |
| `EpochProtocol.WorkShrinks` | freetsdb-0.1.2/tsdb/epoch_tracker.go:63-147 | each step of a running operation uses up one unit of the work that is left |
| `EpochProtocol.ScheduleFinishes` | freetsdb-0.1.2/tsdb/epoch_tracker.go:63-147 | without new operations, every schedule ends after exactly the work at its beginning, with nothing unfinished |
| `Guard.CompilePreservesMeaning` | freetsdb-0.1.2/tsdb/guard.go:90-253 | the simplified guard accepts exactly what the unsimplified and/or/literal reading of the condition accepts, and has no nil or empty child |
| `Guard.ComparisonCovered` | freetsdb-0.1.2/tsdb/guard.go:146-253 | for every comparison with a tag or the measurement: if the point carries the tag, or what is read in place of a missing tag fails the comparison, the guard accepts what the comparison may hold of; if not, the comparison holds and the guard does not accept |
| `Guard.GuardCoversCondition` | freetsdb-0.1.2/tsdb/index.go:1948-2154 | a point that meets the condition, as the index selects series, is accepted, if at each comparison it carries the tag or a missing tag fails the comparison |
| `Guard.TextComparisonCovered` | freetsdb-0.1.2/tsdb/guard.go:146-218 | a comparison of a tag with a text is covered if and only if the point carries the tag or the comparison fails on the empty text |
| `Guard.TextGuardExact` | freetsdb-0.1.2/tsdb/guard.go:169-188 | the guard of a text comparison accepts exactly the points with a tag of that key whose value passes; for `_name`, those whose measurement passes |
| `Guard.KeyGuardExact` | freetsdb-0.1.2/tsdb/guard.go:192-213 | the guard of a pattern on a tag accepts exactly the points with that tag; of two tags compared, those with either |
| `Guard.PatternCovered` | freetsdb-0.1.2/tsdb/guard.go:146-218 | a regular expression on a tag is covered if and only if the point carries the tag or the expression does not select the empty value |
| `Guard.MeasurementPatternCovered` | freetsdb-0.1.2/tsdb/guard.go:192-198 | a regular expression on the measurement accepts exactly the points with a tag called `_name`, and all points of a measurement are covered if and only if the expression does not select it |
| `Guard.MeasurementPatternEscapes` | freetsdb-0.1.2/tsdb/guard.go:192-198 | a point of a selected measurement meets `_name =~ /re/` and is not accepted |
| `Guard.ComparedTagsDiffer` | freetsdb-0.1.2/tsdb/index.go:2136-2154 | `host = region` holds of a series whose two tags differ |
| `Guard.MissingTagEscapes` | freetsdb-0.1.2/tsdb/guard.go:146-218 | a point without the tag meets `host != 'a'` and is not accepted |
| `Guard.MatchesAny` | freetsdb-0.1.2/tsdb/guard.go:39-55 | the loop over the points finds whether some point is in the time range, the measurements and the condition |
| `Guard.MatchesWithin` | freetsdb-0.1.2/tsdb/guard.go:24-55 | a guard matches a batch if and only if some point is in its time range, of its measurements if it names any, and accepted by the reading of its condition |
| `Guard.GuardCoversDelete` | freetsdb-0.1.2/tsdb/guard.go:24-55 | a batch with a point that the delete removes is matched, if at each comparison the point carries the tag or a missing tag fails the comparison |
| `RobinHood.PlaceKeepsReachable` | freetsdb-0.1.2/pkg/rhh/rhh.go:66-113 | taking over a slot of an element closer to home keeps every element reachable by its probe path, and the displaced one has a clear path from there |
| `RobinHood.ProbeFinds` | freetsdb-0.1.2/tsdb/series_index.go:195-256 | every stored element lies on its probe path at its displacement, and nothing before it stops the probe |
| `RobinHood.MaskSelectsHome` | freetsdb-0.1.2/pkg/rhh/rhh.go:66-67 | with a power-of-two capacity the mask is the remainder |
| `RobinHood.MaskedDist` | freetsdb-0.1.2/pkg/rhh/rhh.go:256-260 | the masked distance formula counts the steps from home to a slot |
| `HashMap.Index` | freetsdb-0.1.2/pkg/rhh/rhh.go:144-161 | finds the slot of a key if and only if the map has it, and the probe ends |
| `HashMap.InsertSlot` | freetsdb-0.1.2/pkg/rhh/rhh.go:66-113 | the slots hold the map with the key set; an overwrite is reported if and only if the map had the key or an empty key comes to rest in a vacant slot, read off the slots before; a full table is enough for a key it holds |
| `HashMap.EmptyKeyIsMiscounted` | freetsdb-0.1.2/pkg/rhh/rhh.go:66-84 | in a table without elements the empty key comes to rest in a vacant slot |
| `HashMap.RestingKeyIsStored` | freetsdb-0.1.2/pkg/rhh/rhh.go:66-113 | what comes to rest in a vacant slot is the new key or a key of the map |
| `HashMap.Rehash` | freetsdb-0.1.2/pkg/rhh/rhh.go:124-141 | reinserting all elements into larger slots keeps the map |
| `HashMap.HashMap.Get` | freetsdb-0.1.2/pkg/rhh/rhh.go:44-50 | the value of the key in the plain map, or none |
| `HashMap.HashMap.Put` | freetsdb-0.1.2/pkg/rhh/rhh.go:52-64 | the plain map with the key set, for every key; the count falls behind by one exactly when a new key lets an empty key come to rest in a vacant slot, and stays right without empty keys; it needs a vacant slot only for a new key in a table that is not about to grow |
| `HashMap.CountedHasRoom` | freetsdb-0.1.2/pkg/rhh/rhh.go:52-58 | a count within the threshold leaves a vacant slot, and after doubling there is room for one more |
| `HashMap.HashMap.Grow` | freetsdb-0.1.2/pkg/rhh/rhh.go:124-141 | doubles the capacity and keeps the map |
| `SeriesLog.OneLiveID` | freetsdb-0.1.2/tsdb/series_index.go:147-183 | in a log where a key gets a new id only after its old one is tombstoned, a live id of a key is the last one inserted for it |
| `SeriesLog.DeletedIsDead` | freetsdb-0.1.2/tsdb/series_index.go:157-162 | the index reports an id deleted if and only if the log has no live insert of it |
| `SeriesLog.LookupAgrees` | freetsdb-0.1.2/tsdb/series_index.go:185-216 | the two-tier lookup gives exactly the key's live id or 0, although a deleted in-memory id falls through to disk |
| `SeriesLog.ExecAgrees` | freetsdb-0.1.2/tsdb/series_index.go:164-183 | executing an entry keeps the index in agreement with the log |
| `SeriesLog.RecoverRebuilds` | freetsdb-0.1.2/tsdb/series_index.go:110-134 | on ascending offsets, the filter on a maximum that moves during replay replays exactly the entries above the initial maximum |
| `SeriesLog.CompactionAgrees` | freetsdb-0.1.2/tsdb/series_partition.go:544-600 | the compacted tables with the rest of the log replayed agree with the whole log |
| `SeriesIndex.SeriesIndex.FindOffsetByID` | freetsdb-0.1.2/tsdb/series_index.go:239-257 | finds exactly the stored offset, in memory or by the probe loop on disk, or 0; the unbounded loop ends |
| `SeriesIndex.SeriesIndex.IsDeleted` | freetsdb-0.1.2/tsdb/series_index.go:157-162 | tombstoned or without an offset |
| `SeriesIndex.SeriesIndex.FindIDBySeriesKey` | freetsdb-0.1.2/tsdb/series_index.go:185-216 | the in-memory id unless it is deleted, else the id on disk whose key the log holds unless it is deleted, else 0 |
| `SeriesIndex.ProbeKey` | freetsdb-0.1.2/tsdb/series_index.go:195-215 | the probe finds an element of the key if and only if the table has one |
| `SeriesIndex.SeriesIndex.ExecEntry` | freetsdb-0.1.2/tsdb/series_index.go:164-183 | the new in-memory maps, tombstones and maxima |
| `SeriesIndex.SeriesIndex.Recover` | freetsdb-0.1.2/tsdb/series_index.go:110-134 | skipping whole segments below the maximum and filtering entries is the replay of all segments with the moving filter |
| `SeriesIndex.HoldsGrows` | freetsdb-0.1.2/tsdb/series_index.go:195-215 | appending to the log leaves the mapped key table valid |
| `SeriesCompactor.InsertElem` | freetsdb-0.1.2/tsdb/series_partition.go:634-707 | the table holds one element more, all reachable, and the unbounded loop ends |
| `SeriesCompactor.Pow2` | freetsdb-0.1.2/tsdb/series_partition.go:709-718 | the least power of two from 2 on that is not smaller |
| `SeriesCompactor.CompactIndexTo` | freetsdb-0.1.2/tsdb/series_partition.go:544-600 | both rebuilt tables hold exactly the series that the index does not report deleted, up to the offset where compaction began, and no more than were counted |
| `SeriesPartition.StepKeeps` | freetsdb-0.1.2/tsdb/series_partition.go:178-323 | creating, deleting, starting and finishing a compaction and reopening keep index and log in agreement |
| `SeriesPartition.EndCompactionKeeps` | freetsdb-0.1.2/tsdb/series_partition.go:504-542 | swapping in the compacted index loses nothing that happened during the compaction |
| `SeriesPartition.ReopenKeeps` | freetsdb-0.1.2/tsdb/series_partition.go:63-128 | opening the file again rebuilds an index that agrees with the log, and finds the next id |
| `SeriesPartition.SeqFoundIsLast` | freetsdb-0.1.2/tsdb/series_partition.go:119-126 | the backward search over the segments, which stops at the first that has reached the sequence, finds the largest id of the log |
| `SeriesPartition.CompactionNeverOverfills` | freetsdb-0.1.2/tsdb/series_partition.go:504-551 | in every history a compaction has counted all series on disk and in memory, and keeps no more than it counted |
| `SeriesPartition.CreateRefinesMap` | freetsdb-0.1.2/tsdb/series_partition.go:178-282 | creating one series returns the live id if there is one, and afterwards the key has one while the other keys are unchanged |
| `SeriesCreate.CreateSeriesList` | freetsdb-0.1.2/tsdb/series_partition.go:218-255 | the bulk loop, which writes all entries before the index is told and finds repeated keys among the ids given out, is a run of single creates with the same answers, log, index and next id |
| `SeriesCreate.AnswersBehind` | freetsdb-0.1.2/tsdb/series_partition.go:226-233 | a lookup on the index that is behind its log answers as on the log before the loop |
| `SeriesCreate.ListIsBound` | freetsdb-0.1.2/tsdb/series_partition.go:178-255 | afterwards each key of the list that was not found under the read lock, or whose id found there is still its id under the write lock, has the id it was answered with, so repeated keys share one; no key has lost its id |
| `SeriesPartition.DeleteRefinesMap` | freetsdb-0.1.2/tsdb/series_partition.go:293-323 | deleting an id removes its key and leaves the other keys |
| `SeriesPartition.HistoryKeeps` | freetsdb-0.1.2/tsdb/series_partition.go:63-323 | the invariant holds after every history of operations, compactions and reopenings |
| `SeriesPartition.HistoryIsAMap` | freetsdb-0.1.2/tsdb/series_index.go:147-216 | at every point of every history the lookup answers as a plain map from keys to ids would |
| `SeriesPartition.HistoryIDs` | freetsdb-0.1.2/tsdb/series_partition.go:58-126 | in every history, across compactions and reopenings, every id and the next one have the remainder modulo 8 that leads back to the partition (tsdb/series_file.go:238) |
| `SeriesKey.UvarintRoundTrip` | freetsdb-0.1.2/tsdb/series_file.go:327-345 | decoding a varint followed by anything gives the number and its length |
| `SeriesKey.UvarintLayout` | freetsdb-0.1.2/tsdb/series_file.go:271-324 | seven bits a byte, the least first, with the high bit set on every byte but the last |
| `SeriesKey.EncodedExample` | freetsdb-0.1.2/tsdb/series_file.go:271-324 | the encoding of the key `cpu,host=a`, byte for byte |
| `SeriesKey.UvarintSize` | freetsdb-0.1.2/pkg/binaryutil/binaryutil.go:15-22 | the number of bytes of the varint |
| `SeriesKey.AppendSeriesKey` | freetsdb-0.1.2/tsdb/series_file.go:271-324 | appends the encoding of the key: size, name, tag count, tags |
| `SeriesKey.SeriesKeySize` | freetsdb-0.1.2/tsdb/series_file.go:470-480 | the length of the encoding |
| `SeriesKey.GenerateSeriesKeys` | freetsdb-0.1.2/tsdb/series_file.go:449-458 | the encodings of all names and tags |
| `SeriesKey.ParseSeriesKey` | freetsdb-0.1.2/tsdb/series_file.go:372-393 | the reading loop gives name and tags, or a slice out of range; the size in front is read and ignored |
| `SeriesKey.ParseInvertsEncode` | freetsdb-0.1.2/tsdb/series_file.go:271-393 | parsing gives back name and tags if and only if all lengths fit in 16 bits |
| `SeriesKey.ReadSeriesKeyPeels` | freetsdb-0.1.2/tsdb/series_file.go:327-330 | reading takes exactly one key off the front of any data |
| `SeriesKey.CompareTags` | freetsdb-0.1.2/models/points.go:1912-1932 | negative exactly when the tags differ first in a key, or else in a value, that ends or has the smaller byte, or one list is a proper prefix; zero exactly on equal lists |
| `SeriesKey.CompareSeriesKeys` | freetsdb-0.1.2/tsdb/series_file.go:395-445 | the comparison on encoded bytes, with empty keys first; the size in front is read and ignored |
| `SeriesKey.CompareTagData` | freetsdb-0.1.2/tsdb/series_file.go:419-445 | the tag-by-tag comparison on encoded bytes |
| `SeriesKey.CompareEncodedIsKeyOrder` | freetsdb-0.1.2/tsdb/series_file.go:395-445 | comparing encodings is negative exactly when names, then tag keys, then tag values differ first in that way byte for byte, or one tag list is a proper prefix; zero exactly on equal keys |
| `Bytes.CompareIsLexicographic` | freetsdb-0.1.2/tsdb/series_file.go:395-445 | byte strings compare by the first byte in which they differ, or by where one of them ends |
| `SeriesKey.KeyOrderIsLexicographic` | freetsdb-0.1.2/tsdb/series_file.go:395-445 | the order of keys, told without the comparison: the first difference of the names, else of the tags, by key and then by value |
| `SeriesKey.KeyOrderLaws` | freetsdb-0.1.2/tsdb/series_file.go:395-445 | the order is zero exactly on equal keys, and antisymmetric |
| `SeriesKey.KeyOrderChains` | freetsdb-0.1.2/tsdb/series_file.go:395-445 | the order is transitive |
| `Scanner.ScanTo` | freetsdb-0.1.2/models/points.go:1138-1154 | the bytes up to the first unescaped stop byte |
| `Scanner.ScanToSpaceOr` | freetsdb-0.1.2/models/points.go:1159-1181 | the bytes up to the first unescaped stop byte or space |
| `LineKey.ScanMeasurement` | freetsdb-0.1.2/models/points.go:579-610 | the end of the measurement, whether tags follow, or the error |
| `LineKey.ScanTagsKey` | freetsdb-0.1.2/models/points.go:650-676 | the end of a tag key, or the error |
| `LineKey.ScanTagsValue` | freetsdb-0.1.2/models/points.go:679-713 | the end of a tag value, what follows, or the error |
| `LineKey.ScanTags` | freetsdb-0.1.2/models/points.go:615-648 | the positions of all tags, the first error, or the write past the index array |
| `LineKey.OverrunsOnce` | freetsdb-0.1.2/models/points.go:619-641 | the index array is overrun exactly by 100, 200, 400, ... tags |
| `LineKey.InsertionSort` | freetsdb-0.1.2/models/points.go:715-728 | sorts the index array in place by the tag keys in the buffer, stably |
| `LineKey.SortCorresponds` | freetsdb-0.1.2/models/points.go:715-728 | sorting the positions is sorting the tags by key |
| `LineKey.SplitRenders` | freetsdb-0.1.2/models/points.go:615-648 | the tags found, with commas before them, are the bytes scanned |
| `LineKey.JoinSortSize` | freetsdb-0.1.2/models/points.go:531-547 | the sorted tags take as many bytes as the unsorted ones |
| `ScanKey.CheckOrder` | freetsdb-0.1.2/models/points.go:509-525 | the loop finds the tags strictly sorted, or a duplicate that is one, or a disorder that is one |
| `ScanKey.HasDuplicates` | freetsdb-0.1.2/models/points.go:550-561 | on sorted tags, equal neighbours are found if and only if some keys are equal |
| `ScanKey.Rebuild` | freetsdb-0.1.2/models/points.go:540-547 | the buffer holds the measurement and the tags in index order |
| `ScanKey.ScanKey` | freetsdb-0.1.2/models/points.go:473-567 | the whole scan gives the specified key, error or crash for every input |
| `ScanKey.LineScans` | freetsdb-0.1.2/models/points.go:473-567 | a well-formed line gives its measurement with its tags sorted, or the duplicate error, or the crash, and nothing else |
| `ScanKey.RejectedLines` | freetsdb-0.1.2/models/points.go:579-713 | seven lines with something missing or wrong, and the error that each gets |
| `ScanKey.HundredTagsCrash` | freetsdb-0.1.2/models/points.go:615-648 | a line of a hundred tags crashes the scan |
| `ScanKey.PermutedLinesShareKey` | freetsdb-0.1.2/models/points.go:473-567 | lines that differ in the order of their tags give identical keys |
| `ScanKey.ScannedKeyIsCanonical` | freetsdb-0.1.2/models/points.go:473-567 | on success, for every input: of any two tag keys the earlier one ends or has the smaller byte where they differ first, and the key has the same length, the same measurement and the same tags as scanned |
| `ScanKey.CanonicalKeyScansToItself` | freetsdb-0.1.2/models/points.go:473-567 | scanning a key whose tag keys ascend byte for byte gives it back |
| `Escape.UnescapeInverts` | freetsdb-0.1.2/models/points.go:1226-1271 | replacing an escaped byte undoes escaping it |
| `Escape.EscapesCommute` | freetsdb-0.1.2/models/points.go:1226-1271 | escaping one byte does not disturb the unescaping of another |
| `Escape.EscapeRoundTrip` | freetsdb-0.1.2/models/points.go:1226-1271 | unescaping gives back every measurement and every tag, for all byte strings, although it runs in the order of escaping |
| `Escape.EscapesStopsOnly` | freetsdb-0.1.2/models/points.go:1226-1257 | for all byte strings, escaping puts a backslash before commas and spaces, in tags also before equals signs, and changes nothing else |
| `Escape.EscapedIsName` | freetsdb-0.1.2/models/points.go:1226-1233 | an escaped measurement is read back whole if and only if it is not empty, does not begin blank and does not end in a backslash |
| `Escape.EscapedIsTag` | freetsdb-0.1.2/models/points.go:1249-1257 | an escaped tag is read back whole if and only if neither side is empty or ends in a backslash |
| `Escape.EscapedLineScans` | freetsdb-0.1.2/models/points.go:473-567 | a line of escaped measurement and tags scans to its sorted key, the measurement, the tag keys and the tag values unescape to the original ones, and duplicates are exactly equal keys |
| `Escape.UnescapeStringField` | freetsdb-0.1.2/models/points.go:1288-1316 | every escaped quote or backslash loses its backslash |
| `Escape.FieldRoundTrip` | freetsdb-0.1.2/models/points.go:1278-1316 | unescaping gives back every string, for all byte strings |
| `Escape.UnescapingKeeps` | freetsdb-0.1.2/models/points.go:1288-1316 | text is unescaped to itself if and only if no backslash in it stands before a quote or a backslash |
| `Escape.LoneBackslashStays` | freetsdb-0.1.2/models/points.go:1288-1316 | a backslash before any other byte stays, and what follows is unescaped on its own |
| `Escape.ScanFieldValue` | freetsdb-0.1.2/models/points.go:1201-1224 | the value ends at the first comma outside quotes, or at the end |
| `Escape.QuotedValueScans` | freetsdb-0.1.2/models/points.go:1201-1224 | a quoted, escaped string before a comma or the end is scanned exactly to its closing quote |
| `Split.StringSize` | freetsdb-0.1.2/models/points.go:1690-1709 | the digit-counting loop gives the length of the text, except at the least 64-bit time |
| `Split.LeastTimeIsMiscounted` | freetsdb-0.1.2/models/points.go:1690-1709 | at the least 64-bit time the count is wrong |
| `Split.FieldStopSlice` | freetsdb-0.1.2/models/points.go:1859-1862 | a field ends at the same place in a piece cut at field boundaries |
| `Split.Split` | freetsdb-0.1.2/models/points.go:1848-1882 | the pieces joined with commas are the original fields, each has whole fields, the same key and time, and a text of at most the size unless it is a single field or the point is at the least time and was taken to fit; no piece had room for the first field of the next one |
| `ShardGroups.SearchFindsFirst` | freetsdb-0.1.2/coordinator/points_writer.go:304-305 | where ends are in order the binary search finds the first group that ends after the time |
| `ShardGroups.SearchExact` | freetsdb-0.1.2/coordinator/points_writer.go:304-312 | where ends are in order the binary search differs from looking at one group after the other if and only if a group that has not begun hides one that has |
| `ShardGroups.FoundContains` | freetsdb-0.1.2/coordinator/points_writer.go:304-312 | a group that is found contains the time, even if the list is out of order |
| `ShardGroups.SearchAgrees` | freetsdb-0.1.2/coordinator/points_writer.go:304-312 | on disjoint groups, truncated or not, it agrees with linear search |
| `ShardGroups.AppendSorts` | freetsdb-0.1.2/coordinator/points_writer.go:315-319 | appending keeps the list sorted |
| `ShardGroups.DisjointAscends` | freetsdb-0.1.2/services/meta/data.go:1662-1678 | sorting by truncated ends sorts disjoint groups by time |
| `ShardGroups.OutOfOrder` | freetsdb-0.1.2/services/meta/data.go:1662-1678 | ends of a sorted list are out of order only around a truncated group that overlaps one which ends before it |
| `ShardGroups.InScopeIsFound` | freetsdb-0.1.2/coordinator/points_writer.go:247-266 | if groups cover the same time or do not overlap, truncated or not, every time in scope finds the one group that contains it |
| `ShardGroups.InScopeIsMissed` | freetsdb-0.1.2/coordinator/points_writer.go:247-280 | for any service: where ends are in order a time in scope is missed exactly when some group hides another, and they are out of order only around a truncated group that overlaps one which ends before it |
| `ShardGroups.OverlapLosesPoint` | freetsdb-0.1.2/coordinator/points_writer.go:247-280 | a service and a batch with overlapping groups in which a point in scope is hidden and not found |
| `ShardGroups.NeededCovers` | freetsdb-0.1.2/coordinator/points_writer.go:247-266 | every time in scope is in some group of the list, whatever the service answers |
| `ShardGroups.NeededAreAsked` | freetsdb-0.1.2/coordinator/points_writer.go:247-266 | every group was created for a time in scope, whatever the service answers |
| `ShardGroups.TruncationLosesPoint` | freetsdb-0.1.2/coordinator/points_writer.go:247-280 | a service and a batch with a truncated group in which a point in scope is not found although no group hides it |
| `PointsWriter.ShardMapping.MapPoint` | freetsdb-0.1.2/coordinator/points_writer.go:150-156 | appends the point to its shard's list and loses none, since no list falls below its initial capacity |
| `PointsWriter.CollectGroups` | freetsdb-0.1.2/coordinator/points_writer.go:247-266 | the groups needed for the batch, or the first failure of the metadata service |
| `PointsWriter.Distribute` | freetsdb-0.1.2/coordinator/points_writer.go:268-281 | the specified distribution of the points |
| `PointsWriter.MapShards` | freetsdb-0.1.2/coordinator/points_writer.go:232-282 | the specified mapping or error for every answer of the metadata service |
| `PointsWriter.PlacedConserves` | freetsdb-0.1.2/coordinator/points_writer.go:268-281 | the shards' lists and the dropped points together are the batch, as multisets |
| `PointsWriter.PlacedBound` | freetsdb-0.1.2/coordinator/points_writer.go:268-281 | each list holds the points bound for its shard in the order they came |
| `PointsWriter.DroppedAreOld` | freetsdb-0.1.2/coordinator/points_writer.go:247-281 | if groups cover the same time or do not overlap, only points older than the retention minimum are dropped |
| `PointsWriter.MappedExactly` | freetsdb-0.1.2/coordinator/points_writer.go:232-282 | if groups cover the same time or do not overlap: every group was created for a point in scope, a point is dropped if and only if it is older than the policy keeps and in none of these groups, and any other goes to the shard of its group that its hash selects |
| `PointsWriter.AwaitShards` | freetsdb-0.1.2/coordinator/points_writer.go:351-405 | the first failure to arrive, with the conversion of a deleted shard, else the number of dropped points, else nothing |
| `PointsWriter.AwaitSucceeds` | freetsdb-0.1.2/coordinator/points_writer.go:351-405 | no error if and only if nothing was dropped, nothing timed out or closed, and every shard's write succeeded |
| `PointsWriter.FailureIsFirst` | freetsdb-0.1.2/coordinator/points_writer.go:351-405 | the failure returned is that of the first arrival that brings one: a timeout, a close, or the outcome of that shard |
| `PointsWriter.DeletionIsNotRecognised` | freetsdb-0.1.2/coordinator/points_writer.go:351-358 | no batch, level, cluster and order of arrivals ever reports a shard pending deletion |
| `PointsWriter.DeletedShardFails` | freetsdb-0.1.2/coordinator/points_writer.go:351-358 | a shard that is pending deletion on its only owner is reported as a wrapped failure |
| `PointsWriter.WritePoints` | freetsdb-0.1.2/coordinator/points_writer.go:333-406 | exactly which error is returned, and no error if and only if the policy and the mapping are found, nothing was dropped, nothing timed out or closed, and every shard's write succeeded |
| `PointsWriter.WrittenIsHeld` | freetsdb-0.1.2/coordinator/points_writer.go:333-518 | when a batch is written without error, each of its points is in the list of a shard that its owners hold as the level asks: all of them, more than half, one, or at level Any one that may only have queued it |
| `Consistency.Report` | freetsdb-0.1.2/coordinator/points_writer.go:431-474 | an owner reports success if and only if its node stored the points or, at level Any, they are in its handoff queue |
| `Consistency.WriteToShard` | freetsdb-0.1.2/coordinator/points_writer.go:410-518 | the loop over replies gives the verdict by the number of successes before the first timeout or close |
| `Consistency.VerdictExact` | freetsdb-0.1.2/coordinator/points_writer.go:410-518 | for every order of replies without timeout or close: success at level All if and only if every owner stored the points, at Quorum more than half, at One some owner, at Any some owner stored or queued them; a partial write if and only if some owner stored them and that fails; a failure with the first reply's error if and only if none did |
| `Consistency.InterruptedExact` | freetsdb-0.1.2/coordinator/points_writer.go:475-503 | cut short by a timeout or a close, the write succeeds if and only if the owners heard until then were enough at its level; else it is a timeout or a failed write |
| `Consistency.ConflictIsFinal` | freetsdb-0.1.2/tsdb/store.go:1399-1408 | a remote write with conflicting field types is not queued and counts at no level |
| `Consistency.NeverPlain` | freetsdb-0.1.2/coordinator/points_writer.go:506-517 | a shard write never returns the error of a store as it is |
| `Consistency.SuccessIsHeld` | freetsdb-0.1.2/coordinator/points_writer.go:477-503 | a success always rests on enough owners at its level, also when replies are cut short |
| `Consistency.QuorumsMeet` | freetsdb-0.1.2/coordinator/points_writer.go:416-423 | two successful quorum writes have an owner that stored both |
| `Aggregates.FuncReducer.Aggregate` | freetsdb-0.1.2/query/functions.gen.go:615-628 | the point so far after one more point, with its count |
| `Aggregates.ReducedDescribes` | freetsdb-0.1.2/query/call_iterator.go:101-472 | count, sum, min, max, first and last compute the aggregate of their points, stated without an order |
| `Aggregates.MinIsLeast` | freetsdb-0.1.2/query/call_iterator.go:181-186 | min is a point of least value, the earliest of those, with the fields that go with it |
| `Aggregates.MaxIsGreatest` | freetsdb-0.1.2/query/call_iterator.go:245-250 | max is a point of greatest value, the earliest of those, with the fields that go with it |
| `Aggregates.FirstIsEarliest` | freetsdb-0.1.2/query/call_iterator.go:365-370 | first is a point of least time, the greatest in value of those, with the fields that go with it |
| `Aggregates.LastIsLatest` | freetsdb-0.1.2/query/call_iterator.go:443-448 | last is a point of greatest time, the greatest in value of those, with the fields that go with it |
| `Aggregates.Wrap64Is` | freetsdb-0.1.2/query/call_iterator.go:303-308 | a 64-bit sum is the value in range that differs from the exact one by a multiple of 2^64 |
| `Aggregates.ReducedWeight` | freetsdb-0.1.2/query/functions.gen.go:615-628 | the count of points is the sum of their weights modulo 2^32 |
| `Aggregates.MergeDescribes` | freetsdb-0.1.2/query/iterator.go:139-146 | an aggregate of partial aggregates, counts being summed, is the aggregate of all points |
| `Aggregates.Distributes` | freetsdb-0.1.2/query/iterator.go:109-147 | for every grouping and every order, reducing groups and merging gives the value and the time of one reduction, for selectors with the fields of such a point, and the same count if and only if no group's wrapped-out count shows |
| `Aggregates.WrapLosesCount` | freetsdb-0.1.2/query/functions.gen.go:615-628 | a group that stands for 2^32 points is merged as one |
| `Mean.MeanReducer.Aggregate` | freetsdb-0.1.2/query/functions.go:109-117 | adds the weighted value and the weight |
| `Mean.FoldIsTotals` | freetsdb-0.1.2/query/functions.go:98-126 | the sum and the count are those of all raw values behind the points |
| `Mean.MeanExact` | freetsdb-0.1.2/query/functions.go:98-126 | a mean is emitted and is the mean of all raw values if and only if their number fits in 32 bits, or their sum is zero and their number is no multiple of 2^32 |
| `Mean.WrapInflatesMean` | freetsdb-0.1.2/query/functions.go:109-126 | 2^32 + 1 raw values of one have the mean 4294967297 |
| `Mean.WrapDividesByZero` | freetsdb-0.1.2/query/functions.go:109-126 | 2^32 raw values leave a count of zero to divide by |
| `Mean.MeanDistributes` | freetsdb-0.1.2/query/functions.go:98-126 | for every grouping and order, reducing the groups' means gives the sum and the count of reducing all points, also beyond 2^32 points, wherever each group has a mean; while the number fits in 32 bits it emits the mean of all points |
| `Mean.SmallGroupsCounted` | freetsdb-0.1.2/query/functions.go:98-126 | groups that together stand for fewer than 2^32 points all have a mean |
| `TopN.UpRestores` | freetsdb-0.1.2/query/functions.go:1947-1949 | pushing a point restores the heap |
| `TopN.DownRestores` | freetsdb-0.1.2/query/functions.go:1942-1944 | replacing the root and moving it down restores the heap |
| `TopN.FoldSplits` | freetsdb-0.1.2/query/functions.go:1934-1950 | the heap always holds n of the best points seen, or all if they are fewer; none of the others is better than any of them |
| `TopN.BoundedReducer.Aggregate` | freetsdb-0.1.2/query/functions.go:1934-1950 | the heap after one more point |
| `TopN.BoundedReducer.Emit` | freetsdb-0.1.2/query/functions.go:1952-1964 | the points of the heap with their counts cleared, best first |
| `TopN.TopIsSortedPrefix` | freetsdb-0.1.2/query/functions.go:1920-1964 | for every input, top emits the first n of all points sorted by value descending and time ascending; bottom, by value ascending |
| `TopN.TopEmitsGreatest` | freetsdb-0.1.2/query/functions.go:1920-1964 | top emits points by falling value, of equal values the earlier first, and none that it leaves out is greater, or equal and earlier |
| `TopN.BottomEmitsLeast` | freetsdb-0.1.2/query/functions.go:2058-2102 | bottom emits points by rising value, of equal values the earlier first, and none that it leaves out is less, or equal and earlier |
| `TopN.EmittedWereSeen` | freetsdb-0.1.2/query/functions.go:2058-2102 | every emitted point was aggregated |
| `Windows.WindowIs` | freetsdb-0.1.2/query/iterator.go:788-864 | with a constant zone, the code computes the window of the row of windows, cut at the ends of time |
| `Windows.WindowContains` | freetsdb-0.1.2/query/iterator.go:788-864 | a whole window contains its time and is as long as the interval, and begins a whole number of intervals from the offset |
| `Windows.WindowsTile` | freetsdb-0.1.2/query/iterator.go:788-864 | two windows are equal or disjoint, times share a window exactly if one is in the other's, and each ends where the next begins |
| `Windows.CutWindowContains` | freetsdb-0.1.2/query/iterator.go:809-835 | cut at the ends of time, a window without offset still contains its time, except the last instant |
| `Windows.TouchedRows` | freetsdb-0.1.2/query/compile.go:1172-1175 | the windows of a query's times are all windows from its first to its last |
| `Windows.BucketsExact` | freetsdb-0.1.2/query/compile.go:1172-1178 | the bucket formula is the number of windows touched if and only if their span does not overflow |
| `Windows.BucketsOverflow` | freetsdb-0.1.2/query/compile.go:1172-1179 | windows of a nanosecond over nearly all of time give a negative number of buckets |
| `Integral.IntegralReducer.Aggregate` | freetsdb-0.1.2/query/functions.go:1575-1625 | the state after one more point, and what is emitted |
| `Integral.IntegralReducer.Close` | freetsdb-0.1.2/query/functions.go:1645-1654 | the last window is emitted unless the last point is at its start |
| `Integral.CutKeepsArea` | freetsdb-0.1.2/query/linear.go:6-11 | interpolating a line anywhere splits the area under it |
| `Integral.AreaIsConserved` | freetsdb-0.1.2/query/functions.go:1575-1625 | at any moment the areas emitted and the running sum are the trapezium integral of all points so far: for all windows, in both directions, with windows skipped and timestamps repeated |
| `Integral.WindowsShare` | freetsdb-0.1.2/query/functions.go:1575-1625 | each emitted point stands at the beginning of a window in which there is a point, and has the area from where the window emitted before it ends to where its own ends, in both directions; windows follow each other, but against time one may come again without area |
| `Integral.AdjacentShare` | freetsdb-0.1.2/query/functions.go:1598-1617 | where the window before was emitted too, a window gets its own area and no other |
| `Integral.SkippedWindowMoves` | freetsdb-0.1.2/query/functions.go:1598-1617 | windows of 10 and points at 5, 25 and 30: the window from 20 gets the 10 of the window before it as well |
| `Integral.WindowComesTwice` | freetsdb-0.1.2/query/functions.go:1592-1617 | windows of 10, points at 15, 10 and 5 against time: the same window is emitted twice, the second time without area |
| `Integral.CloseKeepsArea` | freetsdb-0.1.2/query/functions.go:1645-1654 | with windows, closing keeps the area if and only if not: the last point is at the start of its window, the point before it is before the preceding window, and the line from the end of that point's window has area; against time it always does |
| `Integral.CloseKeepsAreaWithoutWindows` | freetsdb-0.1.2/query/functions.go:1645-1654 | without windows, closing keeps the area if and only if the last point is not at time zero or there is none |
| `Integral.SumIsGap` | freetsdb-0.1.2/query/functions.go:1598-1624 | at the start of a window the running sum is the area between the end of the last point's window and here |
| `Integral.CloseLosesGap` | freetsdb-0.1.2/query/functions.go:1645-1654 | windows of 10 and points at 5 and 20: of an area of 15, the 10 between the windows are lost |
| `Integral.CloseLosesArea` | freetsdb-0.1.2/query/functions.go:1645-1654 | without windows, the integral of two points is lost, as the last is at time zero |

## Left out

- ShardGroups.Append: inserts the new group after its equals; the order of groups with equal ends and starts, which Go's sort leaves open, is not modelled.
- TopN.BoundedReducer.Emit: sorts stably; the order of points with equal value and time, which Go's sort leaves open, is not modelled.
- ScanKey.ScanKey: the position and the partial key that come with an error are not modelled.
- Integral.IntegralReducer.Aggregate: floating point is taken as real; rounding and NaN are not modelled.
- Mean.MeanDistributes: for groups that have a mean; a group of a multiple of 2^32 points divides by zero, and what comes of infinities and NaN is not modelled.
- SeriesCreate.CreateSeriesList: takes what was found under the read lock as given, and has no closed partitions or failing writes.
- Windows.WindowContains: for windows that are not cut at the ends of time; with an offset, the ends of cut windows can overflow.
- Integral.CloseKeepsArea: for windows that are not cut at the ends of time.
- Integral.WindowsShare: for windows that are not cut at the ends of time.
- SeriesIndex.SeriesIndex.FindOffsetByID: table elements are records with an offset and an id; their 16 bytes, the file header and memory mapping are not modelled.
- The wrap-around of the 64-bit epoch counter, and of series ids and offsets.
- The choice of a shard by a point's hash: the hash draws on a global counter (models/inline_fnv.go), so it is arbitrary here.
- Windows in zones with daylight saving: they depend on time-zone tables; the code's branches for them are in the model, the theorems are for constant offsets.
- The integer and unsigned integral reducers, which reuse interpolated values and do not conserve area.
- The other generated copies of reducers and points (float, unsigned, string, boolean), which repeat the integer ones.
- Distinct, mode, median, percentile, spread, derivatives, moving averages and Holt-Winters.
- Narrowing of shard time ranges by the bucket limit, and the bounded connection pool.
- Scanning of fields, numbers and timestamps of a line beyond field values, and parsing of whole batches.
- Rolling of log segments and the format of log entries.
- Statistics, logging, subscriptions, configuration, HTTP, protocol buffers, sockets and the metadata service itself.
