# A verified model of a small log-structured key-value store

This project models the storage layer of a small log-structured key-value
store in Dafny and proves properties of it. The store has four parts:

- **the memtable**: an ordered in-memory map with a counter of distinct keys;
- **the write-ahead log**: one text line per mutation, `PUT,k,v` or `DELETE,k`;
- **the segment directory**: immutable `sstable-<generation>.db` files, each a
  header count followed by sorted `key,value` lines;
- **the storage engine**: it ties the other three together.

The engine's paths:

- **Write**: a write is logged first and then stored in the memtable.
  - A memtable that reaches its limit of 10 keys is flushed into a new segment.
  - The log is then truncated.
- **Read**: a read asks the memtable, then the segments from the newest
  generation to the oldest.
  - A segment hit is copied back into the memtable.
- **Deletes** store the reserved value `TOMBSTONE`.
- **Start-up** replays the log into an empty memtable.

Three helpers of the HTTP layer are modelled as well:

- the query-string parser;
- the naive JSON-object parser of the batch-put request;
- the JSON formatter of the batch-get response.

The modules follow the source files.

| file | module | models |
|---|---|---|
| `foundation.dfy` | `Wrappers`, `Outcomes`, `Constants` | null as `Option`, and how a call ends |
| `foundation.dfy` | `Order` | `String.compareTo` as `Less`, over Unicode scalar values |
| `foundation.dfy` | `Generations` | the newest-first generation order |
| `text.dfy` | `Text` | the Java text operations the store relies on |
| `sorted_maps.dfy` | `SortedMaps` | ordered-map iteration |
| `memtable.dfy` | `MemTables` | `MyMemTable` |
| `wal.dfy` | `WriteAheadLogs` | `MyWriteAheadLog` |
| `segments.dfy` | `Segments` | the segment file format, binary search and range scan |
| `sstable.dfy` | `SSTables` | `MySSTable` |
| `engine.dfy` | `Engine` | `MyStorageEngine` |
| `api.dfy` | `ApiHelpers` | the three `MyAPILayer` helpers |

The Java text operations in `Text` are:

- `split` and `split(c, 2)`;
- `trim` and `replaceAll` of one character;
- `readLine`;
- `Long.parseLong`.

**Classes.** The classes that update fields in place are Dafny classes whose
methods state their whole new state:

- `MemTable`: `data`, `recordCount`;
- `WriteAheadLog`: `content`, `isOpen`;
- `SSTable`: `disk`, `sortedFilesList`, `fileCounter`;
- `StorageEngine`.

Each method with a loop carries the loop and is proved against a
specification function:

- `Recover` against `Recovered`;
- `BinarySearchInFile` against `SearchFrom`;
- `ReadBatchFromFile` against `ScanBatch`;
- `Get` and `GetBatch` against `SegmentsGet` and `SegmentsBatch`;
- `ApplyEntries` against `ApplyBatch`;
- `ParseQueryParams` against `QueryFold`;
- `FormatBatchResponse` against `JoinEntries`.

Lemmas then prove what the source promises about those functions.

**How a call ends.** A call's outcome is an `Outcome`: `Returns`, `Fails`
with the exception it throws, or `Loops`.

- `Loops` is for the binary search, which spins forever on a line without a
  `,` because its `continue` changes neither bound.
- A lookup visits the segments newest first: `Largest` of the generations
  not yet visited.

**Segment files.** A segment file is its header count and the text after the
header.

- Search offsets are counted from the end of the 4-byte header.
- The search starts at the header's end, and each of its steps depends only
  on differences of offsets.
- So a probe sequence with absolute offsets 4, 12, 16, 20 and 28 appears
  here as 0, 8, 12, 16 and 24.

**Where the code decides.** Where the code and the design of the store
disagree, the model follows the code:

- A range query whose low key is ordered after its high key throws
  `IllegalArgumentException` from the memtable's `subMap`. It does not give an
  empty result.
- No record limit is rejected at construction.
- The memtable is cleared in place, not replaced.
- After the engine's `cleanup` the segment list still names the deleted
  files, so a later lookup that reaches them fails with an I/O error.

## Model

| member | source | states |
|---|---|---|
| MemTables.Lookup | com/andrey/MyMemTable.java:28-31 | a lookup answers a value exactly when the key is present and its value is not the tombstone, and then answers the stored value |
| MemTables.LookupAfterPut | com/andrey/MyMemTable.java:19-31 | after a put the key answers the new value (nothing when that value is the tombstone) and every other key answers as before |
| MemTables.LookupAfterDelete | com/andrey/MyMemTable.java:28-39 | after a delete the key answers nothing and every other key answers as before |
| MemTables.CardinalityAfterUpdate | com/andrey/MyMemTable.java:19-25 | storing under an absent key grows the map by exactly one key, storing under a present key keeps its size |
| MemTables.MemTable.constructor | com/andrey/MyMemTable.java:13-17 | a new memtable is empty, its counter is 0 and it keeps the given limit |
| MemTables.MemTable.Put | com/andrey/MyMemTable.java:19-25 | only the key's entry changes, to the value; the counter grows by one exactly when the key was absent, so it keeps equal to the number of keys |
| MemTables.MemTable.Get | com/andrey/MyMemTable.java:28-31 | the stored value unless the key is absent or holds the tombstone, in which case null |
| MemTables.MemTable.Delete | com/andrey/MyMemTable.java:33-39 | only the key's entry changes, to the tombstone; the counter grows by one exactly when the key was absent |
| MemTables.MemTable.IsFull | com/andrey/MyMemTable.java:41-43 | full exactly when the number of stored keys has reached the limit |
| MemTables.MemTable.GetAll | com/andrey/MyMemTable.java:45-47 | the stored entries, each with its stored value, every key once, in strictly ascending key order |
| MemTables.MemTable.Clear | com/andrey/MyMemTable.java:49-52 | no key is left and the counter is 0 |
| MemTables.MemTable.GetCurrentSize | com/andrey/MyMemTable.java:54-56 | the number of distinct stored keys, tombstoned ones included |
| MemTables.MemTable.IsEmpty | com/andrey/MyMemTable.java:58-60 | empty exactly when no key is stored |
| MemTables.MemTable.GetBatch | com/andrey/MyMemTable.java:62-64 | exactly the stored entries with lo <= key <= hi, tombstones included; IllegalArgumentException exactly when lo is ordered after hi |
| SortedMaps.SortedEntriesSpec | com/andrey/MyMemTable.java:45-47 | iterating an ordered map gives strictly ascending keys, each stored entry exactly once with its value |
| Order.AscendingSpec | com/andrey/MyMemTable.java:45-47 | the iteration order of a key set is strictly ascending and holds exactly the keys of the set |
| WriteAheadLogs.ParseLine | com/andrey/MyWriteAheadLog.java:51-59 | a recovered record has at least two ','-parts; a PUT comes from "PUT" with a third part holding its value, a DELETE from "DELETE"; its key is the second part |
| WriteAheadLogs.ParsePutLine | com/andrey/MyWriteAheadLog.java:22-56 | the line logPut writes parses back to the same PUT when key and value hold no ',' or line terminator and the value is not empty |
| WriteAheadLogs.ParseDeleteLine | com/andrey/MyWriteAheadLog.java:33-58 | the line logDelete writes parses back to the same DELETE when the key holds no ',' or line terminator and is not empty |
| WriteAheadLogs.DeleteOfEmptyKeyIsLost | com/andrey/MyWriteAheadLog.java:36-52 | `DELETE,` with the empty key is skipped by recovery, since split drops the empty last part |
| WriteAheadLogs.PutValueTruncated | com/andrey/MyWriteAheadLog.java:51-56 | a PUT value holding ',' is recovered cut before its first ',' |
| WriteAheadLogs.DeleteExtraFieldsIgnored | com/andrey/MyWriteAheadLog.java:51-58 | fields after the key of a DELETE line are ignored |
| WriteAheadLogs.RecoveredAppendPut | com/andrey/MyWriteAheadLog.java:22-61 | appending logPut's record to a log of whole lines adds exactly that PUT to what recovery returns, for a plain key and a non-empty plain value |
| WriteAheadLogs.RecoveredAppendDelete | com/andrey/MyWriteAheadLog.java:33-61 | appending logDelete's record adds exactly that DELETE to what recovery returns, for a non-empty plain key |
| WriteAheadLogs.WriteAheadLog.constructor | com/andrey/MyWriteAheadLog.java:14-20 | the log opens for appending over the file's existing text |
| WriteAheadLogs.WriteAheadLog.LogPut | com/andrey/MyWriteAheadLog.java:22-31 | appends exactly `PUT,key,value` and a newline to the end of the log; fails and changes nothing when the writer is closed |
| WriteAheadLogs.WriteAheadLog.LogDelete | com/andrey/MyWriteAheadLog.java:33-42 | appends exactly `DELETE,key` and a newline to the end of the log; fails and changes nothing when the writer is closed |
| WriteAheadLogs.WriteAheadLog.Recover | com/andrey/MyWriteAheadLog.java:44-67 | the records of the log's lines in file order, skipping lines that make none; the log is not modified |
| WriteAheadLogs.WriteAheadLog.GracefulClose | com/andrey/MyWriteAheadLog.java:69-76 | the content is kept and the writer is closed |
| WriteAheadLogs.WriteAheadLog.Cleanup | com/andrey/MyWriteAheadLog.java:78-90 | the log is empty and open for appending |
| Segments.LinesSerialize | com/andrey/MySSTable.java:32-35 | reading a flushed file of plain entries line by line gives the entries' `key,value` lines in order |
| Segments.Mid | com/andrey/MySSTable.java:113 | the midpoint lies in the window [start, end), so each step that moves a bound shrinks the window |
| Segments.BinarySearchInFile | com/andrey/MySSTable.java:100-145 | null for a header count of 0; otherwise the result of the search loop over [start, end), spinning on a line without ',' |
| Segments.SearchFromSound | com/andrey/MySSTable.java:112-142 | a value the loop returns is the value part of a whole line of the file whose key part is the searched key |
| Segments.BinarySearchSound | com/andrey/MySSTable.java:100-145 | any value binarySearchInFile returns comes from a line `key,value` of that file |
| Segments.BinarySearchFlushed | com/andrey/MySSTable.java:100-145 | on a flushed file of plain entries the search never spins, and a value it finds is the flushed map's value for the key |
| Segments.SearchMissesLineAtMidpoint | com/andrey/MySSTable.java:112-141 | the search is not complete: in the file of a=12345, b=1, c=1, d=12345 the line of c starts at the first midpoint and c is not found |
| Segments.ScanBatch | com/andrey/MySSTable.java:173-190 | every key the scan adds lies in [lo, hi], and nothing collected before is lost |
| Segments.ReadBatch | com/andrey/MySSTable.java:165-194 | every key readBatchFromFile returns lies in [lo, hi] |
| Segments.ReadBatchFromFile | com/andrey/MySSTable.java:165-194 | the loop's result is the scan of the file's lines: comma-less lines skipped, keys in range stored, stop after the first key above hi |
| Segments.ScanEntries | com/andrey/MySSTable.java:174-190 | scanning the lines of ascending entries stores exactly the in-range entries, so the early stop loses nothing |
| Segments.ReadBatchFlushed | com/andrey/MySSTable.java:165-194 | on a flushed file of plain entries the range scan returns exactly the flushed map's entries in [lo, hi] |
| SSTables.GenerationNameRoundTrip | com/andrey/MySSTable.java:47-55 | the generation parsed back from a generated file name is the counter it was built from |
| SSTables.GenerationNameInjective | com/andrey/MySSTable.java:54-56 | distinct counter values give distinct file names |
| SSTables.NextFileCounter | com/andrey/MySSTable.java:76-98 | 0 for an unreadable directory; otherwise non-negative, above every parsable generation, and when positive one more than a parsable generation (so 1 + the largest one) |
| SSTables.SegmentsGetSound | com/andrey/MySSTable.java:66-74 | a value get returns is no tombstone and comes from the newest file whose search finds the key, every newer file missing it |
| SSTables.SegmentsGetNewest | com/andrey/MySSTable.java:66-74 | when the newest files miss the key and the next one finds it, get returns that value (null for a tombstone) whatever older files hold |
| SSTables.Merge | com/andrey/MySSTable.java:155-159 | the keys of both maps, the newer map's value winning for a key in both |
| SSTables.MergeInto | com/andrey/MySSTable.java:155-159 | the merge loop adds exactly the older entries whose key the newer map lacks |
| SSTables.SegmentsBatchInRange | com/andrey/MySSTable.java:147-163 | every key getBatch collects lies in [lo, hi] |
| SSTables.SegmentsBatchNewestWins | com/andrey/MySSTable.java:147-163 | every in-range key of every file is in the result, and each key has the value of the newest file holding it, tombstones included |
| SSTables.SSTable.LoadSortedFilesList | com/andrey/MySSTable.java:40-52 | succeeds exactly when every matching name parses; it then lists every parsable file under its generation, and every listed generation names a file of that generation |
| SSTables.SSTable.GenerateFilename | com/andrey/MySSTable.java:54-56 | the name of the current counter value; the counter moves on by one |
| SSTables.SSTable.Flush | com/andrey/MySSTable.java:21-38 | nothing changes for an empty memtable; otherwise one new file under a name not on disk holds the memtable's sorted entries with its entry count, the counter moves on, and the list is reloaded |
| SSTables.SSTable.Cleanup | com/andrey/MySSTable.java:58-64 | exactly the matching files are deleted; the list and the counter keep their values |
| SSTables.SSTable.Get | com/andrey/MySSTable.java:66-74 | the answer of the newest segment whose search finds the key, tombstone as null |
| SSTables.SSTable.GetBatch | com/andrey/MySSTable.java:147-163 | every segment's entries in [lo, hi], newest segment winning per key |
| SSTables.Open | com/andrey/MySSTable.java:13-19 | null exactly when a matching name does not parse; otherwise the counter is above every generation on disk and the list matches the files |
| Engine.ReadAfterPut | com/andrey/MyStorageEngine.java:52-68 | a live value put into the memtable is what get returns |
| Engine.ReadThroughTombstone | com/andrey/MyStorageEngine.java:52-68 | a memtable tombstone does not stop get: the segments answer, possibly with an older value |
| Engine.ReadSound | com/andrey/MyStorageEngine.java:52-68 | a value get returns is never the tombstone; it is the memtable's live value or the newest segment's hit |
| Engine.Live | com/andrey/MyStorageEngine.java:124 | exactly the entries whose value is not the tombstone |
| Engine.BatchResult | com/andrey/MyStorageEngine.java:105-131 | keys in [lo, hi], no tombstone, the memtable's entry deciding every key it holds, other keys from the newest segment holding them; conversely, a key only in segments is returned exactly when the newest segment holding it has a live value, with that value |
| Engine.ApplyBatch | com/andrey/MyStorageEngine.java:141-148 | after a non-empty batch with limit >= 1 the memtable is not full |
| Engine.ApplyBatchFlushes | com/andrey/MyStorageEngine.java:141-148 | every flushed map had reached the limit and is not empty; at most one flush per entry |
| Engine.BatchLosesLoggedEntry | com/andrey/MyStorageEngine.java:133-148 | eleven distinct entries: the tenth flushes and truncates the log, so the eleventh, logged before, lives only in the memtable and the empty log replays to nothing |
| Engine.StorageEngine.RecoverFromWal | com/andrey/MyStorageEngine.java:24-37 | the memtable becomes the in-order replay of the log's records (PUT to put, DELETE to delete), with no flush |
| Engine.StorageEngine.FlushMemTable | com/andrey/MyStorageEngine.java:79-83 | memtable and log are empty afterwards; a segment is added exactly when the memtable was not empty |
| Engine.StorageEngine.PutAndMaybeFlush | com/andrey/MyStorageEngine.java:42-46 | the entry is stored; when that fills the memtable, it goes into a new segment under an unused name, memtable and log are emptied, the counter advances and the segment list is reloaded to match the directory; otherwise directory, counter and list are unchanged |
| Engine.StorageEngine.Put | com/andrey/MyStorageEngine.java:39-50 | the record is logged before the store, a memtable that reaches the limit is flushed into a new segment (counter advanced, segment list reloaded) so it is never full afterwards, otherwise directory and segment list are unchanged; a closed log changes nothing; a log that replays to the memtable still does so |
| Engine.StorageEngine.Get | com/andrey/MyStorageEngine.java:52-68 | the memtable's live value, else the segments' answer, which is copied into the memtable without a log record |
| Engine.StorageEngine.Delete | com/andrey/MyStorageEngine.java:70-77 | a DELETE record is logged, then the key is tombstoned, with no flush; a log that replays to the memtable still does so |
| Engine.StorageEngine.GracefulClose | com/andrey/MyStorageEngine.java:85-92 | a flush of a non-empty memtable into a new segment (counter advanced, segment list reloaded), nothing on disk changed for an empty one, then the log is closed so later writes fail |
| Engine.StorageEngine.Cleanup | com/andrey/MyStorageEngine.java:94-103 | segment files deleted and log emptied; segment list, counter and memtable untouched |
| Engine.StorageEngine.GetBatch | com/andrey/MyStorageEngine.java:105-131 | the memtable's range, the segments' range for the keys it lacks, tombstones removed; changes nothing |
| Engine.StorageEngine.LogEntries | com/andrey/MyStorageEngine.java:135-138 | every entry's PUT record appended in order before any memtable update |
| Engine.StorageEngine.ApplyEntries | com/andrey/MyStorageEngine.java:140-148 | each entry put in order, flushing into the next generation's file whenever the memtable reaches the limit; the segment list is reloaded after any flush and unchanged without one, and the log is open again after a flush |
| Engine.StorageEngine.PutBatch | com/andrey/MyStorageEngine.java:133-152 | all records logged first, then the batch applied; a flush truncates and reopens the log and reloads the segment list, and a non-empty batch leaves the memtable not full; a batch refused by a closed log changes nothing |
| Engine.Start | com/andrey/MyStorageEngine.java:13-22 | an empty memtable with the default limit replays the log; null when a segment name does not parse |
| ApiHelpers.ParseQueryParams | com/andrey/MyAPILayer.java:38-50 | an empty map for a missing query, otherwise the fold of the '&'-separated pairs |
| ApiHelpers.QuerySound | com/andrey/MyAPILayer.java:41-46 | every parameter comes from a pair that splits on '=' into exactly that key and value |
| ApiHelpers.QueryLastWins | com/andrey/MyAPILayer.java:41-46 | the last two-part pair for a key decides its value |
| ApiHelpers.QueryPairKept | com/andrey/MyAPILayer.java:41-46 | `key=value` with no separator in either part and a non-empty value gives exactly that parameter |
| ApiHelpers.QueryPairWithTwoSeparatorsDropped | com/andrey/MyAPILayer.java:43-45 | a pair `a=b=c` is dropped |
| ApiHelpers.QueryPairWithEmptyValueDropped | com/andrey/MyAPILayer.java:43-45 | a pair `a=` is dropped |
| ApiHelpers.ParseJson | com/andrey/MyAPILayer.java:227-244 | IllegalArgumentException exactly when the trimmed input does not start with `{` and end with `}` |
| ApiHelpers.ParseJsonToMap | com/andrey/MyAPILayer.java:227-244 | the loop's map is ParseJson's: pieces split on ',', each split at its first ':', unquoted, pieces without ':' skipped |
| ApiHelpers.FormatEmpty | com/andrey/MyAPILayer.java:184-198 | an empty map is formatted as `{}` |
| ApiHelpers.FormatBatchResponse | com/andrey/MyAPILayer.java:184-198 | `{`, then the `"k":"v"` members joined by ',' in iteration order, then `}` |
| ApiHelpers.FormatParseRoundTrip | com/andrey/MyAPILayer.java:184-244 | parsing the formatted map gives the map back when no key holds ',', ':' or '"' and no value holds ',' or '"' |

## Left out

- Concurrency is not modelled: locks, `synchronized`, atomic counters and
  thread-safe maps. Every operation is one sequential step.
- I/O failures are limited to two cases: a listed segment file that no longer
  exists gives an I/O error, and a closed log makes writes fail. Other
  failures are not modelled: a full disk, permissions, an unreadable log, or
  `Files.delete` failing during cleanup.
- Wrapping an `IOException` in a `RuntimeException` is the same failure outcome.
- The byte level is not modelled:
  - characters stand for bytes, and the default charset is ignored;
  - the big-endian 4-byte header is the count itself;
  - offsets start after the header.
- Directory creation and paths are not modelled. The directory is a map from
  file name to file, and the log is its text.
- `Order.Less` compares Unicode scalar values. Java compares UTF-16 code
  units, so a character above U+FFFF (a surrogate pair, such as U+1F600)
  sorts before U+E000–U+FFFF in Java and after them here. The two orders
  agree on keys without such characters.
- `Text.ParseLong` accepts ASCII digits only and has no 64-bit range check.
  Java's `Long.parseLong` also accepts other Unicode decimal digits, and it
  throws beyond the `long` range. So a segment named
  `sstable-99999999999999999999.db` makes the Java constructor fail, while
  `SSTables.Open` accepts it. The file counter never wraps around.
- `getAll` returns the live map view in the source. Here it returns the sorted
  entries, and flush reads the memtable's map directly. Aliasing through that
  view is not modelled.
- The batch entries of `putBatch` and `formatBatchResponse` come from a
  `HashMap` or `TreeMap` whose iteration order is a library detail. Both
  methods take the entries as a sequence.
  - `Format` iterates in ascending order, as the `TreeMap` that `getBatch`
    returns does.
- In the engine's constructor, the `NumberFormatException` from loading the
  segment list ends with no engine (`null`).
- The HTTP handlers, the server, `MyKeyValueDB` and `MyTestCases` are not part
  of this model.
- Engine.StorageEngine.Put: it does not state that the log replays to the
  memtable for keys or values holding ',' or a line terminator, or for an
  empty value. Recovery does not give those records back, so the property
  does not hold for them.
- Engine.StorageEngine.Delete: the same restriction, for keys holding ',' or a
  line terminator, or for the empty key.
- Engine.StorageEngine.Get: the copy of a segment hit into the memtable breaks
  the log-replays-to-memtable property, so Get states nothing about it.
  The engine's `cleanup` also breaks it: it empties the log and keeps the
  memtable.
- SSTables.SSTable.LoadSortedFilesList: when a name fails to parse, it does not
  state which generations the list already holds. It states only that each of
  them names a file of that generation.
- Segments.BinarySearchInFile: completeness is not claimed, because the search
  misses a line that starts exactly at a midpoint (see
  Segments.SearchMissesLineAtMidpoint).
