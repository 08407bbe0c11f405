/**
  * The storage engine: a memtable in front of the segment directory, with
  * every mutation logged to the write-ahead log first. A full memtable is
  * flushed into a new segment, after which the log is truncated.
  */
module Engine {
  import opened Wrappers
  import opened Outcomes
  import opened Constants
  import opened Order
  import opened SortedMaps
  import opened Text
  import opened MemTables
  import opened WriteAheadLogs
  import opened Segments
  import opened SSTables

  // ---------------------------------------------------------------------
  // Replaying the log

  /** The memtable map after applying one recovered record. */
  function Apply(m: map<string, string>, e: LogEntry): map<string, string> {
    match e
    case PutRecord(key, value) => m[key := value]
    case DeleteRecord(key) => m[key := Tombstone]
  }

  /** The memtable map after applying the records in order, starting from m. */
  function Replay(entries: seq<LogEntry>, m: map<string, string>): map<string, string> {
    if entries == [] then m
    else Apply(Replay(entries[..|entries| - 1], m), entries[|entries| - 1])
  }

  /** Replaying one more record applies it to the map replayed so far. */
  lemma ReplaySnoc(entries: seq<LogEntry>, e: LogEntry, m: map<string, string>)
    ensures Replay(entries + [e], m) == Apply(Replay(entries, m), e)
  {
    assert (entries + [e])[..|entries|] == entries;
  }

  /** Replaying the first i + 1 records applies record i to the first i replayed. */
  lemma ReplayPrefix(entries: seq<LogEntry>, i: nat, m: map<string, string>)
    requires i < |entries|
    ensures Replay(entries[..i + 1], m) == Apply(Replay(entries[..i], m), entries[i])
  {
    assert entries[..i + 1][..i] == entries[..i];
  }

  /** The empty log replays to the empty memtable. */
  lemma ReplayEmptyLog()
    ensures Recovered([]) == []
    ensures Replay(Recovered([]), map[]) == map[]
  {
    assert Lines([]) == [];
  }

  // ---------------------------------------------------------------------
  // Reads

  /**
    * get: the memtable's live value when it has one; otherwise the segments'
    * answer. A tombstone in the memtable does not stop the search.
    */
  function Read(m: map<string, string>, disk: map<string, SegmentFile>, files: map<int, string>, key: string): Outcome<Option<string>>
  {
    if Lookup(m, key).Some? then Returns(Lookup(m, key)) else SegmentsGet(disk, files, files.Keys, key)
  }

  /** A value stored in the memtable and not flushed since is what get returns. */
  lemma ReadAfterPut(m: map<string, string>, disk: map<string, SegmentFile>, files: map<int, string>, key: string, value: string)
    requires value != Tombstone
    ensures Read(m[key := value], disk, files, key) == Returns(Some(value))
  {
  }

  /** A key whose memtable entry is the tombstone is answered by the segments, which may still hold an older value. */
  lemma ReadThroughTombstone(m: map<string, string>, disk: map<string, SegmentFile>, files: map<int, string>, key: string)
    requires key in m && m[key] == Tombstone
    ensures Read(m, disk, files, key) == SegmentsGet(disk, files, files.Keys, key)
  {
  }

  /**
    * A value get returns is never the tombstone; it is the memtable's live
    * value, or, when the memtable has none, the value of the newest segment
    * whose search finds the key, every newer segment missing it.
    */
  lemma ReadSound(m: map<string, string>, disk: map<string, SegmentFile>, files: map<int, string>, key: string, v: string)
    requires Read(m, disk, files, key) == Returns(Some(v))
    ensures v != Tombstone
    ensures Lookup(m, key) == Some(v) || (Lookup(m, key).None? &&
      exists g :: (g in files && files[g] in disk && BinarySearch(disk[files[g]], key) == Found(v)
        && MissedAbove(disk, files, files.Keys, key, g)))
  {
    if Lookup(m, key).None? {
      SegmentsGetSound(disk, files, files.Keys, key, v);
    }
  }

  /** The entries of m that are not tombstones. */
  function Live(m: map<string, string>): (r: map<string, string>)
    ensures forall k :: k in r <==> k in m && m[k] != Tombstone
    ensures forall k :: k in r ==> r[k] == m[k]
  {
    map k | k in m && m[k] != Tombstone :: m[k]
  }

  /**
    * getBatch: the memtable's range (which throws when lo is ordered after
    * hi), then the segments' range for the keys the memtable lacks, then
    * every tombstone removed.
    */
  function Batch(m: map<string, string>, disk: map<string, SegmentFile>, files: map<int, string>, lo: string, hi: string): Outcome<map<string, string>>
  {
    if Less(hi, lo) then Fails(IllegalArgument)
    else match SegmentsBatch(disk, files, files.Keys, lo, hi, map[])
      case Returns(s) => Returns(Live(Merge(Restrict(m, lo, hi), s)))
      case Fails(e) => Fails(e)
      case Loops => Loops
  }

  /**
    * What getBatch returns: keys in [lo, hi], no tombstone, the memtable's
    * entry deciding every key it holds (a memtable tombstone hides the key),
    * and a key the memtable lacks coming from the newest segment holding it.
    */
  lemma BatchResult(m: map<string, string>, disk: map<string, SegmentFile>, files: map<int, string>, lo: string, hi: string, r: map<string, string>)
    requires Batch(m, disk, files, lo, hi) == Returns(r)
    ensures LessEq(lo, hi)
    ensures forall k :: k in r ==> InRange(k, lo, hi) && r[k] != Tombstone
    ensures forall k :: k in m && InRange(k, lo, hi) ==>
      (k in r <==> m[k] != Tombstone) && (k in r ==> r[k] == m[k])
    ensures forall k :: k in r && k !in m ==> exists g :: (g in files && files[g] in disk && k in FileBatch(disk, files, g, lo, hi)
      && r[k] == FileBatch(disk, files, g, lo, hi)[k] && AbsentAbove(disk, files, files.Keys, lo, hi, k, g))
    ensures forall k, g :: (k !in m && g in files && files[g] in disk && k in FileBatch(disk, files, g, lo, hi)
      && AbsentAbove(disk, files, files.Keys, lo, hi, k, g)) ==>
      (k in r <==> FileBatch(disk, files, g, lo, hi)[k] != Tombstone) && (k in r ==> r[k] == FileBatch(disk, files, g, lo, hi)[k])
  {
    LessTotal(lo, hi);
    var s := SegmentsBatch(disk, files, files.Keys, lo, hi, map[]).value;
    SegmentsBatchInRange(disk, files, files.Keys, lo, hi, map[]);
    SegmentsBatchNewestWins(disk, files, files.Keys, lo, hi, map[], s);
    forall k, g | k !in m && g in files && files[g] in disk && k in FileBatch(disk, files, g, lo, hi)
      && AbsentAbove(disk, files, files.Keys, lo, hi, k, g)
      ensures k in s && s[k] == FileBatch(disk, files, g, lo, hi)[k]
    {
      assert k in s;
      // the newest file holding k is unique: each of two such files is absent above the other
      var h :| h in files && k in FileBatch(disk, files, h, lo, hi)
        && s[k] == FileBatch(disk, files, h, lo, hi)[k] && AbsentAbove(disk, files, files.Keys, lo, hi, k, h);
      assert h == g;
    }
  }

  // ---------------------------------------------------------------------
  // Batch writes

  /** The memtable after a batch, and the maps it flushed on the way, oldest first. */
  datatype BatchRun = BatchRun(data: map<string, string>, flushes: seq<map<string, string>>)

  /**
    * putBatch's second loop: each entry is put, and a memtable that reaches
    * the limit is flushed and cleared at once.
    */
  function ApplyBatch(m: map<string, string>, es: seq<Entry>, limit: int): (r: BatchRun)
    ensures es != [] && limit >= 1 ==> |r.data| < limit
  {
    if es == [] then BatchRun(m, [])
    else
      var before := ApplyBatch(m, es[..|es| - 1], limit);
      var e := es[|es| - 1];
      var d := before.data[e.key := e.value];
      if |d| >= limit then BatchRun(map[], before.flushes + [d]) else BatchRun(d, before.flushes)
  }

  /** Every flushed map reached the limit, and a batch flushes at most once per entry. */
  lemma {:induction false} ApplyBatchFlushes(m: map<string, string>, es: seq<Entry>, limit: int)
    requires limit >= 1
    ensures var r := ApplyBatch(m, es, limit);
      && (forall i :: 0 <= i < |r.flushes| ==> |r.flushes[i]| >= limit && r.flushes[i] != map[])
      && |r.flushes| <= |es|
    decreases |es|
  {
    if es != [] {
      ApplyBatchFlushes(m, es[..|es| - 1], limit);
    }
  }

  /** The log records putBatch's first loop appends, in order. */
  function LogText(es: seq<Entry>): string {
    if es == [] then [] else LogText(es[..|es| - 1]) + (PutLine(es[|es| - 1].key, es[|es| - 1].value) + "\n")
  }

  /** Logging one more entry appends its record to the text logged so far. */
  lemma LogTextStep(start: string, es: seq<Entry>, i: nat, before: string, after: string)
    requires i < |es| && before == start + LogText(es[..i])
    requires after == before + (PutLine(es[i].key, es[i].value) + "\n")
    ensures after == start + LogText(es[..i + 1])
  {
    assert es[..i + 1][..i] == es[..i];
    var done := LogText(es[..i]);
    var record := PutLine(es[i].key, es[i].value) + "\n";
    assert LogText(es[..i + 1]) == done + record;
    assert (start + done) + record == start + (done + record);
  }

  /** The files flush writes for the maps flushes, in order. */
  function FlushedFiles(flushes: seq<map<string, string>>): (r: seq<SegmentFile>)
    ensures |r| == |flushes|
  {
    seq(|flushes|, i requires 0 <= i < |flushes| => FlushedFile(flushes[i]))
  }

  /** The directory after writing files under the generations from counter on. */
  function AddSegments(disk: map<string, SegmentFile>, counter: nat, files: seq<SegmentFile>): map<string, SegmentFile>
  {
    if files == [] then disk
    else AddSegments(disk, counter, files[..|files| - 1])[GenerationName(counter + |files| - 1) := files[|files| - 1]]
  }

  /** One more entry of the batch: the put, then a flush if the memtable reached the limit. */
  lemma ApplyBatchStep(m: map<string, string>, es: seq<Entry>, i: nat, limit: int)
    requires i < |es|
    ensures ApplyBatch(m, es[..i + 1], limit) ==
      var before := ApplyBatch(m, es[..i], limit);
      var d := before.data[es[i].key := es[i].value];
      if |d| >= limit then BatchRun(map[], before.flushes + [d]) else BatchRun(d, before.flushes)
  {
    assert es[..i + 1][..i] == es[..i];
  }

  /** One more file is written under the next generation. */
  lemma AddSegmentsSnoc(disk: map<string, SegmentFile>, counter: nat, files: seq<SegmentFile>, f: SegmentFile, next: nat)
    requires next == counter + |files|
    ensures AddSegments(disk, counter, files + [f]) == AddSegments(disk, counter, files)[GenerationName(next) := f]
  {
    var longer := files + [f];
    assert longer[..|longer| - 1] == files;
    assert longer[|longer| - 1] == f;
    assert counter + |longer| - 1 == next;
  }

  /** One more flushed map writes one more file. */
  lemma FlushedFilesSnoc(flushes: seq<map<string, string>>, d: map<string, string>)
    ensures FlushedFiles(flushes + [d]) == FlushedFiles(flushes) + [FlushedFile(d)]
  {
    var longer := flushes + [d];
    forall i | 0 <= i < |longer| ensures FlushedFiles(longer)[i] == (FlushedFiles(flushes) + [FlushedFile(d)])[i] {
      if i < |flushes| {
        assert longer[i] == flushes[i];
      }
    }
  }

  /**
    * One put of a batch, in values: the memtable map, directory and counter
    * after putting entry i (and flushing when the limit is reached) are those
    * of the batch run over the first i + 1 entries.
    */
  lemma BatchPutStep(m0: map<string, string>, es: seq<Entry>, i: nat, d0: map<string, SegmentFile>, c0: nat,
                     run: BatchRun, disk: map<string, SegmentFile>, counter: nat,
                     data': map<string, string>, disk': map<string, SegmentFile>, counter': nat)
    requires i < |es| && run == ApplyBatch(m0, es[..i], DefaultRecordLimit)
    requires disk == AddSegments(d0, c0, FlushedFiles(run.flushes)) && counter == c0 + |run.flushes|
    requires var d := run.data[es[i].key := es[i].value];
      if |d| < DefaultRecordLimit then data' == d && disk' == disk && counter' == counter
      else data' == map[] && disk' == disk[GenerationName(counter) := FlushedFile(d)] && counter' == counter + 1
    ensures var next := ApplyBatch(m0, es[..i + 1], DefaultRecordLimit);
      && data' == next.data && disk' == AddSegments(d0, c0, FlushedFiles(next.flushes)) && counter' == c0 + |next.flushes|
      && (next.flushes == [] <==> run.flushes == [] && |run.data[es[i].key := es[i].value]| < DefaultRecordLimit)
  {
    ApplyBatchStep(m0, es, i, DefaultRecordLimit);
    var d := run.data[es[i].key := es[i].value];
    FlushedFilesSnoc(run.flushes, d);
    AddSegmentsSnoc(d0, c0, FlushedFiles(run.flushes), FlushedFile(d), counter);
  }

  /** Below the limit and with distinct keys, a batch from the empty memtable keeps every entry and flushes nothing. */
  lemma {:induction false} BatchFills(es: seq<Entry>, limit: int, n: nat)
    requires DistinctKeys(es) && n <= |es| && n < limit
    ensures ApplyBatch(map[], es[..n], limit).flushes == []
    ensures |ApplyBatch(map[], es[..n], limit).data| == n
    ensures forall k :: k in ApplyBatch(map[], es[..n], limit).data ==> HasKey(es[..n], k)
  {
    if n > 0 {
      BatchFills(es, limit, n - 1);
      assert es[..n][..n - 1] == es[..n - 1];
      var before := ApplyBatch(map[], es[..n - 1], limit);
      var e := es[n - 1];
      assert forall j :: 0 <= j < n - 1 ==> es[j].key != e.key;
      CardinalityAfterUpdate(before.data, e.key, e.value);
      var d := before.data[e.key := e.value];
      forall k | k in d ensures HasKey(es[..n], k) {
        if k != e.key {
          var j :| 0 <= j < n - 1 && es[..n - 1][j].key == k;
          assert es[..n][j].key == k;
        } else {
          assert es[..n][n - 1].key == k;
        }
      }
    }
  }

  /** The tenth distinct key of a batch fills the memtable, which is flushed and emptied. */
  lemma BatchFlushesAtTen(es: seq<Entry>)
    requires |es| >= DefaultRecordLimit && DistinctKeys(es)
    ensures ApplyBatch(map[], es[..10], DefaultRecordLimit).data == map[]
    ensures ApplyBatch(map[], es[..10], DefaultRecordLimit).flushes != []
  {
    BatchFills(es, DefaultRecordLimit, 9);
    var nine := ApplyBatch(map[], es[..9], DefaultRecordLimit);
    forall j | 0 <= j < 9 ensures es[..9][j].key != es[9].key {
      assert es[..9][j] == es[j];
    }
    assert !HasKey(es[..9], es[9].key);
    CardinalityAfterUpdate(nine.data, es[9].key, es[9].value);
    ApplyBatchStep(map[], es, 9, DefaultRecordLimit);
  }

  /**
    * Eleven entries with distinct keys, from the empty memtable with the
    * default limit: the tenth put flushes and truncates the log, so the
    * eleventh entry, logged before the truncation, stays only in the memtable
    * and replaying the empty log does not give it back.
    */
  lemma BatchLosesLoggedEntry(es: seq<Entry>)
    requires |es| == DefaultRecordLimit + 1 && DistinctKeys(es)
    ensures ApplyBatch(map[], es, DefaultRecordLimit).flushes != []
    ensures ApplyBatch(map[], es, DefaultRecordLimit).data == map[es[10].key := es[10].value]
    ensures Replay(Recovered([]), map[]) != ApplyBatch(map[], es, DefaultRecordLimit).data
  {
    BatchFlushesAtTen(es);
    ApplyBatchStep(map[], es, 10, DefaultRecordLimit);
    assert es[..11] == es;
    ReplayEmptyLog();
  }

  // ---------------------------------------------------------------------
  // The engine

  class StorageEngine {
    const memTable: MemTable
    const wal: WriteAheadLog
    const ssTable: SSTable

    /** The parts are consistent and the memtable has the default limit. */
    predicate Valid()
      reads this, memTable, ssTable
    {
      memTable.Valid() && ssTable.Valid() && memTable.recordLimit == DefaultRecordLimit
    }

    /**
      * The log holds whole lines and replaying it from the empty memtable
      * gives the memtable's map.
      */
    predicate Mirrors()
      reads this, memTable, wal
    {
      EndsWithNewline(wal.content) && Replay(Recovered(wal.content), map[]) == memTable.data
    }

    constructor (m: MemTable, w: WriteAheadLog, t: SSTable)
      ensures memTable == m && wal == w && ssTable == t
    {
      memTable := m;
      wal := w;
      ssTable := t;
    }

    /** recoverFromWal: every logged record replayed into the memtable, in order, with no flush. */
    method RecoverFromWal()
      requires Valid()
      modifies memTable
      ensures Valid()
      ensures memTable.data == Replay(Recovered(wal.content), old(memTable.data))
    {
      var entries := wal.Recover();
      ghost var start := memTable.data;
      var i := 0;
      while i < |entries|
        invariant 0 <= i <= |entries|
        invariant memTable.Valid()
        invariant memTable.data == Replay(entries[..i], start)
      {
        var entry := entries[i];
        ghost var before := memTable.data;
        ReplayPrefix(entries, i, start);
        match entry {
          case PutRecord(key, value) => memTable.Put(key, value);
          case DeleteRecord(key) => memTable.Delete(key);
        }
        assert memTable.data == Apply(before, entry);
        i := i + 1;
      }
      assert entries[..|entries|] == entries;
    }

    /** flushMemTable: the memtable into a new segment (none when it is empty), then both emptied. */
    method FlushMemTable()
      requires Valid()
      modifies memTable, wal, ssTable
      ensures Valid() && Mirrors()
      ensures memTable.data == map[] && wal.content == [] && wal.isOpen
      ensures old(memTable.data) == map[] ==> (ssTable.disk == old(ssTable.disk)
        && ssTable.fileCounter == old(ssTable.fileCounter) && ssTable.sortedFilesList == old(ssTable.sortedFilesList))
      ensures old(memTable.data) != map[] ==>
        && GenerationName(old(ssTable.fileCounter)) !in old(ssTable.disk)
        && ssTable.disk == old(ssTable.disk)[GenerationName(old(ssTable.fileCounter)) := FlushedFile(old(memTable.data))]
        && ssTable.fileCounter == old(ssTable.fileCounter) + 1
        && Listed(ssTable.disk, ssTable.sortedFilesList)
    {
      ssTable.Flush(memTable);
      memTable.Clear();
      wal.Cleanup();
      ReplayEmptyLog();
    }

    /** The put of put and putBatch: the entry stored, then a flush if the memtable reached the limit. */
    method PutAndMaybeFlush(key: string, value: string)
      requires Valid()
      modifies memTable, wal, ssTable
      ensures Valid()
      ensures |old(memTable.data)[key := value]| < DefaultRecordLimit ==>
        && memTable.data == old(memTable.data)[key := value]
        && wal.content == old(wal.content) && wal.isOpen == old(wal.isOpen)
        && ssTable.disk == old(ssTable.disk) && ssTable.fileCounter == old(ssTable.fileCounter)
        && ssTable.sortedFilesList == old(ssTable.sortedFilesList)
      ensures |old(memTable.data)[key := value]| >= DefaultRecordLimit ==>
        && memTable.data == map[] && wal.content == [] && wal.isOpen
        && GenerationName(old(ssTable.fileCounter)) !in old(ssTable.disk)
        && ssTable.disk == old(ssTable.disk)[GenerationName(old(ssTable.fileCounter)) := FlushedFile(old(memTable.data)[key := value])]
        && ssTable.fileCounter == old(ssTable.fileCounter) + 1
        && Listed(ssTable.disk, ssTable.sortedFilesList)
    {
      memTable.Put(key, value);
      if memTable.IsFull() {
        FlushMemTable();
      }
    }

    /**
      * put: the record is logged first (a closed log throws and changes
      * nothing), then stored; a memtable that reaches the limit is flushed,
      * so the memtable is never full afterwards.
      */
    method Put(key: string, value: string) returns (ok: bool)
      requires Valid()
      modifies memTable, wal, ssTable
      ensures Valid()
      ensures ok == old(wal.isOpen) && wal.isOpen == old(wal.isOpen)
      ensures !ok ==> (memTable.data == old(memTable.data) && wal.content == old(wal.content)
        && ssTable.disk == old(ssTable.disk) && ssTable.fileCounter == old(ssTable.fileCounter)
        && ssTable.sortedFilesList == old(ssTable.sortedFilesList))
      ensures ok && |old(memTable.data)[key := value]| < DefaultRecordLimit ==>
        && memTable.data == old(memTable.data)[key := value]
        && wal.content == old(wal.content) + (PutLine(key, value) + "\n")
        && ssTable.disk == old(ssTable.disk) && ssTable.fileCounter == old(ssTable.fileCounter)
        && ssTable.sortedFilesList == old(ssTable.sortedFilesList)
      ensures ok && |old(memTable.data)[key := value]| >= DefaultRecordLimit ==>
        && memTable.data == map[] && wal.content == []
        && GenerationName(old(ssTable.fileCounter)) !in old(ssTable.disk)
        && ssTable.disk == old(ssTable.disk)[GenerationName(old(ssTable.fileCounter)) := FlushedFile(old(memTable.data)[key := value])]
        && ssTable.fileCounter == old(ssTable.fileCounter) + 1
        && Listed(ssTable.disk, ssTable.sortedFilesList)
      ensures ok ==> |memTable.data| < memTable.recordLimit
      ensures old(Mirrors()) && Plain(key) && Plain(value) && value != "" ==> Mirrors()
    {
      ghost var before := wal.content;
      ok := wal.LogPut(key, value);
      if !ok {
        return;
      }
      PutAndMaybeFlush(key, value);
      if |old(memTable.data)[key := value]| < DefaultRecordLimit && EndsWithNewline(before) && Plain(key) && Plain(value) && value != "" {
        RecoveredAppendPut(before, key, value);
        ReplaySnoc(Recovered(before), PutRecord(key, value), map[]);
      }
    }

    /** get: the memtable's live value, else the segments' answer, which is then written into the memtable unlogged. */
    method Get(key: string) returns (r: Outcome<Option<string>>)
      requires Valid()
      modifies memTable
      ensures Valid()
      ensures r == Read(old(memTable.data), ssTable.disk, ssTable.sortedFilesList, key)
      ensures memTable.data ==
        if Lookup(old(memTable.data), key).None? && r.Returns? && r.value.Some?
        then old(memTable.data)[key := r.value.value] else old(memTable.data)
    {
      var value := memTable.Get(key);
      if value.Some? {
        return Returns(value);
      }
      r := ssTable.Get(key);
      if r.Returns? && r.value.Some? {
        memTable.Put(key, r.value.value);
      }
    }

    /** delete: the record is logged first, then the key is tombstoned; it never flushes. */
    method Delete(key: string) returns (ok: bool)
      requires Valid()
      modifies memTable, wal
      ensures Valid()
      ensures ok == old(wal.isOpen) && wal.isOpen == old(wal.isOpen)
      ensures memTable.data == if ok then old(memTable.data)[key := Tombstone] else old(memTable.data)
      ensures wal.content == if ok then old(wal.content) + (DeleteLine(key) + "\n") else old(wal.content)
      ensures old(Mirrors()) && Plain(key) && key != "" ==> Mirrors()
    {
      ghost var before := wal.content;
      ok := wal.LogDelete(key);
      if !ok {
        return;
      }
      memTable.Delete(key);
      if EndsWithNewline(before) && Plain(key) && key != "" {
        RecoveredAppendDelete(before, key);
        ReplaySnoc(Recovered(before), DeleteRecord(key), map[]);
      }
    }

    /** gracefulClose: a flush, then the log's writer is closed, so later writes fail. */
    method GracefulClose()
      requires Valid()
      modifies memTable, wal, ssTable
      ensures Valid()
      ensures memTable.data == map[] && wal.content == [] && !wal.isOpen
      ensures old(memTable.data) != map[] ==>
        && GenerationName(old(ssTable.fileCounter)) !in old(ssTable.disk)
        && ssTable.disk == old(ssTable.disk)[GenerationName(old(ssTable.fileCounter)) := FlushedFile(old(memTable.data))]
        && ssTable.fileCounter == old(ssTable.fileCounter) + 1
        && Listed(ssTable.disk, ssTable.sortedFilesList)
      ensures old(memTable.data) == map[] ==> (ssTable.disk == old(ssTable.disk)
        && ssTable.fileCounter == old(ssTable.fileCounter) && ssTable.sortedFilesList == old(ssTable.sortedFilesList))
    {
      FlushMemTable();
      wal.GracefulClose();
    }

    /** cleanup: the segment files deleted and the log emptied; the memtable keeps its entries. */
    method Cleanup()
      requires Valid()
      modifies ssTable, wal
      ensures Valid()
      ensures ssTable.disk == map name | name in old(ssTable.disk) && !MatchesPattern(name) :: old(ssTable.disk)[name]
      ensures ssTable.sortedFilesList == old(ssTable.sortedFilesList) && ssTable.fileCounter == old(ssTable.fileCounter)
      ensures wal.content == [] && wal.isOpen
    {
      ssTable.Cleanup();
      wal.Cleanup();
    }

    /** getBatch, per Batch: nothing changes. */
    method GetBatch(lo: string, hi: string) returns (r: Outcome<map<string, string>>)
      requires Valid()
      ensures r == Batch(memTable.data, ssTable.disk, ssTable.sortedFilesList, lo, hi)
    {
      var memResults := memTable.GetBatch(lo, hi);
      if memResults.Fails? {
        return Fails(memResults.error);
      }
      var ssResults := ssTable.GetBatch(lo, hi);
      match ssResults {
        case Fails(e) => return Fails(e);
        case Loops => return Loops;
        case Returns(s) =>
          var merged := MergeInto(memResults.value, s);
          // removeIf on the tombstone value
          return Returns(Live(merged));
      }
    }

    /** putBatch's second loop: each entry put, and the memtable flushed whenever it reaches the limit. */
    method ApplyEntries(entries: seq<Entry>)
      requires Valid()
      modifies memTable, wal, ssTable
      ensures Valid()
      ensures memTable.data == ApplyBatch(old(memTable.data), entries, DefaultRecordLimit).data
      ensures wal.content ==
        if ApplyBatch(old(memTable.data), entries, DefaultRecordLimit).flushes == [] then old(wal.content) else []
      ensures wal.isOpen == (old(wal.isOpen) || ApplyBatch(old(memTable.data), entries, DefaultRecordLimit).flushes != [])
      ensures ssTable.disk == AddSegments(old(ssTable.disk), old(ssTable.fileCounter),
        FlushedFiles(ApplyBatch(old(memTable.data), entries, DefaultRecordLimit).flushes))
      ensures ssTable.fileCounter ==
        old(ssTable.fileCounter) + |ApplyBatch(old(memTable.data), entries, DefaultRecordLimit).flushes|
      ensures ApplyBatch(old(memTable.data), entries, DefaultRecordLimit).flushes == [] ==>
        ssTable.sortedFilesList == old(ssTable.sortedFilesList)
      ensures ApplyBatch(old(memTable.data), entries, DefaultRecordLimit).flushes != [] ==>
        Listed(ssTable.disk, ssTable.sortedFilesList)
    {
      ghost var m0 := memTable.data;
      ghost var c0: nat := ssTable.fileCounter;
      ghost var d0 := ssTable.disk;
      ghost var w0 := wal.content;
      ghost var open0 := wal.isOpen;
      ghost var list0 := ssTable.sortedFilesList;
      ghost var run := BatchRun(m0, []);
      var i := 0;
      while i < |entries|
        invariant 0 <= i <= |entries|
        invariant run == ApplyBatch(m0, entries[..i], DefaultRecordLimit)
        invariant Valid()
        invariant memTable.data == run.data
        invariant ssTable.disk == AddSegments(d0, c0, FlushedFiles(run.flushes))
        invariant ssTable.fileCounter == c0 + |run.flushes|
        invariant wal.content == if run.flushes == [] then w0 else []
        invariant wal.isOpen == (open0 || run.flushes != [])
        invariant run.flushes == [] ==> ssTable.sortedFilesList == list0
        invariant run.flushes != [] ==> Listed(ssTable.disk, ssTable.sortedFilesList)
      {
        ghost var disk := ssTable.disk;
        ghost var counter: nat := ssTable.fileCounter;
        PutAndMaybeFlush(entries[i].key, entries[i].value);
        BatchPutStep(m0, entries, i, d0, c0, run, disk, counter, memTable.data, ssTable.disk, ssTable.fileCounter);
        run := ApplyBatch(m0, entries[..i + 1], DefaultRecordLimit);
        i := i + 1;
      }
      assert entries[..|entries|] == entries;
    }

    /** putBatch's first loop: every entry logged, stopping at the first write that fails. */
    method LogEntries(entries: seq<Entry>) returns (ok: bool)
      modifies wal
      ensures ok == (entries == [] || old(wal.isOpen))
      ensures wal.isOpen == old(wal.isOpen)
      ensures ok ==> wal.content == old(wal.content) + LogText(entries)
      ensures !ok ==> wal.content == old(wal.content)
    {
      var i := 0;
      while i < |entries|
        invariant 0 <= i <= |entries|
        invariant wal.isOpen == old(wal.isOpen)
        invariant wal.content == old(wal.content) + LogText(entries[..i])
        invariant i > 0 ==> wal.isOpen
      {
        ghost var before := wal.content;
        var logged := wal.LogPut(entries[i].key, entries[i].value);
        if !logged {
          return false;
        }
        LogTextStep(old(wal.content), entries, i, before, wal.content);
        i := i + 1;
      }
      assert entries[..|entries|] == entries;
      return true;
    }

    /**
      * putBatch: every entry logged first, then each put, with a flush (and
      * so a truncated log) whenever the memtable reaches the limit.
      */
    method PutBatch(entries: seq<Entry>) returns (ok: bool)
      requires Valid()
      modifies memTable, wal, ssTable
      ensures Valid()
      ensures ok == (entries == [] || old(wal.isOpen))
      ensures !ok ==> (memTable.data == old(memTable.data) && wal.content == old(wal.content)
        && ssTable.disk == old(ssTable.disk) && ssTable.fileCounter == old(ssTable.fileCounter)
        && ssTable.sortedFilesList == old(ssTable.sortedFilesList))
      ensures ok ==> memTable.data == ApplyBatch(old(memTable.data), entries, DefaultRecordLimit).data
      ensures ok ==> (wal.content ==
        if ApplyBatch(old(memTable.data), entries, DefaultRecordLimit).flushes == []
        then old(wal.content) + LogText(entries) else [])
      ensures ok ==> (ssTable.disk == AddSegments(old(ssTable.disk), old(ssTable.fileCounter),
        FlushedFiles(ApplyBatch(old(memTable.data), entries, DefaultRecordLimit).flushes)))
      ensures ok ==> (ssTable.fileCounter ==
        old(ssTable.fileCounter) + |ApplyBatch(old(memTable.data), entries, DefaultRecordLimit).flushes|)
      ensures ok ==> (if ApplyBatch(old(memTable.data), entries, DefaultRecordLimit).flushes == []
        then ssTable.sortedFilesList == old(ssTable.sortedFilesList)
        else Listed(ssTable.disk, ssTable.sortedFilesList))
      ensures wal.isOpen == (old(wal.isOpen) || (ok && ApplyBatch(old(memTable.data), entries, DefaultRecordLimit).flushes != []))
      ensures ok && entries != [] ==> |memTable.data| < memTable.recordLimit
    {
      ok := LogEntries(entries);
      if ok {
        ApplyEntries(entries);
      }
    }
  }

  /**
    * The constructor: an empty memtable with the default limit, the log
    * opened over its existing text, the segment directory loaded (null when
    * a segment name does not parse), then the log replayed into the memtable.
    */
  method Start(walContent: string, directory: Option<map<string, SegmentFile>>) returns (e: StorageEngine?)
    ensures e == null <==> directory.Some? && HasBadName(directory.value)
    ensures e != null ==> (fresh(e) && fresh(e.memTable) && fresh(e.wal) && fresh(e.ssTable) && e.Valid()
      && e.wal.content == walContent && e.wal.isOpen
      && e.memTable.data == Replay(Recovered(walContent), map[])
      && e.ssTable.disk == (if directory.Some? then directory.value else map[])
      && Listed(e.ssTable.disk, e.ssTable.sortedFilesList))
    ensures e != null && EndsWithNewline(walContent) ==> e.Mirrors()
  {
    var memTable := new MemTable(DefaultRecordLimit);
    var wal := new WriteAheadLog(walContent);
    var ssTable := Open(directory);
    if ssTable == null {
      return null;
    }
    e := new StorageEngine(memTable, wal, ssTable);
    e.RecoverFromWal();
  }
}
