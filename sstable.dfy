/**
  * The segment directory: immutable segment files named
  * `sstable-<generation>.db`, the list of them by generation that every
  * lookup visits from the newest generation to the oldest, and the counter
  * that numbers the next flushed segment.
  */
module SSTables {
  import opened Wrappers
  import opened Outcomes
  import opened Constants
  import opened Order
  import opened Generations
  import opened SortedMaps
  import opened Text
  import opened MemTables
  import opened Segments

  // ---------------------------------------------------------------------
  // File names and generations

  /** A name the directory listing `sstable-*.db` yields. */
  predicate MatchesPattern(name: string) {
    |name| >= |FilePrefix| + |FileSuffix|
    && name[..|FilePrefix|] == FilePrefix
    && name[|name| - |FileSuffix|..] == FileSuffix
  }

  /** The text between the prefix and the suffix of a matching name. */
  function GenerationText(name: string): string
    requires MatchesPattern(name)
  {
    name[|FilePrefix|..|name| - |FileSuffix|]
  }

  /** The generation Long.parseLong reads from a matching name, or None when it does not parse. */
  function ParsedGeneration(name: string): (r: Option<int>)
    ensures r.Some? ==> MatchesPattern(name)
  {
    if MatchesPattern(name) then ParseLong(GenerationText(name)) else None
  }

  /** A matching name whose generation does not parse: loading the list throws NumberFormatException on it. */
  predicate BadName(name: string) {
    MatchesPattern(name) && ParseLong(GenerationText(name)).None?
  }

  predicate HasBadName(disk: map<string, SegmentFile>) {
    exists name :: name in disk && BadName(name)
  }

  /** The file name generateFilename builds for the counter value n. */
  function GenerationName(n: nat): string {
    FilePrefix + NatToString(n) + FileSuffix
  }

  /** The generation read back from a generated name is the counter it was built from. */
  lemma GenerationNameRoundTrip(n: nat)
    ensures MatchesPattern(GenerationName(n))
    ensures ParsedGeneration(GenerationName(n)) == Some(n)
  {
    var name := GenerationName(n);
    assert name[..|FilePrefix|] == FilePrefix;
    assert name[|name| - |FileSuffix|..] == FileSuffix;
    assert GenerationText(name) == NatToString(n);
    ParseLongNatToString(n);
  }

  /** Distinct counter values give distinct file names. */
  lemma GenerationNameInjective(m: nat, n: nat)
    requires GenerationName(m) == GenerationName(n)
    ensures m == n
  {
    GenerationNameRoundTrip(m);
    GenerationNameRoundTrip(n);
  }

  /** getNextFileCounter: one more than the largest parsable generation of the matching names, or 0. */
  method NextFileCounter(listing: Option<set<string>>) returns (r: int)
    ensures listing.None? ==> r == 0
    ensures r >= 0
    ensures listing.Some? ==> forall name :: name in listing.value && ParsedGeneration(name).Some? ==>
      ParsedGeneration(name).value < r
    ensures listing.Some? && r > 0 ==> exists name :: name in listing.value && ParsedGeneration(name) == Some(r - 1)
  {
    if listing.None? {
      return 0;
    }
    var names := listing.value;
    var maxCounter := -1;
    var todo := names;
    while todo != {}
      invariant todo <= names
      invariant maxCounter >= -1
      invariant forall name :: name in names - todo && ParsedGeneration(name).Some? ==>
        ParsedGeneration(name).value <= maxCounter
      invariant maxCounter >= 0 ==> exists name :: name in names - todo && ParsedGeneration(name) == Some(maxCounter)
      decreases todo
    {
      var name :| name in todo;
      todo := todo - {name};
      if MatchesPattern(name) {
        var parsed := ParseLong(GenerationText(name));
        assert ParsedGeneration(name) == parsed;
        if parsed.Some? && parsed.value > maxCounter {
          maxCounter := parsed.value;
        }
      }
    }
    return maxCounter + 1;
  }

  /**
    * The generation list matches the files: every generation names a file
    * with that generation, and every parsable file's generation is listed.
    */
  predicate Listed(disk: map<string, SegmentFile>, files: map<int, string>) {
    (forall g :: g in files ==> files[g] in disk && ParsedGeneration(files[g]) == Some(g))
    && (forall name :: name in disk && ParsedGeneration(name).Some? ==> ParsedGeneration(name).value in files)
  }

  // ---------------------------------------------------------------------
  // Newest-first visiting order

  /**
    * get over the generations gens of the list, newest first: a listed file
    * that no longer exists throws, a search that spins never returns, the
    * first file where the key is found decides (a tombstone gives null), and
    * no hit at all gives null.
    */
  function SegmentsGet(disk: map<string, SegmentFile>, files: map<int, string>, gens: set<int>, key: string): Outcome<Option<string>>
    requires gens <= files.Keys
    decreases gens
  {
    if gens == {} then Returns(None)
    else
      var g := Largest(gens);
      if files[g] !in disk then Fails(IOError)
      else match BinarySearch(disk[files[g]], key)
        case Diverges => Loops
        case Found(v) => Returns(if v == Tombstone then None else Some(v))
        case NotFound => SegmentsGet(disk, files, gens - {g}, key)
  }

  /** Every file newer than generation g exists and does not hold key. */
  predicate MissedAbove(disk: map<string, SegmentFile>, files: map<int, string>, gens: set<int>, key: string, g: int)
    requires gens <= files.Keys
  {
    forall h :: h in gens && h > g ==> files[h] in disk && BinarySearch(disk[files[h]], key) == NotFound
  }

  /** A value get returns comes from the newest file where the search finds the key. */
  lemma {:induction false} SegmentsGetSound(disk: map<string, SegmentFile>, files: map<int, string>, gens: set<int>, key: string, v: string)
    requires gens <= files.Keys
    requires SegmentsGet(disk, files, gens, key) == Returns(Some(v))
    ensures v != Tombstone
    ensures exists g :: (g in gens && files[g] in disk && BinarySearch(disk[files[g]], key) == Found(v)
      && MissedAbove(disk, files, gens, key, g))
    decreases gens
  {
    var g := Largest(gens);
    if BinarySearch(disk[files[g]], key).NotFound? {
      SegmentsGetSound(disk, files, gens - {g}, key, v);
      var h :| h in gens - {g} && files[h] in disk && BinarySearch(disk[files[h]], key) == Found(v)
        && MissedAbove(disk, files, gens - {g}, key, h);
      assert MissedAbove(disk, files, gens, key, h);
    } else {
      assert MissedAbove(disk, files, gens, key, g);
    }
  }

  /**
    * Conversely, when the newest files miss the key and the next one finds
    * it, get returns that file's value, or null for a tombstone, whatever
    * the older files hold.
    */
  lemma {:induction false} SegmentsGetNewest(disk: map<string, SegmentFile>, files: map<int, string>, gens: set<int>, key: string, g: int, v: string)
    requires gens <= files.Keys && g in gens && files[g] in disk
    requires BinarySearch(disk[files[g]], key) == Found(v)
    requires MissedAbove(disk, files, gens, key, g)
    ensures SegmentsGet(disk, files, gens, key) == Returns(if v == Tombstone then None else Some(v))
    decreases gens
  {
    var top := Largest(gens);
    if top != g {
      SegmentsGetNewest(disk, files, gens - {top}, key, g, v);
    }
  }

  /** The entries of the file of generation g that lie in [lo, hi]. */
  function FileBatch(disk: map<string, SegmentFile>, files: map<int, string>, g: int, lo: string, hi: string): map<string, string>
    requires g in files && files[g] in disk
  {
    ReadBatch(disk[files[g]], lo, hi)
  }

  /** The entries of newer, then the entries of older whose key newer lacks. */
  function Merge(newer: map<string, string>, older: map<string, string>): (r: map<string, string>)
    ensures forall k :: k in r <==> k in newer || k in older
    ensures forall k :: k in newer ==> r[k] == newer[k]
    ensures forall k :: k in older && k !in newer ==> r[k] == older[k]
  {
    map k | k in newer.Keys + older.Keys :: if k in newer then newer[k] else older[k]
  }

  /**
    * getBatch over the generations gens, newest first, on top of the entries
    * acc already collected: each file's range adds the keys not seen yet.
    */
  function SegmentsBatch(disk: map<string, SegmentFile>, files: map<int, string>, gens: set<int>, lo: string, hi: string, acc: map<string, string>): Outcome<map<string, string>>
    requires gens <= files.Keys
    decreases gens
  {
    if gens == {} then Returns(acc)
    else
      var g := Largest(gens);
      if files[g] !in disk then Fails(IOError)
      else SegmentsBatch(disk, files, gens - {g}, lo, hi, Merge(acc, FileBatch(disk, files, g, lo, hi)))
  }

  /**
    * The merge loop of getBatch: every entry of older whose key is not in
    * newer yet is added to it.
    */
  method MergeInto(newer: map<string, string>, older: map<string, string>) returns (merged: map<string, string>)
    ensures merged == Merge(newer, older)
  {
    merged := newer;
    var pending := older.Keys;
    while pending != {}
      invariant pending <= older.Keys
      invariant forall k :: k in merged <==> k in newer || (k in older && k !in pending)
      invariant forall k :: k in merged ==> merged[k] == if k in newer then newer[k] else older[k]
      decreases pending
    {
      var k :| k in pending;
      if k !in merged {
        merged := merged[k := older[k]];
      }
      pending := pending - {k};
    }
  }

  /** Every key getBatch collects lies in [lo, hi] when the keys collected before do. */
  lemma {:induction false} SegmentsBatchInRange(disk: map<string, SegmentFile>, files: map<int, string>, gens: set<int>, lo: string, hi: string, acc: map<string, string>)
    requires gens <= files.Keys
    requires forall k :: k in acc ==> InRange(k, lo, hi)
    ensures SegmentsBatch(disk, files, gens, lo, hi, acc).Returns? ==>
      forall k :: k in SegmentsBatch(disk, files, gens, lo, hi, acc).value ==> InRange(k, lo, hi)
    decreases gens
  {
    if gens != {} {
      var g := Largest(gens);
      if files[g] in disk {
        SegmentsBatchInRange(disk, files, gens - {g}, lo, hi, Merge(acc, FileBatch(disk, files, g, lo, hi)));
      }
    }
  }

  /** Key k is absent from the ranges of the files newer than g. */
  predicate AbsentAbove(disk: map<string, SegmentFile>, files: map<int, string>, gens: set<int>, lo: string, hi: string, k: string, g: int)
    requires gens <= files.Keys
  {
    forall h :: h in gens && h > g && files[h] in disk ==> k !in FileBatch(disk, files, h, lo, hi)
  }

  /**
    * Newest wins: a key of getBatch's result that was not collected before
    * comes from the newest file whose range holds it, with that file's value
    * (tombstones included); and every key of every file's range is in the result.
    */
  lemma {:induction false} SegmentsBatchNewestWins(disk: map<string, SegmentFile>, files: map<int, string>, gens: set<int>, lo: string, hi: string, acc: map<string, string>, r: map<string, string>)
    requires gens <= files.Keys
    requires SegmentsBatch(disk, files, gens, lo, hi, acc) == Returns(r)
    ensures forall g :: g in gens ==> files[g] in disk
    ensures forall k :: k in acc ==> k in r && r[k] == acc[k]
    ensures forall k, g :: g in gens && k in FileBatch(disk, files, g, lo, hi) ==> k in r
    ensures forall k :: k in r && k !in acc ==> exists g :: (g in gens && k in FileBatch(disk, files, g, lo, hi)
      && r[k] == FileBatch(disk, files, g, lo, hi)[k] && AbsentAbove(disk, files, gens, lo, hi, k, g))
    decreases gens
  {
    if gens != {} {
      var g := Largest(gens);
      var here := FileBatch(disk, files, g, lo, hi);
      var acc' := Merge(acc, here);
      SegmentsBatchNewestWins(disk, files, gens - {g}, lo, hi, acc', r);
      forall k | k in r && k !in acc
        ensures exists h :: (h in gens && k in FileBatch(disk, files, h, lo, hi)
          && r[k] == FileBatch(disk, files, h, lo, hi)[k] && AbsentAbove(disk, files, gens, lo, hi, k, h))
      {
        if k in here {
          assert AbsentAbove(disk, files, gens, lo, hi, k, g);
        } else {
          var h :| h in gens - {g} && k in FileBatch(disk, files, h, lo, hi)
            && r[k] == FileBatch(disk, files, h, lo, hi)[k] && AbsentAbove(disk, files, gens - {g}, lo, hi, k, h);
          assert AbsentAbove(disk, files, gens, lo, hi, k, h);
        }
      }
    }
  }

  // ---------------------------------------------------------------------
  // The segment directory

  class SSTable {
    /** The files of the data directory by name. */
    var disk: map<string, SegmentFile>
    /** sortedFilesList: generation to file name, visited from the largest generation down. */
    var sortedFilesList: map<int, string>
    /** The generation of the next flushed segment. */
    var fileCounter: int

    /**
      * The counter is above every generation on disk, no matching name fails
      * to parse, and every listed generation names a file of that generation.
      */
    predicate Valid()
      reads this
    {
      && fileCounter >= 0
      && (forall name :: name in disk && ParsedGeneration(name).Some? ==> ParsedGeneration(name).value < fileCounter)
      && !HasBadName(disk)
      && (forall g :: g in sortedFilesList ==> ParsedGeneration(sortedFilesList[g]) == Some(g))
    }

    constructor (files: map<string, SegmentFile>, counter: int)
      ensures disk == files && sortedFilesList == map[] && fileCounter == counter
    {
      disk := files;
      sortedFilesList := map[];
      fileCounter := counter;
    }

    /**
      * loadSortedFilesList: clears the list and adds every matching file under
      * its generation, in directory order; a name whose generation does not
      * parse throws, leaving the generations read before it.
      */
    method LoadSortedFilesList() returns (ok: bool)
      modifies this`sortedFilesList
      ensures ok <==> !HasBadName(disk)
      ensures ok ==> Listed(disk, sortedFilesList)
      ensures forall g :: g in sortedFilesList ==> sortedFilesList[g] in disk && ParsedGeneration(sortedFilesList[g]) == Some(g)
    {
      sortedFilesList := map[];
      var todo := disk.Keys;
      while todo != {}
        invariant todo <= disk.Keys
        invariant forall name :: name in disk.Keys - todo ==> !BadName(name)
        invariant forall g :: g in sortedFilesList ==> sortedFilesList[g] in disk && ParsedGeneration(sortedFilesList[g]) == Some(g)
        invariant forall name :: name in disk.Keys - todo && ParsedGeneration(name).Some? ==>
          ParsedGeneration(name).value in sortedFilesList
        decreases todo
      {
        var name :| name in todo;
        if MatchesPattern(name) {
          var parsed := ParseLong(GenerationText(name));
          if parsed.None? {
            return false;
          }
          sortedFilesList := sortedFilesList[parsed.value := name];
        }
        todo := todo - {name};
      }
      return true;
    }

    /** generateFilename: the name of the current counter value; the counter moves on by one. */
    method GenerateFilename() returns (name: string)
      requires fileCounter >= 0
      modifies this`fileCounter
      ensures name == GenerationName(old(fileCounter)) && fileCounter == old(fileCounter) + 1
    {
      name := GenerationName(fileCounter);
      fileCounter := fileCounter + 1;
    }

    /**
      * flush: nothing for an empty memtable; otherwise a new segment named by
      * the counter holding the memtable's entries, then the list is reloaded.
      * The new name is not on disk yet, since every generation on disk is
      * below the counter.
      */
    method Flush(memTable: MemTable)
      requires Valid()
      modifies this
      ensures Valid()
      ensures old(memTable.data) == map[] ==>
        disk == old(disk) && fileCounter == old(fileCounter) && sortedFilesList == old(sortedFilesList)
      ensures old(memTable.data) != map[] ==>
        && GenerationName(old(fileCounter)) !in old(disk)
        && disk == old(disk)[GenerationName(old(fileCounter)) := FlushedFile(old(memTable.data))]
        && fileCounter == old(fileCounter) + 1
        && Listed(disk, sortedFilesList)
    {
      var data := memTable.data;
      if data == map[] {
        return;
      }
      GenerationNameRoundTrip(fileCounter);
      var name := GenerateFilename();
      disk := disk[name := FlushedFile(data)];
      var ok := LoadSortedFilesList();
    }

    /** cleanup: deletes every matching file; the list and the counter keep their values. */
    method Cleanup()
      requires Valid()
      modifies this`disk
      ensures Valid()
      ensures disk == map name | name in old(disk) && !MatchesPattern(name) :: old(disk)[name]
    {
      var todo := disk.Keys;
      while todo != {}
        invariant todo <= old(disk).Keys
        invariant disk == map name | name in old(disk) && (name in todo || !MatchesPattern(name)) :: old(disk)[name]
        decreases todo
      {
        var name :| name in todo;
        if MatchesPattern(name) {
          disk := map n | n in disk && n != name :: disk[n];
        }
        todo := todo - {name};
      }
    }

    /** get: the newest segment's answer for key, per SegmentsGet. */
    method Get(key: string) returns (r: Outcome<Option<string>>)
      ensures r == SegmentsGet(disk, sortedFilesList, sortedFilesList.Keys, key)
    {
      var todo := sortedFilesList.Keys;
      while todo != {}
        invariant todo <= sortedFilesList.Keys
        invariant SegmentsGet(disk, sortedFilesList, todo, key) == SegmentsGet(disk, sortedFilesList, sortedFilesList.Keys, key)
        decreases todo
      {
        var g := Largest(todo);
        var name := sortedFilesList[g];
        if name !in disk {
          return Fails(IOError);
        }
        var result := BinarySearchInFile(disk[name], key);
        match result {
          case Diverges => return Loops;
          case Found(v) => return Returns(if v == Tombstone then None else Some(v));
          case NotFound =>
        }
        todo := todo - {g};
      }
      return Returns(None);
    }

    /** getBatch: every segment's entries in [lo, hi], the newest segment's value winning per key. */
    method GetBatch(lo: string, hi: string) returns (r: Outcome<map<string, string>>)
      ensures r == SegmentsBatch(disk, sortedFilesList, sortedFilesList.Keys, lo, hi, map[])
    {
      var results := map[];
      var todo := sortedFilesList.Keys;
      while todo != {}
        invariant todo <= sortedFilesList.Keys
        invariant SegmentsBatch(disk, sortedFilesList, todo, lo, hi, results) ==
          SegmentsBatch(disk, sortedFilesList, sortedFilesList.Keys, lo, hi, map[])
        decreases todo
      {
        var g := Largest(todo);
        var name := sortedFilesList[g];
        if name !in disk {
          return Fails(IOError);
        }
        var fileResults := ReadBatchFromFile(disk[name], lo, hi);
        results := MergeInto(results, fileResults);
        todo := todo - {g};
      }
      return Returns(results);
    }
  }

  /**
    * The constructor: the counter from the directory listing (0 when the
    * directory does not exist yet, in which case it is created empty), then
    * the list is loaded; null when loading throws NumberFormatException.
    */
  method Open(directory: Option<map<string, SegmentFile>>) returns (t: SSTable?)
    ensures t == null <==> directory.Some? && HasBadName(directory.value)
    ensures t != null ==> (fresh(t) && t.Valid()
      && t.disk == (if directory.Some? then directory.value else map[])
      && Listed(t.disk, t.sortedFilesList))
  {
    var counter := NextFileCounter(if directory.Some? then Some(directory.value.Keys) else None);
    var files := if directory.Some? then directory.value else map[];
    t := new SSTable(files, counter);
    var ok := t.LoadSortedFilesList();
    if !ok {
      t := null;
    }
  }
}
