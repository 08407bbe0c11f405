/**
  * Segment files: the format flush writes (a header count, then one
  * `key,value` line per entry in ascending key order), the binary search
  * over character offsets that looks one key up, and the sequential range
  * scan. Offsets are counted from the end of the 4-byte header: the search
  * starts at the header's end and every step is a midpoint, so shifting all
  * offsets by the header's width changes none of its decisions.
  */
module Segments {
  import opened Wrappers
  import opened Order
  import opened SortedMaps
  import opened Text

  /** A segment file: the entry count in its header and the text after the header. */
  datatype SegmentFile = SegmentFile(count: int, body: string)

  /** The line flush writes for one entry, without its newline. */
  function EntryLine(e: Entry): string {
    e.key + "," + e.value
  }

  /** The text flush writes after the header: one line per entry, in the order given. */
  function Serialize(es: seq<Entry>): (r: string)
    ensures EndsWithNewline(r)
  {
    if es == [] then [] else Serialize(es[..|es| - 1]) + EntryLine(es[|es| - 1]) + "\n"
  }

  function EntryLines(es: seq<Entry>): (r: seq<string>)
    ensures |r| == |es|
    ensures forall i :: 0 <= i < |es| ==> r[i] == EntryLine(es[i])
  {
    seq(|es|, i requires 0 <= i < |es| => EntryLine(es[i]))
  }

  /** The file flush writes for the memtable map m. */
  function FlushedFile(m: map<string, string>): (f: SegmentFile)
    ensures f.count == |m|
  {
    SegmentFile(|m|, Serialize(SortedEntries(m)))
  }

  /** An entry whose line reads back as itself: no ',' in the key, no line terminator anywhere. */
  predicate PlainEntry(e: Entry) {
    ',' !in e.key && NoTerminator(e.key) && NoTerminator(e.value)
  }

  predicate PlainEntries(es: seq<Entry>) {
    forall i :: 0 <= i < |es| ==> PlainEntry(es[i])
  }

  predicate PlainMap(m: map<string, string>) {
    forall k :: k in m ==> PlainEntry(Entry(k, m[k]))
  }

  lemma PlainMapEntries(m: map<string, string>)
    requires PlainMap(m)
    ensures PlainEntries(SortedEntries(m))
  {
    var es := SortedEntries(m);
    SortedEntriesSpec(m);
    forall i | 0 <= i < |es| ensures PlainEntry(es[i]) {
      assert es[i] == Entry(es[i].key, m[es[i].key]);
    }
  }

  lemma EntryLineNoTerminator(e: Entry)
    requires PlainEntry(e)
    ensures NoTerminator(EntryLine(e))
  {
    var l := EntryLine(e);
    forall i | 0 <= i < |l| ensures !IsTerminator(l[i]) {
      if i > |e.key| {
        assert l[i] == e.value[i - |e.key| - 1];
      } else if i < |e.key| {
        assert l[i] == e.key[i];
      }
    }
  }

  /** The line of an entry splits at its first ',' into the entry's key and value. */
  lemma EntryLineSplit(e: Entry)
    requires ',' !in e.key
    ensures SplitOnce(EntryLine(e), ',') == [e.key, e.value]
  {
    assert EntryLine(e) == e.key + [','] + e.value;
    SplitOnceAt(e.key, e.value, ',');
  }

  /** Reading a flushed file line by line gives back the entries' lines in order. */
  lemma {:induction false} LinesSerialize(es: seq<Entry>)
    requires PlainEntries(es)
    ensures Lines(Serialize(es)) == EntryLines(es)
    decreases |es|
  {
    if es != [] {
      var init := es[..|es| - 1];
      var last := es[|es| - 1];
      LinesSerialize(init);
      EntryLineNoTerminator(last);
      LinesAppend(Serialize(init), EntryLine(last));
    }
  }

  // ---------------------------------------------------------------------
  // Binary search

  /** What one key lookup in one segment file comes to. */
  datatype Probe =
    | Found(value: string)
    | NotFound
      /** the search reached a line without ',' and repeats the same step forever */
    | Diverges

  /** A position at which readLine starts a whole line: the start or end of the text, or just after a terminator. */
  predicate LineStart(s: string, p: nat) {
    p <= |s| && (p == 0 || p == |s| || IsTerminator(s[p - 1]))
  }

  /** The midpoint start + (end - start) / 2 of a non-empty window. */
  function Mid(start: nat, end: nat): (mid: nat)
    requires start < end
    ensures start <= mid < end
  {
    start + (end - start) / 2
  }

  /**
    * Where the line the search probes begins: the midpoint itself when it
    * equals start, otherwise the position after the partial line at the midpoint.
    */
  function ProbePos(body: string, start: nat, end: nat): (p: nat)
    requires start < end <= |body|
    ensures p <= |body|
  {
    var mid := Mid(start, end);
    if mid > start then ReadLine(body, mid).next else mid
  }

  /**
    * The search loop from the window [start, end): probe the line at
    * ProbePos, then keep the upper part past that line when its key is
    * smaller, or the lower part up to the midpoint when it is larger or when
    * there is no line left to read.
    */
  function SearchFrom(body: string, key: string, start: nat, end: nat): Probe
    requires start <= |body| && end <= |body|
    decreases end - start
  {
    if start >= end then NotFound
    else
      var r := ReadLine(body, ProbePos(body, start, end));
      if r.line.None? then SearchFrom(body, key, start, Mid(start, end))
      else
        var parts := SplitOnce(r.line.value, ',');
        if |parts| != 2 then Diverges
        else if parts[0] == key then Found(parts[1])
        else if Less(parts[0], key) then SearchFrom(body, key, r.next, end)
        else SearchFrom(body, key, start, Mid(start, end))
  }

  /** binarySearchInFile: nothing for a header count of 0, otherwise the search over the whole text. */
  function BinarySearch(f: SegmentFile, key: string): Probe {
    if f.count == 0 then NotFound else SearchFrom(f.body, key, 0, |f.body|)
  }

  /** binarySearchInFile, the loop over [start, end) as the source runs it. */
  method BinarySearchInFile(f: SegmentFile, key: string) returns (r: Probe)
    ensures r == BinarySearch(f, key)
  {
    if f.count == 0 {
      return NotFound;
    }
    var body := f.body;
    var start: nat, end: nat := 0, |body|;
    while start < end
      invariant start <= |body| && end <= |body|
      invariant SearchFrom(body, key, start, end) == BinarySearch(f, key)
      decreases end - start
    {
      var mid := Mid(start, end);
      var pos := mid;
      if mid > start {
        pos := ReadLine(body, mid).next;
      }
      var line := ReadLine(body, pos);
      if line.line.None? {
        end := mid;
        continue;
      }
      var parts := SplitOnce(line.line.value, ',');
      if |parts| != 2 {
        return Diverges;
      }
      if parts[0] == key {
        return Found(parts[1]);
      } else if Less(parts[0], key) {
        start := line.next;
      } else {
        end := mid;
      }
    }
    return NotFound;
  }

  /** The probed line starts at a line start, and the window's part past it is a line start too. */
  lemma ProbeLineStart(body: string, start: nat, end: nat)
    requires start < end <= |body| && LineStart(body, start)
    ensures LineStart(body, ProbePos(body, start, end))
    ensures LineStart(body, ReadLine(body, ProbePos(body, start, end)).next)
  {
    NextIsLineStart(body, Mid(start, end));
    NextIsLineStart(body, ProbePos(body, start, end));
  }

  /** A position where readLine leaves the file pointer is a line start. */
  lemma NextIsLineStart(s: string, pos: nat)
    requires pos <= |s|
    ensures LineStart(s, ReadLine(s, pos).next)
  {
    if pos < |s| {
      ReadLineFacts(s, pos);
    }
  }

  /** The line read at p is `key,value` with no ',' in the key: its split at the first ',' gives key and v. */
  predicate FoundAt(body: string, p: nat, key: string, v: string)
    requires p <= |body|
  {
    var r := ReadLine(body, p);
    r.line.Some? && r.line.value == key + "," + v && SplitOnce(r.line.value, ',') == [key, v]
  }

  /** Soundness: a value the search returns is the value part of a whole line of the file whose key part is the key. */
  lemma {:induction false} SearchFromSound(body: string, key: string, start: nat, end: nat, v: string)
    requires start <= |body| && end <= |body| && LineStart(body, start)
    requires SearchFrom(body, key, start, end) == Found(v)
    ensures exists p: nat :: LineStart(body, p) && p < |body| && FoundAt(body, p, key, v)
    decreases end - start
  {
    var pos := ProbePos(body, start, end);
    ProbeLineStart(body, start, end);
    var r := ReadLine(body, pos);
    if r.line.None? {
      SearchFromSound(body, key, start, Mid(start, end), v);
    } else {
      var parts := SplitOnce(r.line.value, ',');
      if parts[0] == key {
        assert FoundAt(body, pos, key, v);
      } else if Less(parts[0], key) {
        SearchFromSound(body, key, r.next, end, v);
      } else {
        SearchFromSound(body, key, start, Mid(start, end), v);
      }
    }
  }

  /** Any value binarySearchInFile returns comes from a line `key,value` of that file. */
  lemma BinarySearchSound(f: SegmentFile, key: string, v: string)
    requires BinarySearch(f, key) == Found(v)
    ensures exists p: nat :: LineStart(f.body, p) && p < |f.body| && FoundAt(f.body, p, key, v)
  {
    SearchFromSound(f.body, key, 0, |f.body|, v);
  }

  /** Every whole line of a flushed file is the line of one of its entries. */
  lemma {:induction false} SerializeLineStarts(es: seq<Entry>, p: nat)
    requires PlainEntries(es)
    requires LineStart(Serialize(es), p) && p < |Serialize(es)|
    ensures exists i :: 0 <= i < |es| && ReadLine(Serialize(es), p).line == Some(EntryLine(es[i]))
    decreases |es|
  {
    var init := es[..|es| - 1];
    var last := es[|es| - 1];
    var s := Serialize(init);
    var l := EntryLine(last);
    EntryLineNoTerminator(last);
    assert Serialize(es) == s + l + "\n";
    assert Serialize(es) == s + (l + "\n");
    if p < |s| {
      assert LineStart(s, p) by {
        assert p == 0 || Serialize(es)[p - 1] == s[p - 1];
      }
      SerializeLineStarts(init, p);
      var i :| 0 <= i < |init| && ReadLine(s, p).line == Some(EntryLine(init[i]));
      ReadLineExtend(s, l + "\n", p);
      assert init[i] == es[i];
    } else if p == |s| {
      ReadLineAppended(s, l);
    }
  }

  /** A whole line of a flushed file splits at its first ',' into two parts. */
  lemma LineOfFlushedSplits(es: seq<Entry>, p: nat)
    requires PlainEntries(es)
    requires LineStart(Serialize(es), p) && p < |Serialize(es)|
    ensures ReadLine(Serialize(es), p).line.Some?
    ensures |SplitOnce(ReadLine(Serialize(es), p).line.value, ',')| == 2
  {
    SerializeLineStarts(es, p);
    var i :| 0 <= i < |es| && ReadLine(Serialize(es), p).line == Some(EntryLine(es[i]));
    EntryLineSplit(es[i]);
  }

  /** A line read from an arbitrary position of a flushed file and its split at ','. */
  lemma {:induction false} SearchFromFlushed(es: seq<Entry>, key: string, start: nat, end: nat)
    requires PlainEntries(es)
    requires start <= |Serialize(es)| && end <= |Serialize(es)| && LineStart(Serialize(es), start)
    ensures SearchFrom(Serialize(es), key, start, end) != Diverges
    decreases end - start
  {
    var body := Serialize(es);
    if start < end {
      var pos := ProbePos(body, start, end);
      ProbeLineStart(body, start, end);
      var r := ReadLine(body, pos);
      if r.line.None? {
        SearchFromFlushed(es, key, start, Mid(start, end));
      } else {
        LineOfFlushedSplits(es, pos);
        SearchFromFlushed(es, key, r.next, end);
        SearchFromFlushed(es, key, start, Mid(start, end));
      }
    }
  }

  /**
    * On a file flush wrote from a map with plain keys and values the search
    * never spins, and any value it finds is the value the map held for the key.
    */
  lemma BinarySearchFlushed(m: map<string, string>, key: string)
    requires PlainMap(m)
    ensures BinarySearch(FlushedFile(m), key) != Diverges
    ensures BinarySearch(FlushedFile(m), key).Found? ==>
      key in m && BinarySearch(FlushedFile(m), key).value == m[key]
  {
    var es := SortedEntries(m);
    SortedEntriesSpec(m);
    PlainMapEntries(m);
    var f := FlushedFile(m);
    if f.count != 0 {
      SearchFromFlushed(es, key, 0, |f.body|);
    }
    var r := BinarySearch(f, key);
    if r.Found? {
      BinarySearchSound(f, key, r.value);
      var p: nat :| LineStart(f.body, p) && p < |f.body| && FoundAt(f.body, p, key, r.value);
      SerializeLineStarts(es, p);
      var i :| 0 <= i < |es| && ReadLine(f.body, p).line == Some(EntryLine(es[i]));
      EntryLineSplit(es[i]);
      assert es[i] == Entry(key, r.value);
    }
  }

  // ---------------------------------------------------------------------
  // Range scan

  /**
    * readBatchFromFile's loop over the lines from the first one on: a line
    * without ',' is skipped; a line's split at its first ',' is stored when
    * its key lies in [lo, hi]; the scan stops after the first key above hi.
    */
  function ScanBatch(lines: seq<string>, lo: string, hi: string, acc: map<string, string>): (r: map<string, string>)
    ensures forall k :: k in r ==> k in acc || InRange(k, lo, hi)
    ensures forall k :: k in acc ==> k in r
    decreases |lines|
  {
    if lines == [] then acc
    else
      var parts := SplitOnce(lines[0], ',');
      if |parts| != 2 then ScanBatch(lines[1..], lo, hi, acc)
      else
        var next := if InRange(parts[0], lo, hi) then acc[parts[0] := parts[1]] else acc;
        if Less(hi, parts[0]) then next else ScanBatch(lines[1..], lo, hi, next)
  }

  /** What readBatchFromFile returns for the segment file f and the range [lo, hi]. */
  function ReadBatch(f: SegmentFile, lo: string, hi: string): (r: map<string, string>)
    ensures forall k :: k in r ==> InRange(k, lo, hi)
  {
    ScanBatch(Lines(f.body), lo, hi, map[])
  }

  /** readBatchFromFile: reads the file line by line after its header, as the source's loop does. */
  method ReadBatchFromFile(f: SegmentFile, lo: string, hi: string) returns (results: map<string, string>)
    ensures results == ReadBatch(f, lo, hi)
  {
    var body := f.body;
    results := map[];
    var pos := 0;
    while pos < |body|
      invariant pos <= |body|
      invariant ScanBatch(LinesFrom(body, pos), lo, hi, results) == ReadBatch(f, lo, hi)
      decreases |body| - pos
    {
      var r := ReadLine(body, pos);
      var line := r.line.value;
      var rest := LinesFrom(body, r.next);
      assert LinesFrom(body, pos) == [line] + rest;
      assert ([line] + rest)[1..] == rest;
      pos := r.next;
      var parts := SplitOnce(line, ',');
      if |parts| != 2 {
        continue;
      }
      var key, value := parts[0], parts[1];
      if LessEq(lo, key) && LessEq(key, hi) {
        results := results[key := value];
      }
      if Less(hi, key) {
        break;
      }
    }
  }

  /** The entries with a key in [lo, hi], in their order. */
  function FilterRange(es: seq<Entry>, lo: string, hi: string): (r: seq<Entry>)
    ensures forall e :: e in r <==> e in es && InRange(e.key, lo, hi)
    decreases |es|
  {
    if es == [] then []
    else
      var rest := FilterRange(es[1..], lo, hi);
      assert forall e :: e in es <==> e == es[0] || e in es[1..];
      if InRange(es[0].key, lo, hi) then [es[0]] + rest else rest
  }

  /** An entry the filter keeps from the tail comes after the head in an ascending sequence. */
  lemma FilterRangeFromTail(es: seq<Entry>, lo: string, hi: string, j: nat)
    requires AscendingEntries(es) && es != [] && j < |FilterRange(es[1..], lo, hi)|
    ensures Less(es[0].key, FilterRange(es[1..], lo, hi)[j].key)
  {
    var rest := FilterRange(es[1..], lo, hi);
    assert rest[j] in es[1..];
    var k :| 0 <= k < |es[1..]| && es[1..][k] == rest[j];
    assert es[k + 1] == rest[j];
  }

  lemma {:induction false} FilterRangeAscending(es: seq<Entry>, lo: string, hi: string)
    requires AscendingEntries(es)
    ensures AscendingEntries(FilterRange(es, lo, hi))
    decreases |es|
  {
    if es != [] {
      var rest := FilterRange(es[1..], lo, hi);
      FilterRangeAscending(es[1..], lo, hi);
      if InRange(es[0].key, lo, hi) {
        forall j | 0 <= j < |rest| ensures Less(es[0].key, rest[j].key) {
          FilterRangeFromTail(es, lo, hi, j);
        }
        ConsAscending(es[0], rest);
      }
    }
  }

  /** An entry whose key is below every key of an ascending sequence can go in front of it. */
  lemma ConsAscending(e: Entry, es: seq<Entry>)
    requires AscendingEntries(es)
    requires forall j :: 0 <= j < |es| ==> Less(e.key, es[j].key)
    ensures AscendingEntries([e] + es)
  {
    var r := [e] + es;
    forall i, j | 0 <= i < j < |r| ensures Less(r[i].key, r[j].key) {
      assert r[j] == es[j - 1];
      if i > 0 {
        assert r[i] == es[i - 1];
      }
    }
  }

  /** No entry of an ascending sequence whose first key is above hi lies in [lo, hi]. */
  lemma FilterRangeAbove(es: seq<Entry>, lo: string, hi: string)
    requires AscendingEntries(es) && es != [] && Less(hi, es[0].key)
    ensures FilterRange(es, lo, hi) == []
  {
    var r := FilterRange(es, lo, hi);
    if r != [] {
      assert r[0] in r;
      var k :| 0 <= k < |es| && es[k] == r[0];
      if k > 0 {
        LessTransitive(hi, es[0].key, es[k].key);
      }
      LessAsymmetric(hi, es[k].key);
      LessIrreflexive(hi);
    }
  }

  /** Scanning the lines of ascending entries stores exactly the entries in range, one after another. */
  lemma {:induction false} ScanEntries(es: seq<Entry>, lo: string, hi: string, acc: map<string, string>)
    requires AscendingEntries(es)
    requires forall i :: 0 <= i < |es| ==> ',' !in es[i].key
    ensures ScanBatch(EntryLines(es), lo, hi, acc) == PutAll(acc, FilterRange(es, lo, hi))
    decreases |es|
  {
    if es != [] {
      var e := es[0];
      var lines := EntryLines(es);
      assert lines[1..] == EntryLines(es[1..]);
      EntryLineSplit(e);
      var next := if InRange(e.key, lo, hi) then acc[e.key := e.value] else acc;
      if Less(hi, e.key) {
        FilterRangeAbove(es, lo, hi);
        if InRange(e.key, lo, hi) {
          LessAsymmetric(hi, e.key);
          LessIrreflexive(hi);
        }
      } else {
        ScanEntries(es[1..], lo, hi, next);
      }
    }
  }

  /** The entries a flushed file yields for [lo, hi] are exactly the flushed map's entries in that range. */
  lemma ReadBatchFlushed(m: map<string, string>, lo: string, hi: string)
    requires PlainMap(m)
    ensures ReadBatch(FlushedFile(m), lo, hi) == Restrict(m, lo, hi)
  {
    var es := SortedEntries(m);
    SortedEntriesSpec(m);
    PlainMapEntries(m);
    LinesSerialize(es);
    ScanEntries(es, lo, hi, map[]);
    PutAllFilterRange(m, lo, hi);
  }

  /** Putting the in-range entries of a map's iteration into an empty map gives the map's range view. */
  lemma PutAllFilterRange(m: map<string, string>, lo: string, hi: string)
    ensures PutAll(map[], FilterRange(SortedEntries(m), lo, hi)) == Restrict(m, lo, hi)
  {
    var es := SortedEntries(m);
    SortedEntriesSpec(m);
    PutAllFilterRangeOf(m, es, lo, hi);
  }

  lemma PutAllFilterRangeOf(m: map<string, string>, es: seq<Entry>, lo: string, hi: string)
    requires AscendingEntries(es)
    requires forall i :: 0 <= i < |es| ==> es[i].key in m && es[i].value == m[es[i].key]
    requires forall k :: k in m ==> HasKey(es, k)
    ensures PutAll(map[], FilterRange(es, lo, hi)) == Restrict(m, lo, hi)
  {
    var fs := FilterRange(es, lo, hi);
    FilterRangeAscending(es, lo, hi);
    AscendingIsDistinct(fs);
    var r := PutAll(map[], fs);
    var want := Restrict(m, lo, hi);
    forall k | k in want ensures k in r && r[k] == want[k] {
      PutAllLookup(map[], fs, k);
      var i :| 0 <= i < |es| && es[i].key == k;
      assert es[i] in fs;
    }
    forall k | k in r ensures k in want {
      PutAllLookup(map[], fs, k);
      var i :| 0 <= i < |fs| && fs[i].key == k;
      assert fs[i] in fs;
    }
  }

  /** The text after the header of the segment holding a=12345, b=1, c=1 and d=12345. */
  const ExampleEntries: seq<Entry> := [Entry("a", "12345"), Entry("b", "1"), Entry("c", "1"), Entry("d", "12345")]
  const ExampleBody: string := "a,12345\nb,1\nc,1\nd,12345\n"

  lemma ExampleBodyIsFlushed()
    ensures AscendingEntries(ExampleEntries) && Serialize(ExampleEntries) == ExampleBody
  {
    var es := ExampleEntries;
    var e0, e1, e2, e3 := es[0], es[1], es[2], es[3];
    SerializeSnoc([], e0);
    assert Serialize([e0]) == "a,12345\n";
    SerializeSnoc([e0], e1);
    assert [e0] + [e1] == [e0, e1];
    assert Serialize([e0, e1]) == "a,12345\nb,1\n";
    SerializeSnoc([e0, e1], e2);
    assert [e0, e1] + [e2] == [e0, e1, e2];
    assert Serialize([e0, e1, e2]) == "a,12345\nb,1\nc,1\n";
    SerializeSnoc([e0, e1, e2], e3);
    assert [e0, e1, e2] + [e3] == es;
    assert Less("a", "b") && Less("b", "c") && Less("c", "d");
    LessTransitive("a", "b", "c");
    LessTransitive("a", "c", "d");
    LessTransitive("b", "c", "d");
  }

  lemma ExampleLines()
    ensures ReadLine(ExampleBody, 6) == LineRead(Some("5"), 8)
    ensures ReadLine(ExampleBody, 8) == LineRead(Some("b,1"), 12)
    ensures ReadLine(ExampleBody, 12) == LineRead(Some("c,1"), 16)
    ensures ReadLine(ExampleBody, 16) == LineRead(Some("d,12345"), 24)
  {
    ExampleLineAt6();
    ExampleLineAt8();
    ExampleLineAt12();
    ExampleLineAt16();
  }

  lemma ExampleLineAt6()
    ensures ReadLine(ExampleBody, 6) == LineRead(Some("5"), 8)
  {
    var body := ExampleBody;
    assert LineEnd(body, 7) == 7 && LineEnd(body, 6) == 7;
    assert body[6..7] == "5";
  }

  lemma ExampleLineAt8()
    ensures ReadLine(ExampleBody, 8) == LineRead(Some("b,1"), 12)
  {
    var body := ExampleBody;
    assert LineEnd(body, 11) == 11 && LineEnd(body, 10) == 11 && LineEnd(body, 9) == 11 && LineEnd(body, 8) == 11;
    assert body[8..11] == "b,1";
  }

  lemma ExampleLineAt12()
    ensures ReadLine(ExampleBody, 12) == LineRead(Some("c,1"), 16)
  {
    var body := ExampleBody;
    assert LineEnd(body, 15) == 15 && LineEnd(body, 14) == 15 && LineEnd(body, 13) == 15 && LineEnd(body, 12) == 15;
    assert body[12..15] == "c,1";
  }

  lemma ExampleLineAt16()
    ensures ReadLine(ExampleBody, 16) == LineRead(Some("d,12345"), 24)
  {
    var body := ExampleBody;
    assert LineEnd(body, 23) == 23 && LineEnd(body, 22) == 23 && LineEnd(body, 21) == 23 && LineEnd(body, 20) == 23;
    assert LineEnd(body, 19) == 23 && LineEnd(body, 18) == 23 && LineEnd(body, 17) == 23 && LineEnd(body, 16) == 23;
    assert body[16..23] == "d,12345";
  }

  /**
    * The search is not complete: in the flushed file of the four entries
    * a=12345, b=1, c=1, d=12345 (lines at offsets 0, 8, 12 and 16 after the
    * header) the line of c starts exactly at the first midpoint 12, is
    * swallowed as the partial line there, and is cut off by end = 12 when the
    * next line's key d is larger; the second probe reads b and sets start to
    * 12, which closes the window. The key c is present and not found.
    */
  lemma SearchMissesLineAtMidpoint()
    ensures AscendingEntries(ExampleEntries)
    ensures ReadLine(Serialize(ExampleEntries), 12).line == Some(EntryLine(ExampleEntries[2]))
    ensures BinarySearch(SegmentFile(|ExampleEntries|, Serialize(ExampleEntries)), "c") == NotFound
  {
    ExampleBodyIsFlushed();
    ExampleLines();
    assert |ExampleBody| == 24;
    assert |ExampleEntries| == 4;
    assert ExampleEntries[2] == Entry("c", "1");
    assert EntryLine(Entry("c", "1")) == "c,1";
    ExampleFirstProbe();
    ExampleSecondProbe();
    assert BinarySearch(SegmentFile(4, ExampleBody), "c") == SearchFrom(ExampleBody, "c", 0, 24);
  }

  /** First probe: midpoint 12, the line after it is d,12345, larger than c, so end becomes 12. */
  lemma ExampleFirstProbe()
    ensures SearchFrom(ExampleBody, "c", 0, 24) == SearchFrom(ExampleBody, "c", 0, 12)
  {
    ExampleLines();
    assert |ExampleBody| == 24;
    assert Mid(0, 24) == 12;
    assert ProbePos(ExampleBody, 0, 24) == 16;
    assert "d,12345" == "d" + [','] + "12345";
    SplitOnceAt("d", "12345", ',');
    LessAsymmetric("c", "d");
  }

  /** Second probe: midpoint 6, the line after it is b,1, smaller than c, so start becomes 12 = end. */
  lemma ExampleSecondProbe()
    ensures SearchFrom(ExampleBody, "c", 0, 12) == NotFound
  {
    ExampleLines();
    assert Mid(0, 12) == 6;
    assert ProbePos(ExampleBody, 0, 12) == 8;
    assert "b,1" == "b" + [','] + "1";
    SplitOnceAt("b", "1", ',');
    assert Less("b", "c");
    assert SearchFrom(ExampleBody, "c", 12, 12) == NotFound;
  }

  lemma SerializeSnoc(es: seq<Entry>, e: Entry)
    ensures Serialize(es + [e]) == Serialize(es) + EntryLine(e) + "\n"
  {
    assert (es + [e])[..|es|] == es;
  }
}
