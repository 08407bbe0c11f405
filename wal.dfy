/**
  * The write-ahead log: an append-only text file holding one line per
  * mutation, `PUT,key,value` or `DELETE,key`, that is replayed on start-up
  * and truncated whenever the memtable has been flushed.
  */
module WriteAheadLogs {
  import opened Wrappers
  import opened Text

  /** A recovered record: a PUT carries its value, a DELETE carries none (its value is null). */
  datatype LogEntry = PutRecord(key: string, value: string) | DeleteRecord(key: string)

  /** The line logPut writes, without its newline. */
  function PutLine(key: string, value: string): string {
    "PUT," + key + "," + value
  }

  /** The line logDelete writes, without its newline. */
  function DeleteLine(key: string): string {
    "DELETE," + key
  }

  /**
    * The record recover makes of one line: the line is split on every ','
    * (trailing empty parts dropped); a line with at least two parts is a PUT
    * record when its first part is "PUT" and it has a third part, and a
    * DELETE record when its first part is "DELETE"; every other line is skipped.
    */
  function ParseLine(line: string): (r: Option<LogEntry>)
    ensures r.Some? ==> |Split(line, ',')| >= 2 && r.value.key == Split(line, ',')[1]
    ensures r.Some? && r.value.PutRecord? ==>
      Split(line, ',')[0] == "PUT" && |Split(line, ',')| >= 3 && r.value.value == Split(line, ',')[2]
    ensures r.Some? && r.value.DeleteRecord? ==> Split(line, ',')[0] == "DELETE"
  {
    var parts := Split(line, ',');
    if |parts| >= 2 then
      if parts[0] == "PUT" && |parts| >= 3 then Some(PutRecord(parts[1], parts[2]))
      else if parts[0] == "DELETE" then Some(DeleteRecord(parts[1]))
      else None
    else None
  }

  /** The record a line makes, as a sequence of zero or one records. */
  function RecordsOf(line: string): (r: seq<LogEntry>)
    ensures |r| <= 1
  {
    match ParseLine(line)
    case Some(e) => [e]
    case None => []
  }

  /** The records of a sequence of lines, in order, skipping the lines that make none. */
  function ParseLines(lines: seq<string>): (r: seq<LogEntry>)
    ensures |r| <= |lines|
  {
    if lines == [] then [] else RecordsOf(lines[0]) + ParseLines(lines[1..])
  }

  /** What recover returns for a log whose content is the text c. */
  function Recovered(c: string): seq<LogEntry> {
    ParseLines(Lines(c))
  }

  /** A key or value that survives the log's line format: no ',' and no line terminator. */
  predicate Plain(s: string) {
    ',' !in s && NoTerminator(s)
  }

  /** A PUT line of a plain key and a non-empty plain value parses back to that PUT. */
  lemma ParsePutLine(key: string, value: string)
    requires Plain(key) && Plain(value) && value != ""
    ensures ParseLine(PutLine(key, value)) == Some(PutRecord(key, value))
  {
    SplitAroundTwice("PUT", key, value, ',');
    assert PutLine(key, value) == "PUT" + [','] + key + [','] + value;
    var parts := Split(PutLine(key, value), ',');
    assert parts[0] == "PUT" && parts[1] == key && parts[2] == value;
  }

  /** A DELETE line of a non-empty plain key parses back to that DELETE. */
  lemma ParseDeleteLine(key: string)
    requires Plain(key) && key != ""
    ensures ParseLine(DeleteLine(key)) == Some(DeleteRecord(key))
  {
    SplitAround("DELETE", key, ',');
    assert DeleteLine(key) == "DELETE" + [','] + key;
    var parts := Split(DeleteLine(key), ',');
    assert parts[0] == "DELETE" && parts[1] == key;
  }

  /** A DELETE of the empty key is written but recovers nothing: split drops the empty last part. */
  lemma {:induction false} DeleteOfEmptyKeyIsLost()
    ensures ParseLine(DeleteLine("")) == None
  {
    var s := DeleteLine("");
    assert s == "DELETE" + [','] + "";
    PiecesCons("DELETE", "", ',');
    assert s[6] == ',';
    assert Pieces(s, ',') == ["DELETE", ""];
    assert DropTrailingEmpty(["DELETE", ""]) == DropTrailingEmpty(["DELETE"]);
  }

  /**
    * A PUT value holding a ',' is recovered cut at its first ',' (only the
    * third part is kept), provided the text before that ',' is not empty.
    */
  lemma PutValueTruncated(key: string, a: string, b: string)
    requires ',' !in key && ',' !in a && a != ""
    ensures ParseLine(PutLine(key, a + "," + b)) == Some(PutRecord(key, a))
  {
    var line := PutLine(key, a + "," + b);
    var t3 := a + [','] + b;
    var t2 := key + [','] + t3;
    assert line == "PUT" + [','] + t2;
    PiecesCons("PUT", t2, ',');
    PiecesCons(key, t3, ',');
    PiecesCons(a, b, ',');
    var p := Pieces(line, ',');
    assert p == ["PUT", key, a] + Pieces(b, ',');
    DropTrailingEmptyKeeps(p, 2);
    assert line[3] == ',';
    var parts := Split(line, ',');
    assert parts[..3] == ["PUT", key, a];
    ParsePutParts(line, parts, key, a);
  }

  lemma ParsePutParts(line: string, parts: seq<string>, key: string, value: string)
    requires parts == Split(line, ',') && |parts| >= 3 && parts[..3] == ["PUT", key, value]
    ensures ParseLine(line) == Some(PutRecord(key, value))
  {
    assert parts[0] == "PUT" && parts[1] == key && parts[2] == value;
  }

  /** Fields after the key of a DELETE line are ignored. */
  lemma DeleteExtraFieldsIgnored(key: string, rest: string)
    requires ',' !in key && key != ""
    ensures ParseLine(DeleteLine(key) + "," + rest) == Some(DeleteRecord(key))
  {
    var line := DeleteLine(key) + "," + rest;
    assert line == "DELETE" + [','] + (key + [','] + rest);
    SplitStartsWith("DELETE", key, rest, ',');
    var parts := Split(line, ',');
    assert parts[0] == "DELETE" && parts[1] == key;
  }

  lemma {:induction false} ParseLinesSnoc(lines: seq<string>, line: string)
    ensures ParseLines(lines + [line]) == ParseLines(lines) + RecordsOf(line)
    decreases |lines|
  {
    if lines == [] {
      assert [] + [line] == [line];
      assert [line][1..] == [];
    } else {
      var tail := lines[1..];
      assert (lines + [line])[1..] == tail + [line];
      assert (lines + [line])[0] == lines[0];
      ParseLinesSnoc(tail, line);
      var first := RecordsOf(lines[0]);
      var middle := ParseLines(tail);
      var final := RecordsOf(line);
      assert first + (middle + final) == (first + middle) + final;
    }
  }

  /** Appending one line to a log whose last line is complete adds at most that line's record. */
  lemma RecoveredAppendLine(c: string, line: string)
    requires EndsWithNewline(c) && NoTerminator(line)
    ensures Recovered(c + line + "\n") ==
      Recovered(c) + RecordsOf(line)
  {
    LinesAppend(c, line);
    ParseLinesSnoc(Lines(c), line);
  }

  /** Appending the record logPut writes adds exactly that PUT, for a plain key and a non-empty plain value. */
  lemma RecoveredAppendPut(c: string, key: string, value: string)
    requires EndsWithNewline(c) && Plain(key) && Plain(value) && value != ""
    ensures Recovered(c + (PutLine(key, value) + "\n")) == Recovered(c) + [PutRecord(key, value)]
  {
    assert c + (PutLine(key, value) + "\n") == c + PutLine(key, value) + "\n";
    assert NoTerminator(PutLine(key, value)) by {
      var l := PutLine(key, value);
      forall i | 0 <= i < |l| ensures !IsTerminator(l[i]) {
        if i >= 5 + |key| { assert l[i] == value[i - 5 - |key|]; }
        else if i >= 4 { assert l[i] == (key + ",")[i - 4]; }
      }
    }
    RecoveredAppendLine(c, PutLine(key, value));
    ParsePutLine(key, value);
  }

  /** Appending the record logDelete writes adds exactly that DELETE, for a non-empty plain key. */
  lemma RecoveredAppendDelete(c: string, key: string)
    requires EndsWithNewline(c) && Plain(key) && key != ""
    ensures Recovered(c + (DeleteLine(key) + "\n")) == Recovered(c) + [DeleteRecord(key)]
  {
    assert c + (DeleteLine(key) + "\n") == c + DeleteLine(key) + "\n";
    assert NoTerminator(DeleteLine(key)) by {
      var l := DeleteLine(key);
      forall i | 0 <= i < |l| ensures !IsTerminator(l[i]) {
        if i >= 7 { assert l[i] == key[i - 7]; }
      }
    }
    RecoveredAppendLine(c, DeleteLine(key));
    ParseDeleteLine(key);
  }

  class WriteAheadLog {
    /** The text of the log file. */
    var content: string
    /** Whether the append-mode writer is open (gracefulClose closes it). */
    var isOpen: bool

    /** Opens the log in append mode over whatever the file already holds. */
    constructor (existing: string)
      ensures content == existing && isOpen
    {
      content := existing;
      isOpen := true;
    }

    /** Appends "PUT,key,value\n"; fails, changing nothing, when the writer is closed. */
    method LogPut(key: string, value: string) returns (ok: bool)
      modifies this
      ensures ok == old(isOpen) && isOpen == old(isOpen)
      ensures content == if ok then old(content) + (PutLine(key, value) + "\n") else old(content)
    {
      ok := isOpen;
      if ok {
        content := content + (PutLine(key, value) + "\n");
      }
    }

    /** Appends "DELETE,key\n"; fails, changing nothing, when the writer is closed. */
    method LogDelete(key: string) returns (ok: bool)
      modifies this
      ensures ok == old(isOpen) && isOpen == old(isOpen)
      ensures content == if ok then old(content) + (DeleteLine(key) + "\n") else old(content)
    {
      ok := isOpen;
      if ok {
        content := content + (DeleteLine(key) + "\n");
      }
    }

    /** Reads the log line by line and returns its records in file order; the log is not changed. */
    method Recover() returns (entries: seq<LogEntry>)
      ensures entries == Recovered(content)
    {
      entries := [];
      var pos := 0;
      while pos < |content|
        invariant pos <= |content|
        invariant entries + ParseLines(LinesFrom(content, pos)) == Recovered(content)
        decreases |content| - pos
      {
        var r := ReadLine(content, pos);
        var line := r.line.value;
        var records := RecordsOf(line);
        ghost var rest := LinesFrom(content, r.next);
        ghost var later := ParseLines(rest);
        assert LinesFrom(content, pos) == [line] + rest;
        ParseLinesCons(line, rest);
        assert entries + (records + later) == (entries + records) + later;
        entries := entries + records;
        pos := r.next;
      }
    }

    /** Closes the writer; later appends fail. */
    method GracefulClose()
      modifies this
      ensures content == old(content) && !isOpen
    {
      isOpen := false;
    }

    /** Empties the log file and reopens the writer in append mode. */
    method Cleanup()
      modifies this
      ensures content == [] && isOpen
    {
      content := [];
      isOpen := true;
    }
  }

  lemma ParseLinesCons(line: string, lines: seq<string>)
    ensures ParseLines([line] + lines) == RecordsOf(line) + ParseLines(lines)
  {
    assert ([line] + lines)[0] == line;
    assert ([line] + lines)[1..] == lines;
  }
}
