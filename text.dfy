/**
  * The Java library text operations the storage layer relies on:
  * String.split, String.trim, replaceAll of one character, line reading
  * (BufferedReader.readLine and RandomAccessFile.readLine agree) and
  * Long.parseLong / Long.toString of generation numbers.
  */
module Text {
  import opened Wrappers

  predicate IsTerminator(c: char) {
    c == '\n' || c == '\r'
  }

  predicate NoTerminator(s: string) {
    forall i :: 0 <= i < |s| ==> !IsTerminator(s[i])
  }

  /** A text file whose last line is complete: empty, or ending in '\n'. */
  predicate EndsWithNewline(s: string) {
    s == [] || s[|s| - 1] == '\n'
  }

  // ---------------------------------------------------------------------
  // Line reading

  /** The position of the first line terminator at or after pos, or the end of s. */
  function LineEnd(s: string, pos: nat): (e: nat)
    requires pos <= |s|
    ensures pos <= e <= |s|
    ensures e < |s| ==> IsTerminator(s[e])
    decreases |s| - pos
  {
    if pos == |s| || IsTerminator(s[pos]) then pos else LineEnd(s, pos + 1)
  }

  lemma {:induction false} LineEndNoTerminator(s: string, pos: nat)
    requires pos <= |s|
    ensures forall i :: pos <= i < LineEnd(s, pos) ==> !IsTerminator(s[i])
    decreases |s| - pos
  {
    if pos < |s| && !IsTerminator(s[pos]) {
      LineEndNoTerminator(s, pos + 1);
    }
  }

  /** The position after the terminator at e: "\r\n" counts as one terminator. */
  function AfterTerminator(s: string, e: nat): nat
    requires e <= |s|
  {
    if e == |s| then e
    else if s[e] == '\r' && e + 1 < |s| && s[e + 1] == '\n' then e + 2
    else e + 1
  }

  /** A line read and the file pointer after it (after its terminator). */
  datatype LineRead = LineRead(line: Option<string>, next: nat)

  /**
    * readLine with the file pointer at pos: null at end of file, otherwise
    * the characters up to the next '\n', '\r' or "\r\n", which is consumed.
    */
  function ReadLine(s: string, pos: nat): (r: LineRead)
    requires pos <= |s|
    ensures pos <= r.next <= |s|
    ensures r.line.None? <==> pos == |s|
    ensures r.line.None? ==> r.next == pos
    ensures r.line.Some? ==> pos < r.next
  {
    if pos == |s| then LineRead(None, pos)
    else
      var e := LineEnd(s, pos);
      LineRead(Some(s[pos..e]), AfterTerminator(s, e))
  }

  /**
    * A line read at pos is the text at pos, holds no terminator, ends at a
    * terminator or at the end of the file, and leaves the pointer just
    * after a terminator or at the end of the file.
    */
  lemma ReadLineFacts(s: string, pos: nat)
    requires pos < |s|
    ensures var r := ReadLine(s, pos);
      && r.line.Some?
      && pos + |r.line.value| <= |s|
      && s[pos..pos + |r.line.value|] == r.line.value
      && NoTerminator(r.line.value)
      && (pos + |r.line.value| < |s| ==> IsTerminator(s[pos + |r.line.value|]))
      && (r.next == |s| || IsTerminator(s[r.next - 1]))
  {
    LineEndNoTerminator(s, pos);
  }

  /** The lines of s from position pos on, read one after another. */
  function LinesFrom(s: string, pos: nat): seq<string>
    requires pos <= |s|
    decreases |s| - pos
  {
    if pos == |s| then []
    else
      var r := ReadLine(s, pos);
      [r.line.value] + LinesFrom(s, r.next)
  }

  /** The lines of a text file, read one after another from its start. */
  function Lines(s: string): seq<string> {
    LinesFrom(s, 0)
  }

  /** Text after a terminator does not change where an earlier line ends. */
  lemma {:induction false} LineEndExtend(s: string, x: string, pos: nat)
    requires pos <= |s| && LineEnd(s, pos) < |s|
    ensures LineEnd(s + x, pos) == LineEnd(s, pos)
    decreases |s| - pos
  {
    if !IsTerminator(s[pos]) {
      LineEndExtend(s, x, pos + 1);
    }
  }

  /** A line without terminators ends where its text ends. */
  lemma {:induction false} LineEndSkip(s: string, pos: nat, n: nat)
    requires pos + n <= |s|
    requires forall i :: pos <= i < pos + n ==> !IsTerminator(s[i])
    ensures LineEnd(s, pos) == LineEnd(s, pos + n)
    decreases n
  {
    if n > 0 {
      LineEndSkip(s, pos + 1, n - 1);
    }
  }

  /** A line read before the end of a file whose last line is complete is not affected by what is appended. */
  lemma ReadLineExtend(s: string, x: string, pos: nat)
    requires EndsWithNewline(s) && pos < |s|
    ensures ReadLine(s + x, pos) == ReadLine(s, pos)
  {
    var t := s + x;
    var e := LineEnd(s, pos);
    LineEndNoTerminator(s, pos);
    assert e < |s|;
    LineEndExtend(s, x, pos);
    assert t[pos..e] == s[pos..e];
    assert t[e] == s[e];
    assert s[e] == '\r' ==> e + 1 < |s| && t[e + 1] == s[e + 1];
  }

  /** The line appended after a complete last line reads back as itself. */
  lemma ReadLineAppended(s: string, line: string)
    requires NoTerminator(line)
    ensures ReadLine(s + line + "\n", |s|) == LineRead(Some(line), |s| + |line| + 1)
  {
    var t := s + line + "\n";
    LineEndSkip(t, |s|, |line|);
    assert LineEnd(t, |s| + |line|) == |s| + |line|;
    assert t[|s|..|s| + |line|] == line;
  }

  /** Reading from any position of a file whose last line is complete is not affected by what is appended. */
  lemma {:induction false} LinesFromExtend(s: string, x: string, pos: nat)
    requires EndsWithNewline(s) && pos <= |s|
    ensures LinesFrom(s + x, pos) == LinesFrom(s, pos) + LinesFrom(s + x, |s|)
    decreases |s| - pos
  {
    if pos < |s| {
      ReadLineExtend(s, x, pos);
      LinesFromExtend(s, x, ReadLine(s, pos).next);
    }
  }

  /** Appending one complete line to a file whose last line is complete adds exactly that line. */
  lemma LinesAppend(s: string, line: string)
    requires EndsWithNewline(s) && NoTerminator(line)
    ensures Lines(s + line + "\n") == Lines(s) + [line]
  {
    var t := s + line + "\n";
    assert t == s + (line + "\n");
    LinesFromExtend(s, line + "\n", 0);
    ReadLineAppended(s, line);
    assert LinesFrom(t, |t|) == [];
  }

  // ---------------------------------------------------------------------
  // String.split

  /** The pieces of s between occurrences of c: always one more piece than occurrences. */
  function Pieces(s: string, c: char): (r: seq<string>)
    ensures |r| >= 1
    decreases |s|
  {
    if s == [] then [""]
    else
      var rest := Pieces(s[1..], c);
      if s[0] == c then [""] + rest else [[s[0]] + rest[0]] + rest[1..]
  }

  function DropTrailingEmpty(p: seq<string>): seq<string>
    decreases |p|
  {
    if |p| > 0 && p[|p| - 1] == "" then DropTrailingEmpty(p[..|p| - 1]) else p
  }

  /**
    * s.split(c) for a one-character pattern: the pieces between occurrences
    * of c with trailing empty pieces removed, or [s] when c does not occur.
    */
  function Split(s: string, c: char): seq<string> {
    if c in s then DropTrailingEmpty(Pieces(s, c)) else [s]
  }

  /** s.split(c, 2): the text before the first c and the text after it, or [s]. */
  function SplitOnce(s: string, c: char): (r: seq<string>)
    ensures c !in s ==> r == [s]
    ensures c in s ==> |r| == 2 && s == r[0] + [c] + r[1] && c !in r[0]
    decreases |s|
  {
    if s == [] then [s]
    else if s[0] == c then ["", s[1..]]
    else
      var rest := SplitOnce(s[1..], c);
      if |rest| == 2 then [[s[0]] + rest[0], rest[1]] else [s]
  }

  /** Splitting at the first separator of a + [c] + b gives a and b when a holds no separator. */
  lemma {:induction false} SplitOnceAt(a: string, b: string, c: char)
    requires c !in a
    ensures SplitOnce(a + [c] + b, c) == [a, b]
    decreases |a|
  {
    var s := a + [c] + b;
    if a == [] {
      assert s[1..] == b;
    } else {
      assert s[1..] == a[1..] + [c] + b;
      SplitOnceAt(a[1..], b, c);
      assert [a[0]] + a[1..] == a;
    }
  }

  lemma {:induction false} PiecesNoSeparator(a: string, c: char)
    requires c !in a
    ensures Pieces(a, c) == [a]
    decreases |a|
  {
    if a != [] {
      PiecesNoSeparator(a[1..], c);
      assert [a[0]] + a[1..] == a;
    }
  }

  /** The piece before the first separator comes first, then the pieces of the rest. */
  lemma {:induction false} PiecesCons(a: string, b: string, c: char)
    requires c !in a
    ensures Pieces(a + [c] + b, c) == [a] + Pieces(b, c)
    decreases |a|
  {
    var s := a + [c] + b;
    if a == [] {
      assert s[1..] == b;
    } else {
      assert s[1..] == a[1..] + [c] + b;
      PiecesCons(a[1..], b, c);
      assert [a[0]] + a[1..] == a;
    }
  }

  /** Dropping trailing empty pieces keeps everything up to a non-empty piece. */
  lemma {:induction false} DropTrailingEmptyKeeps(p: seq<string>, i: nat)
    requires i < |p| && p[i] != ""
    ensures i < |DropTrailingEmpty(p)|
    ensures DropTrailingEmpty(p)[..i + 1] == p[..i + 1]
    decreases |p|
  {
    if p[|p| - 1] == "" {
      DropTrailingEmptyKeeps(p[..|p| - 1], i);
    }
  }

  /** a + [c] + b splits into a and b when neither holds c and b is not empty. */
  lemma SplitAround(a: string, b: string, c: char)
    requires c !in a && c !in b && b != ""
    ensures Split(a + [c] + b, c) == [a, b]
  {
    var s := a + [c] + b;
    PiecesCons(a, b, c);
    PiecesNoSeparator(b, c);
    assert s[|a|] == c;
  }

  /** Whatever follows, a + [c] + b + [c] + rest splits into a and b first when neither holds c and b is not empty. */
  lemma SplitStartsWith(a: string, b: string, rest: string, c: char)
    requires c !in a && c !in b && b != ""
    ensures |Split(a + [c] + (b + [c] + rest), c)| >= 2
    ensures Split(a + [c] + (b + [c] + rest), c)[0] == a && Split(a + [c] + (b + [c] + rest), c)[1] == b
  {
    var s := a + [c] + (b + [c] + rest);
    PiecesCons(a, b + [c] + rest, c);
    PiecesCons(b, rest, c);
    assert s[|a|] == c;
    DropTrailingEmptyKeepsTwo(Pieces(s, c));
  }

  /** Dropping trailing empty pieces keeps the first two when the second is not empty. */
  lemma DropTrailingEmptyKeepsTwo(p: seq<string>)
    requires |p| >= 2 && p[1] != ""
    ensures |DropTrailingEmpty(p)| >= 2
    ensures DropTrailingEmpty(p)[0] == p[0] && DropTrailingEmpty(p)[1] == p[1]
  {
    DropTrailingEmptyKeeps(p, 1);
    var q := DropTrailingEmpty(p);
    assert q[..2] == p[..2];
    assert q[0] == q[..2][0] && q[1] == q[..2][1];
  }

  /** a + [c] + b + [c] + d splits into its three parts when none holds c and d is not empty. */
  lemma SplitAroundTwice(a: string, b: string, d: string, c: char)
    requires c !in a && c !in b && c !in d && d != ""
    ensures Split(a + [c] + b + [c] + d, c) == [a, b, d]
  {
    var s := a + [c] + b + [c] + d;
    assert s == a + [c] + (b + [c] + d);
    PiecesCons(a, b + [c] + d, c);
    PiecesCons(b, d, c);
    PiecesNoSeparator(d, c);
    assert s[|a|] == c;
  }

  /** A trailing separator gives an empty last piece, which split drops: fewer than two parts remain. */
  lemma SplitTrailingSeparator(a: string, c: char)
    requires c !in a
    ensures |Split(a + [c], c)| < 2
  {
    var s := a + [c];
    assert s == a + [c] + [];
    PiecesCons(a, [], c);
    assert s[|a|] == c;
    assert Pieces(s, c) == [a, ""];
    assert DropTrailingEmpty([a, ""]) == DropTrailingEmpty([a]);
  }

  // ---------------------------------------------------------------------
  // String.trim and replaceAll of one character

  function TrimStart(s: string): string
    decreases |s|
  {
    if |s| > 0 && s[0] <= ' ' then TrimStart(s[1..]) else s
  }

  function TrimEnd(s: string): string
    decreases |s|
  {
    if |s| > 0 && s[|s| - 1] <= ' ' then TrimEnd(s[..|s| - 1]) else s
  }

  /** String.trim: drops every leading and trailing character at or below ' '. */
  function Trim(s: string): string {
    TrimEnd(TrimStart(s))
  }

  /** s.replaceAll(c, ""): s without any occurrence of c. */
  function RemoveAll(s: string, c: char): (r: string)
    ensures c !in r
    decreases |s|
  {
    if s == [] then []
    else if s[0] == c then RemoveAll(s[1..], c)
    else [s[0]] + RemoveAll(s[1..], c)
  }

  /** Removing c from s + [c] gives s back when s holds no c. */
  lemma {:induction false} RemoveAllTrailing(s: string, c: char)
    requires c !in s
    ensures RemoveAll(s + [c], c) == s
    decreases |s|
  {
    if s == [] {
      assert RemoveAll([c], c) == RemoveAll([], c);
    } else {
      assert (s + [c])[1..] == s[1..] + [c];
      RemoveAllTrailing(s[1..], c);
      assert [s[0]] + s[1..] == s;
    }
  }

  /** Trimming leaves alone a string that starts and ends with characters above ' '. */
  lemma TrimNoop(s: string)
    requires |s| > 0 && s[0] > ' ' && s[|s| - 1] > ' '
    ensures Trim(s) == s
  {
  }

  lemma {:induction false} RemoveAllAbsent(s: string, c: char)
    requires c !in s
    ensures RemoveAll(s, c) == s
    decreases |s|
  {
    if s != [] {
      RemoveAllAbsent(s[1..], c);
      assert [s[0]] + s[1..] == s;
    }
  }

  // ---------------------------------------------------------------------
  // Long.parseLong and Long.toString

  predicate IsDigit(ch: char) {
    '0' <= ch <= '9'
  }

  predicate AllDigits(s: string) {
    forall i :: 0 <= i < |s| ==> IsDigit(s[i])
  }

  function DigitsValue(s: string): nat
    requires AllDigits(s)
    decreases |s|
  {
    if s == [] then 0
    else DigitsValue(s[..|s| - 1]) * 10 + (s[|s| - 1] as int - '0' as int)
  }

  /** Long.parseLong: an optional sign and at least one decimal digit; None for NumberFormatException. */
  function ParseLong(s: string): Option<int> {
    if |s| > 0 && (s[0] == '-' || s[0] == '+') then
      if |s| > 1 && AllDigits(s[1..]) then
        var v: int := DigitsValue(s[1..]);
        Some(if s[0] == '-' then -v else v)
      else None
    else if |s| > 0 && AllDigits(s) then Some(DigitsValue(s))
    else None
  }

  function DigitChar(d: nat): char
    requires d < 10
  {
    ('0' as int + d) as char
  }

  /** Long.toString of a non-negative number: its decimal digits, no sign, no leading zero. */
  function NatToString(n: nat): (r: string)
    ensures |r| > 0 && AllDigits(r)
  {
    if n < 10 then [DigitChar(n)] else NatToString(n / 10) + [DigitChar(n % 10)]
  }

  /** Printing a non-negative number and parsing it back gives the number. */
  lemma {:induction false} ParseLongNatToString(n: nat)
    ensures ParseLong(NatToString(n)) == Some(n)
  {
    DigitsValueNatToString(n);
  }

  lemma {:induction false} DigitsValueNatToString(n: nat)
    ensures DigitsValue(NatToString(n)) == n
  {
    if n >= 10 {
      DigitsValueNatToString(n / 10);
      var s := NatToString(n);
      assert s[..|s| - 1] == NatToString(n / 10);
    } else {
      assert NatToString(n)[..0] == [];
    }
  }
}
