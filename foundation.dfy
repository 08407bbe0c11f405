/** Option for the source's nulls. */
module Wrappers {
  datatype Option<+T> = None | Some(value: T)
}

/** How a call of the source ends: with a value, with an exception, or never. */
module Outcomes {
  /** The exceptions the storage layer lets escape. */
  datatype Error =
    | IOError          // a file that is listed but no longer exists
    | IllegalArgument  // a range whose low key is ordered after its high key, or a malformed JSON object
    | NumberFormat     // a segment file name whose generation does not parse

  datatype Outcome<+T> =
    | Returns(value: T)
    | Fails(error: Error)
      /** the call repeats the same loop iteration forever */
    | Loops
}

/** The constants of com/andrey/Constants.java that the storage layer uses. */
module Constants {
  /** The reserved value that marks a deleted key. */
  const Tombstone: string := "TOMBSTONE"
  /** Segment file names are FilePrefix + generation + FileSuffix. */
  const FilePrefix: string := "sstable-"
  const FileSuffix: string := ".db"
  /** The memtable capacity the storage engine is built with. */
  const DefaultRecordLimit: int := 10
}

/**
  * The key order of the store, after Java's String.compareTo: the characters
  * of the two strings are compared from the left and, when one string is a
  * prefix of the other, the shorter one comes first. Dafny characters are
  * Unicode scalar values while Java compares UTF-16 code units, so the two
  * orders agree only on keys whose characters are all at most U+FFFF.
  */
module Order {

  predicate Less(a: string, b: string)
    decreases |a|
  {
    if |a| == 0 then |b| > 0
    else if |b| == 0 then false
    else if a[0] != b[0] then a[0] < b[0]
    else Less(a[1..], b[1..])
  }

  predicate LessEq(a: string, b: string) {
    a == b || Less(a, b)
  }

  /** compareTo(a, b) < 0 never holds together with compareTo(a, b) == 0. */
  lemma {:induction false} LessIrreflexive(a: string)
    ensures !Less(a, a)
  {
    if |a| > 0 {
      LessIrreflexive(a[1..]);
    }
  }

  lemma {:induction false} LessAsymmetric(a: string, b: string)
    requires Less(a, b)
    ensures !Less(b, a)
  {
    if |a| > 0 && |b| > 0 && a[0] == b[0] {
      LessAsymmetric(a[1..], b[1..]);
    }
  }

  lemma {:induction false} LessTransitive(a: string, b: string, c: string)
    requires Less(a, b) && Less(b, c)
    ensures Less(a, c)
  {
    if |a| > 0 && |b| > 0 && |c| > 0 && a[0] == b[0] && b[0] == c[0] {
      LessTransitive(a[1..], b[1..], c[1..]);
    }
  }

  /** Any two distinct strings are ordered one way or the other. */
  lemma {:induction false} LessTotal(a: string, b: string)
    ensures a == b || Less(a, b) || Less(b, a)
  {
    if |a| > 0 && |b| > 0 && a[0] == b[0] {
      LessTotal(a[1..], b[1..]);
      if a[1..] == b[1..] {
        assert a == [a[0]] + a[1..] && b == [b[0]] + b[1..];
      }
    }
  }

  /** A string is ordered before every proper extension of it. */
  lemma {:induction false} PrefixLess(a: string, b: string)
    requires |b| > 0
    ensures Less(a, a + b)
  {
    if |a| > 0 {
      assert (a + b)[1..] == a[1..] + b;
      PrefixLess(a[1..], b);
    }
  }

  lemma LessEqTransitive(a: string, b: string, c: string)
    requires LessEq(a, b) && LessEq(b, c)
    ensures LessEq(a, c)
  {
    if a != b && b != c {
      LessTransitive(a, b, c);
    }
  }

  /** The inclusive key range [lo, hi] used by every range scan. */
  predicate InRange(k: string, lo: string, hi: string) {
    LessEq(lo, k) && LessEq(k, hi)
  }

  predicate StrictlyAscending(s: seq<string>) {
    forall i, j :: 0 <= i < j < |s| ==> Less(s[i], s[j])
  }

  /** The smaller of x and the least element of the rest is the least element of the whole. */
  lemma SmallestOfRest(ks: set<string>, x: string, m: string)
    requires x in ks && m in ks - {x}
    requires forall k :: k in ks - {x} ==> LessEq(m, k)
    ensures exists least :: least in ks && forall k :: k in ks ==> LessEq(least, k)
  {
    LessTotal(m, x);
    var least := if Less(x, m) then x else m;
    forall k | k in ks ensures LessEq(least, k) {
      if k != x {
        assert k in ks - {x};
        if least == x {
          LessEqTransitive(x, m, k);
        }
      }
    }
    assert least in ks;
  }

  lemma {:induction false} SmallestExists(ks: set<string>)
    requires ks != {}
    ensures exists m :: m in ks && forall k :: k in ks ==> LessEq(m, k)
    decreases |ks|
  {
    var x :| x in ks;
    var rest := ks - {x};
    if rest == {} {
      forall k | k in ks ensures LessEq(x, k) {
        assert k == x || k in rest;
      }
    } else {
      assert |rest| < |ks|;
      SmallestExists(rest);
      var m :| m in rest && forall k :: k in rest ==> LessEq(m, k);
      SmallestOfRest(ks, x, m);
    }
  }

  /** The first key of a non-empty key set in iteration order. */
  function Smallest(ks: set<string>): (m: string)
    requires ks != {}
    ensures m in ks && forall k :: k in ks ==> LessEq(m, k)
  {
    SmallestExists(ks);
    forall a, b | LessEq(a, b) && LessEq(b, a) ensures a == b {
      if a != b { LessAsymmetric(a, b); }
    }
    var m :| m in ks && forall k :: k in ks ==> LessEq(m, k);
    m
  }

  /** The iteration order of a sorted map's key set (see AscendingSpec). */
  function Ascending(ks: set<string>): (r: seq<string>)
    ensures |r| == |ks|
    decreases |ks|
  {
    if ks == {} then []
    else
      var m := Smallest(ks);
      [m] + Ascending(ks - {m})
  }

  /** The iteration is strictly ascending and holds exactly the keys of the set. */
  lemma {:induction false} AscendingSpec(ks: set<string>)
    ensures StrictlyAscending(Ascending(ks))
    ensures forall k :: k in Ascending(ks) <==> k in ks
    decreases |ks|
  {
    if ks != {} {
      var m := Smallest(ks);
      var rest := Ascending(ks - {m});
      AscendingSpec(ks - {m});
      var r := Ascending(ks);
      assert r == [m] + rest;
      forall i, j | 0 <= i < j < |r| ensures Less(r[i], r[j]) {
        if i == 0 {
          assert r[j] == rest[j - 1] && r[j] in ks - {m};
          LessTotal(m, r[j]);
          if Less(r[j], m) {
            LessAsymmetric(r[j], m);
          }
        } else {
          assert r[i] == rest[i - 1] && r[j] == rest[j - 1];
        }
      }
      forall k ensures k in r <==> k in ks {
        assert k in r <==> k == m || k in rest;
      }
    }
  }
}

/** Segment generations, which the directory visits from the newest to the oldest. */
module Generations {
  /** A set of generations other than the empty one has a member. */
  lemma HasMember(gens: set<int>)
    ensures gens != {} ==> exists g :: g in gens
  {
    assert (forall g :: g !in gens) ==> gens == {};
  }

  lemma {:induction false} LargestExists(gens: set<int>, x: int)
    requires x in gens
    ensures exists g :: g in gens && forall h :: h in gens ==> h <= g
    decreases |gens|
  {
    var rest := gens - {x};
    if rest == {} {
      forall h | h in gens ensures h <= x {
        assert h == x || h in rest;
      }
    } else {
      HasMember(rest);
      var y :| y in rest;
      assert |rest| < |gens|;
      LargestExists(rest, y);
      var g :| g in rest && forall h :: h in rest ==> h <= g;
      var top := if g < x then x else g;
      forall h | h in gens ensures h <= top {
        if h != x { assert h in rest; }
      }
      assert top in gens;
    }
  }

  /** The largest of a non-empty set of generations: the first one a descending iteration yields. */
  function Largest(gens: set<int>): (g: int)
    requires gens != {}
    ensures g in gens && forall h :: h in gens ==> h <= g
  {
    HasMember(gens);
    var x :| x in gens;
    LargestExists(gens, x);
    var g :| g in gens && forall h :: h in gens ==> h <= g;
    g
  }
}
