/**
  * Sorted maps (ConcurrentSkipListMap, TreeMap) as Dafny maps, with their
  * iteration order given by the key order of module Order, and the
  * successive `put` calls that build a map from an iteration.
  */
module SortedMaps {
  import opened Order

  datatype Entry = Entry(key: string, value: string)

  predicate AscendingEntries(es: seq<Entry>) {
    forall i, j :: 0 <= i < j < |es| ==> Less(es[i].key, es[j].key)
  }

  predicate DistinctKeys(es: seq<Entry>) {
    forall i, j :: 0 <= i < j < |es| ==> es[i].key != es[j].key
  }

  predicate HasKey(es: seq<Entry>, k: string) {
    exists i :: 0 <= i < |es| && es[i].key == k
  }

  lemma AscendingIsDistinct(es: seq<Entry>)
    requires AscendingEntries(es)
    ensures DistinctKeys(es)
  {
    forall i, j | 0 <= i < j < |es| ensures es[i].key != es[j].key {
      LessIrreflexive(es[i].key);
    }
  }

  /** The entrySet() iteration of a sorted map: every entry once, ascending by key (see SortedEntriesSpec). */
  function SortedEntries(m: map<string, string>): (r: seq<Entry>)
    ensures |r| == |m|
  {
    var ks := Ascending(m.Keys);
    AscendingSpec(m.Keys);
    seq(|ks|, i requires 0 <= i < |ks| => Entry(ks[i], m[ks[i]]))
  }

  /** The iteration is ascending, holds only the map's entries, and holds every key of the map. */
  lemma SortedEntriesSpec(m: map<string, string>)
    ensures AscendingEntries(SortedEntries(m))
    ensures forall i :: 0 <= i < |SortedEntries(m)| ==>
      SortedEntries(m)[i].key in m && SortedEntries(m)[i].value == m[SortedEntries(m)[i].key]
    ensures forall k :: k in m ==> HasKey(SortedEntries(m), k)
  {
    var ks := Ascending(m.Keys);
    AscendingSpec(m.Keys);
    var r := SortedEntries(m);
    forall k | k in m ensures HasKey(r, k) {
      assert k in ks;
      var i :| 0 <= i < |ks| && ks[i] == k;
      assert r[i].key == k;
    }
  }

  /** Successive map.put(key, value) calls; a later entry overwrites an earlier one. */
  function PutAll(acc: map<string, string>, es: seq<Entry>): map<string, string>
    decreases |es|
  {
    if es == [] then acc else PutAll(acc[es[0].key := es[0].value], es[1..])
  }

  /** After putting entries with distinct keys, each key holds its entry's value and other keys are untouched. */
  lemma {:induction false} PutAllLookup(acc: map<string, string>, es: seq<Entry>, k: string)
    requires DistinctKeys(es)
    ensures k in PutAll(acc, es) <==> k in acc || HasKey(es, k)
    ensures forall i :: 0 <= i < |es| && es[i].key == k ==> k in PutAll(acc, es) && PutAll(acc, es)[k] == es[i].value
    ensures !HasKey(es, k) && k in acc ==> PutAll(acc, es)[k] == acc[k]
    decreases |es|
  {
    if es != [] {
      var acc' := acc[es[0].key := es[0].value];
      PutAllLookup(acc', es[1..], k);
      if HasKey(es, k) && es[0].key != k {
        var i :| 0 <= i < |es| && es[i].key == k;
        assert es[1..][i - 1].key == k;
      }
      if HasKey(es[1..], k) {
        var i :| 0 <= i < |es[1..]| && es[1..][i].key == k;
        assert es[i + 1].key == k;
      }
    }
  }

  /** Putting one more entry after the others overwrites its key last. */
  lemma {:induction false} PutAllSnoc(acc: map<string, string>, es: seq<Entry>, e: Entry)
    ensures PutAll(acc, es + [e]) == PutAll(acc, es)[e.key := e.value]
    decreases |es|
  {
    if es != [] {
      assert (es + [e])[1..] == es[1..] + [e];
      PutAllSnoc(acc[es[0].key := es[0].value], es[1..], e);
    }
  }

  /** Putting every entry of a sorted map's iteration into an empty map rebuilds that map. */
  lemma PutAllSortedEntries(m: map<string, string>)
    ensures PutAll(map[], SortedEntries(m)) == m
  {
    var es := SortedEntries(m);
    SortedEntriesSpec(m);
    AscendingIsDistinct(es);
    var r := PutAll(map[], es);
    forall k ensures k in r <==> k in m {
      PutAllLookup(map[], es, k);
    }
    forall k | k in m ensures r[k] == m[k] {
      PutAllLookup(map[], es, k);
    }
  }

  /** The entries of m whose key lies in [lo, hi]: a subMap(lo, true, hi, true) view. */
  function Restrict(m: map<string, string>, lo: string, hi: string): (r: map<string, string>)
    ensures forall k :: k in r <==> k in m && InRange(k, lo, hi)
    ensures forall k :: k in r ==> r[k] == m[k]
  {
    map k | k in m && InRange(k, lo, hi) :: m[k]
  }
}
