/**
  * The memtable: an ordered in-memory map from key to value (or to the
  * tombstone of a deleted key) with a counter of the distinct keys it has
  * seen since it was last cleared, and a fullness threshold.
  */
module MemTables {
  import opened Wrappers
  import opened Outcomes
  import opened Constants
  import opened Order
  import opened SortedMaps

  /**
    * What `get` answers for a key of the map m: nothing when the key is absent
    * or holds the tombstone, its value otherwise.
    */
  function Lookup(m: map<string, string>, key: string): (r: Option<string>)
    ensures r.Some? <==> key in m && m[key] != Tombstone
    ensures r.Some? ==> r.value == m[key]
  {
    if key in m && m[key] != Tombstone then Some(m[key]) else None
  }

  /** Storing the tombstone hides the key from every later lookup; other keys keep their answer. */
  lemma LookupAfterDelete(m: map<string, string>, key: string, other: string)
    ensures Lookup(m[key := Tombstone], key) == None
    ensures other != key ==> Lookup(m[key := Tombstone], other) == Lookup(m, other)
  {
  }

  /** A stored live value is what the next lookup of that key answers. */
  lemma LookupAfterPut(m: map<string, string>, key: string, value: string, other: string)
    ensures Lookup(m[key := value], key) == if value == Tombstone then None else Some(value)
    ensures other != key ==> Lookup(m[key := value], other) == Lookup(m, other)
  {
  }

  /** Adding a key that is absent grows a map by one entry; overwriting keeps its size. */
  lemma CardinalityAfterUpdate(m: map<string, string>, key: string, value: string)
    ensures |m[key := value]| == if key in m then |m| else |m| + 1
  {
    if key in m {
      assert m[key := value].Keys == m.Keys;
    } else {
      assert m[key := value].Keys == m.Keys + {key};
    }
  }

  class MemTable {
    /** The entries, ascending by key when iterated. */
    var data: map<string, string>
    /** The number of distinct keys stored since the last clear. */
    var recordCount: int
    /** The number of keys at which the memtable counts as full. */
    const recordLimit: int

    /** The counter always equals the number of stored keys. */
    predicate Valid()
      reads this
    {
      recordCount == |data|
    }

    constructor (limit: int)
      ensures Valid() && data == map[] && recordCount == 0 && recordLimit == limit
    {
      data := map[];
      recordCount := 0;
      recordLimit := limit;
    }

    /** Stores value under key; the counter grows only when the key was absent. */
    method Put(key: string, value: string)
      requires Valid()
      modifies this
      ensures Valid()
      ensures data == old(data)[key := value]
      ensures recordCount == if key in old(data) then old(recordCount) else old(recordCount) + 1
    {
      CardinalityAfterUpdate(data, key, value);
      var isNew := key !in data;
      data := data[key := value];
      if isNew {
        recordCount := recordCount + 1;
      }
    }

    /** The value under key, or None when it is absent or deleted. */
    function Get(key: string): (r: Option<string>)
      reads this
      ensures r.Some? <==> key in data && data[key] != Tombstone
      ensures r.Some? ==> r.value == data[key]
    {
      Lookup(data, key)
    }

    /** Stores the tombstone under key; the counter grows only when the key was absent. */
    method Delete(key: string)
      requires Valid()
      modifies this
      ensures Valid()
      ensures data == old(data)[key := Tombstone]
      ensures recordCount == if key in old(data) then old(recordCount) else old(recordCount) + 1
    {
      CardinalityAfterUpdate(data, key, Tombstone);
      var isNew := key !in data;
      data := data[key := Tombstone];
      if isNew {
        recordCount := recordCount + 1;
      }
    }

    /** Full exactly when the number of stored keys has reached the limit. */
    function IsFull(): (r: bool)
      requires Valid()
      reads this
      ensures r <==> |data| >= recordLimit
    {
      recordCount >= recordLimit
    }

    /** The live map itself, iterated in ascending key order. */
    function GetAll(): (r: seq<Entry>)
      reads this
      ensures AscendingEntries(r) && |r| == |data|
      ensures forall i :: 0 <= i < |r| ==> r[i].key in data && r[i].value == data[r[i].key]
      ensures forall k :: k in data ==> HasKey(r, k)
    {
      SortedEntriesSpec(data);
      SortedEntries(data)
    }

    /** Forgets every entry and resets the counter. */
    method Clear()
      modifies this
      ensures Valid() && data == map[] && recordCount == 0
    {
      data := map[];
      recordCount := 0;
    }

    /** The number of distinct keys stored. */
    function GetCurrentSize(): (r: int)
      requires Valid()
      reads this
      ensures r == |data|
    {
      recordCount
    }

    /** Empty exactly when no key is stored. */
    function IsEmpty(): (r: bool)
      requires Valid()
      reads this
      ensures r <==> data == map[]
    {
      recordCount == 0
    }

    /**
      * The inclusive range view subMap(lo, true, hi, true): the stored entries,
      * tombstones included, with lo <= key <= hi; an IllegalArgumentException
      * when lo is ordered after hi.
      */
    function GetBatch(lo: string, hi: string): (r: Outcome<map<string, string>>)
      reads this
      ensures r.Fails? <==> Less(hi, lo)
      ensures r.Fails? ==> r.error == IllegalArgument
      ensures !r.Loops?
      ensures r.Returns? ==> forall k :: k in r.value <==> k in data && LessEq(lo, k) && LessEq(k, hi)
      ensures r.Returns? ==> forall k :: k in r.value ==> r.value[k] == data[k]
    {
      if Less(hi, lo) then Fails(IllegalArgument) else Returns(Restrict(data, lo, hi))
    }
  }
}
