/**
  * The string helpers of the HTTP layer: the query-string parser, the naive
  * JSON-object parser of the batch-put handler and the JSON formatter of the
  * batch-get handler.
  */
module ApiHelpers {
  import opened Wrappers
  import opened Outcomes
  import opened Order
  import opened SortedMaps
  import opened Text

  // ---------------------------------------------------------------------
  // parseQueryParams

  /** params.put for one '&'-separated pair: kept only when split on '=' gives exactly two parts. */
  function AddQueryPair(params: map<string, string>, pair: string): map<string, string> {
    var kv := Split(pair, '=');
    if |kv| == 2 then params[kv[0] := kv[1]] else params
  }

  /** The parameters of the pairs, taken in order. */
  function QueryFold(pairs: seq<string>): map<string, string> {
    if pairs == [] then map[] else AddQueryPair(QueryFold(pairs[..|pairs| - 1]), pairs[|pairs| - 1])
  }

  /** One more pair is folded into the parameters of the pairs before it. */
  lemma QueryFoldPrefix(pairs: seq<string>, i: nat)
    requires i < |pairs|
    ensures QueryFold(pairs[..i + 1]) == AddQueryPair(QueryFold(pairs[..i]), pairs[i])
  {
    assert pairs[..i + 1][..i] == pairs[..i];
  }

  /** parseQueryParams: no parameters for a missing query, else the pairs of query.split("&"). */
  function QueryParams(query: Option<string>): map<string, string> {
    match query
    case None => map[]
    case Some(q) => QueryFold(Split(q, '&'))
  }

  method ParseQueryParams(query: Option<string>) returns (params: map<string, string>)
    ensures params == QueryParams(query)
    ensures query.None? ==> params == map[]
  {
    params := map[];
    if query.Some? {
      var pairs := Split(query.value, '&');
      var i := 0;
      while i < |pairs|
        invariant 0 <= i <= |pairs|
        invariant params == QueryFold(pairs[..i])
      {
        QueryFoldPrefix(pairs, i);
        var keyValue := Split(pairs[i], '=');
        if |keyValue| == 2 {
          params := params[keyValue[0] := keyValue[1]];
        }
        i := i + 1;
      }
      assert pairs[..|pairs|] == pairs;
    }
  }

  /** Every parameter comes from a pair that splits on '=' into exactly that key and value. */
  lemma {:induction false} QuerySound(pairs: seq<string>, k: string)
    requires k in QueryFold(pairs)
    ensures exists i :: 0 <= i < |pairs| && Split(pairs[i], '=') == [k, QueryFold(pairs)[k]]
  {
    var n := |pairs| - 1;
    var init := pairs[..n];
    var kv := Split(pairs[n], '=');
    if |kv| == 2 && kv[0] == k {
      assert Split(pairs[n], '=') == [k, QueryFold(pairs)[k]];
    } else {
      QuerySound(init, k);
      var i :| 0 <= i < |init| && Split(init[i], '=') == [k, QueryFold(init)[k]];
      assert pairs[i] == init[i];
    }
  }

  /** A later pair with the same key overwrites an earlier one: the last two-part pair for a key decides its value. */
  lemma {:induction false} QueryLastWins(pairs: seq<string>, i: nat)
    requires i < |pairs| && |Split(pairs[i], '=')| == 2
    requires forall j :: i < j < |pairs| && |Split(pairs[j], '=')| == 2 ==> Split(pairs[j], '=')[0] != Split(pairs[i], '=')[0]
    ensures Split(pairs[i], '=')[0] in QueryFold(pairs)
    ensures QueryFold(pairs)[Split(pairs[i], '=')[0]] == Split(pairs[i], '=')[1]
  {
    var n := |pairs| - 1;
    if i < n {
      var init := pairs[..n];
      assert init[i] == pairs[i];
      forall j | i < j < |init| && |Split(init[j], '=')| == 2
        ensures Split(init[j], '=')[0] != Split(init[i], '=')[0]
      {
        assert init[j] == pairs[j];
      }
      QueryLastWins(init, i);
    }
  }

  /** A pair key=value with no separator in either part and a non-empty value gives that one parameter. */
  lemma QueryPairKept(key: string, value: string)
    requires '=' !in key && '=' !in value && '&' !in key && '&' !in value && value != ""
    ensures QueryParams(Some(key + "=" + value)) == map[key := value]
  {
    var q := key + "=" + value;
    assert q == key + ['='] + value;
    assert '&' !in q;
    assert Split(q, '&') == [q];
    SplitAround(key, value, '=');
    assert [q][..0] == [];
    assert QueryFold([q]) == AddQueryPair(map[], q);
    assert AddQueryPair(map[], q) == map[key := value];
  }

  /** A pair with two '=' (a=b=c) splits into three parts and is dropped. */
  lemma QueryPairWithTwoSeparatorsDropped(params: map<string, string>, a: string, b: string, c: string)
    requires '=' !in a && '=' !in b && '=' !in c && c != ""
    ensures AddQueryPair(params, a + "=" + b + "=" + c) == params
  {
    assert a + "=" + b + "=" + c == a + ['='] + b + ['='] + c;
    SplitAroundTwice(a, b, c, '=');
  }

  /** A pair with an empty value (a=) loses its empty last part and is dropped. */
  lemma QueryPairWithEmptyValueDropped(params: map<string, string>, a: string)
    requires '=' !in a
    ensures AddQueryPair(params, a + "=") == params
  {
    assert a + "=" == a + ['='];
    SplitTrailingSeparator(a, '=');
  }

  // ---------------------------------------------------------------------
  // PutBatchHandler.parseJsonToMap

  /** trim() then replaceAll("\"", ""). */
  function Unquote(s: string): string {
    RemoveAll(Trim(s), '"')
  }

  /** result.put for one ','-separated piece: split at its first ':', unquoted; a piece without ':' is skipped. */
  function AddJsonPair(result: map<string, string>, pair: string): map<string, string> {
    var kv := SplitOnce(pair, ':');
    if |kv| != 2 then result else result[Unquote(kv[0]) := Unquote(kv[1])]
  }

  /** The entries of the pieces, taken in order. */
  function JsonFold(pairs: seq<string>): map<string, string> {
    if pairs == [] then map[] else AddJsonPair(JsonFold(pairs[..|pairs| - 1]), pairs[|pairs| - 1])
  }

  /** One more piece is folded into the entries of the pieces before it. */
  lemma JsonFoldPrefix(pairs: seq<string>, i: nat)
    requires i < |pairs|
    ensures JsonFold(pairs[..i + 1]) == AddJsonPair(JsonFold(pairs[..i]), pairs[i])
  {
    assert pairs[..i + 1][..i] == pairs[..i];
  }

  /** startsWith("{") and endsWith("}"). */
  predicate Braced(t: string) {
    |t| > 0 && t[0] == '{' && t[|t| - 1] == '}'
  }

  /**
    * parseJsonToMap: IllegalArgumentException unless the trimmed text is
    * braced; otherwise the pieces of the text between the braces split on
    * every ','.
    */
  function ParseJson(json: string): (r: Outcome<map<string, string>>)
    ensures r.Fails? <==> !Braced(Trim(json))
    ensures r.Fails? ==> r.error == IllegalArgument
    ensures !r.Loops?
  {
    var t := Trim(json);
    if !Braced(t) then Fails(IllegalArgument)
    else Returns(JsonFold(Split(t[1..|t| - 1], ',')))
  }

  method ParseJsonToMap(json: string) returns (r: Outcome<map<string, string>>)
    ensures r == ParseJson(json)
  {
    var t := Trim(json);
    if !(|t| > 0 && t[0] == '{') || !(|t| > 0 && t[|t| - 1] == '}') {
      return Fails(IllegalArgument);
    }
    t := t[1..|t| - 1];
    var pairs := Split(t, ',');
    var result := map[];
    var i := 0;
    while i < |pairs|
      invariant 0 <= i <= |pairs|
      invariant result == JsonFold(pairs[..i])
    {
      JsonFoldPrefix(pairs, i);
      var keyValue := SplitOnce(pairs[i], ':');
      if |keyValue| == 2 {
        var key := RemoveAll(Trim(keyValue[0]), '"');
        var value := RemoveAll(Trim(keyValue[1]), '"');
        result := result[key := value];
      }
      i := i + 1;
    }
    assert pairs[..|pairs|] == pairs;
    return Returns(result);
  }

  // ---------------------------------------------------------------------
  // GetBatchHandler.formatBatchResponse

  /** One entry as "key":"value", with no escaping. */
  function EntryJson(e: Entry): string {
    "\"" + e.key + "\":\"" + e.value + "\""
  }

  /** The entries as JSON members joined by ','. */
  function JoinEntries(es: seq<Entry>): string
    decreases |es|
  {
    if es == [] then ""
    else if |es| == 1 then EntryJson(es[0])
    else EntryJson(es[0]) + "," + JoinEntries(es[1..])
  }

  /** formatBatchResponse of a map iterated as the entries: '{', the members in that order, '}'. */
  function FormatEntries(es: seq<Entry>): string {
    "{" + JoinEntries(es) + "}"
  }

  /** formatBatchResponse of a sorted map: its members in ascending key order. */
  function Format(m: map<string, string>): string {
    FormatEntries(SortedEntries(m))
  }

  /** An empty result is formatted as the empty object. */
  lemma FormatEmpty()
    ensures Format(map[]) == "{}"
  {
    var es := SortedEntries(map[]);
    assert |es| == 0;
    assert JoinEntries(es) == "";
  }

  /** One more entry is appended after a ',' unless it is the first. */
  lemma {:induction false} JoinEntriesSnoc(es: seq<Entry>, e: Entry)
    ensures JoinEntries(es + [e]) == if es == [] then EntryJson(e) else JoinEntries(es) + "," + EntryJson(e)
    decreases |es|
  {
    if |es| >= 1 {
      assert (es + [e])[1..] == es[1..] + [e];
      assert (es + [e])[0] == es[0];
      JoinEntriesSnoc(es[1..], e);
    }
  }

  /** The text written after the first i members, extended by one more member. */
  lemma FormatStep(es: seq<Entry>, i: nat, s: string)
    requires i < |es| && s == "{" + JoinEntries(es[..i])
    ensures (if i == 0 then s else s + ",") + EntryJson(es[i]) == "{" + JoinEntries(es[..i + 1])
  {
    JoinEntriesSnoc(es[..i], es[i]);
    assert es[..i + 1] == es[..i] + [es[i]];
  }

  /**
    * formatBatchResponse walks the entry iteration of the results behind a
    * first-entry flag; for the sorted map that getBatch returns, es is
    * SortedEntries(results) and the text is Format(results).
    */
  method FormatBatchResponse(es: seq<Entry>) returns (s: string)
    ensures s == FormatEntries(es)
  {
    s := "{";
    var first := true;
    var i := 0;
    while i < |es|
      invariant 0 <= i <= |es|
      invariant first <==> i == 0
      invariant s == "{" + JoinEntries(es[..i])
    {
      FormatStep(es, i, s);
      if !first {
        s := s + ",";
      }
      var member := "\"" + es[i].key + "\":\"" + es[i].value + "\"";
      assert member == EntryJson(es[i]);
      s := s + member;
      first := false;
      i := i + 1;
    }
    assert es[..|es|] == es;
    s := s + "}";
  }

  // ---------------------------------------------------------------------
  // Round trip

  /** A key that survives the round trip: no ',', ':' or '"'. */
  predicate JsonSafeKey(k: string) {
    ',' !in k && ':' !in k && '"' !in k
  }

  /** A value that survives the round trip: no ',' or '"'. */
  predicate JsonSafeValue(v: string) {
    ',' !in v && '"' !in v
  }

  predicate JsonSafeEntry(e: Entry) {
    JsonSafeKey(e.key) && JsonSafeValue(e.value)
  }

  /** The members of the entries, one piece each. */
  function EntryTexts(es: seq<Entry>): (r: seq<string>)
    ensures |r| == |es|
  {
    seq(|es|, i requires 0 <= i < |es| => EntryJson(es[i]))
  }

  /** A quoted text without quotes unquotes to itself. */
  lemma UnquoteQuoted(s: string)
    requires '"' !in s
    ensures Unquote("\"" + s + "\"") == s
  {
    var q := "\"" + s + "\"";
    TrimNoop(q);
    assert q[1..] == s + ['"'];
    RemoveAllTrailing(s, '"');
  }

  /** The piece of one safe entry puts that entry. */
  lemma AddEntryJson(result: map<string, string>, e: Entry)
    requires JsonSafeEntry(e)
    ensures AddJsonPair(result, EntryJson(e)) == result[e.key := e.value]
  {
    var k := "\"" + e.key + "\"";
    var v := "\"" + e.value + "\"";
    assert EntryJson(e) == k + [':'] + v;
    SplitOnceAt(k, v, ':');
    UnquoteQuoted(e.key);
    UnquoteQuoted(e.value);
  }

  /** The pieces of entries are folded one after another. */
  lemma JsonFoldSnoc(es: seq<Entry>)
    requires es != []
    ensures JsonFold(EntryTexts(es)) == AddJsonPair(JsonFold(EntryTexts(es[..|es| - 1])), EntryJson(es[|es| - 1]))
  {
    var n := |es| - 1;
    var texts := EntryTexts(es);
    assert texts[..n] == EntryTexts(es[..n]);
  }

  /** The pieces of safe entries put the entries one after another. */
  lemma {:induction false} JsonFoldEntries(es: seq<Entry>)
    requires forall i :: 0 <= i < |es| ==> JsonSafeEntry(es[i])
    ensures JsonFold(EntryTexts(es)) == PutAll(map[], es)
    decreases |es|
  {
    if es != [] {
      var n := |es| - 1;
      var init := es[..n];
      var last := es[n];
      JsonFoldSnoc(es);
      JsonFoldEntries(init);
      AddEntryJson(JsonFold(EntryTexts(init)), last);
      PutAllSnoc(map[], init, last);
      assert init + [last] == es;
    }
  }

  /** The members of safe entries, joined, split on ',' back into one piece per entry. */
  lemma {:induction false} PiecesOfJoin(es: seq<Entry>)
    requires es != [] && forall i :: 0 <= i < |es| ==> JsonSafeEntry(es[i])
    ensures Pieces(JoinEntries(es), ',') == EntryTexts(es)
    decreases |es|
  {
    assert ',' !in EntryJson(es[0]);
    if |es| == 1 {
      PiecesNoSeparator(EntryJson(es[0]), ',');
    } else {
      PiecesOfJoin(es[1..]);
      assert JoinEntries(es) == EntryJson(es[0]) + [','] + JoinEntries(es[1..]);
      PiecesCons(EntryJson(es[0]), JoinEntries(es[1..]), ',');
      assert EntryTexts(es) == [EntryJson(es[0])] + EntryTexts(es[1..]);
    }
  }

  /** The joined members of safe entries split on ',' into one piece per entry. */
  lemma SplitOfJoin(es: seq<Entry>)
    requires es != [] && forall i :: 0 <= i < |es| ==> JsonSafeEntry(es[i])
    ensures Split(JoinEntries(es), ',') == EntryTexts(es)
  {
    var s := JoinEntries(es);
    var p := Pieces(s, ',');
    PiecesOfJoin(es);
    var last := EntryJson(es[|es| - 1]);
    assert p[|p| - 1] == last;
    assert last[0] == '"';
    if ',' in s {
      assert DropTrailingEmpty(p) == p;
    } else {
      PiecesNoSeparator(s, ',');
    }
  }

  /**
    * parseJsonToMap(formatBatchResponse(m)) == m when no key holds ',', ':'
    * or '"' and no value holds ',' or '"'.
    */
  lemma FormatParseRoundTrip(m: map<string, string>)
    requires forall k :: k in m ==> JsonSafeKey(k) && JsonSafeValue(m[k])
    ensures ParseJson(Format(m)) == Returns(m)
  {
    var es := SortedEntries(m);
    SortedEntriesSpec(m);
    var f := Format(m);
    TrimNoop(f);
    assert f[1..|f| - 1] == JoinEntries(es);
    PutAllSortedEntries(m);
    if es == [] {
      assert Split("", ',') == [""];
      assert JsonFold([""]) == map[];
    } else {
      SplitOfJoin(es);
      JsonFoldEntries(es);
    }
  }
}
