/** Query strings made from parameters, and parameters read from query strings. */
module QueryText {
  import opened Query
  import opened Splitting
  import opened Text

  /** A key and a value. The parameters are listed as a multimap visits them. */
  datatype Param = Param(key: string, value: string)

  ghost predicate IsParams(params: seq<Param>) {
    forall i | 0 <= i < |params| :: IsBytes(params[i].value)
  }

  // ----- Writing -----

  function Pair(p: Param): string
    requires IsBytes(p.value)
  {
    p.key + "=" + Encode(p.value)
  }

  function Pairs(params: seq<Param>): (r: seq<string>)
    requires IsParams(params)
    ensures |r| == |params|
  {
    if params == [] then [] else Pairs(params[..|params| - 1]) + [Pair(params[|params| - 1])]
  }

  method ParamsToQueryStr(params: seq<Param>) returns (query: string)
    requires IsParams(params)
    ensures query == JoinWith(Pairs(params), '&')
  {
    query := "";
    for i := 0 to |params|
      invariant query == JoinWith(Pairs(params[..i]), '&')
    {
      query := AppendParam(query, i, params[i]);
      assert params[..i + 1][..i] == params[..i];
      JoinMore(Pairs(params[..i]), Pair(params[i]), '&');
    }
    assert params[..|params|] == params;
  }

  /** One turn of the writing loop. */
  method AppendParam(before: string, i: nat, p: Param) returns (query: string)
    requires IsBytes(p.value)
    ensures i > 0 ==> query == before + ['&'] + Pair(p)
    ensures i == 0 && before == "" ==> query == Pair(p)
  {
    query := before;
    if i != 0 {
      query := query + "&";
    }
    ghost var start := query;
    query := query + p.key;
    query := query + "=";
    var value := EncodeQueryParam(p.value);
    query := query + value;
    assert query == start + Pair(p);
  }

  // ----- Reading -----

  /** The first occurrence of every element, in order. */
  function Distinct<T(==)>(s: seq<T>): seq<T> {
    if s == [] then []
    else var front, last := s[..|s| - 1], s[|s| - 1];
         Distinct(front) + if last in front then [] else [last]
  }

  /** `Distinct` keeps every element of `s` and keeps it once. */
  lemma {:induction false} DistinctSpec<T>(s: seq<T>)
    ensures forall x :: x in Distinct(s) <==> x in s
    ensures forall i, j | 0 <= i < j < |Distinct(s)| :: Distinct(s)[i] != Distinct(s)[j]
  {
    if s != [] {
      var front := s[..|s| - 1];
      DistinctSpec(front);
      assert s == front + [s[|s| - 1]];
    }
  }

  lemma DistinctGrows<T>(s: seq<T>, x: T)
    ensures Distinct(s + [x]) == Distinct(s) + if x in s then [] else [x]
  {
    assert (s + [x])[..|s|] == s;
  }

  /** The parameter in one `key=value` text, if it names one. */
  function ParsePair(kv: string): seq<Param> {
    var parts := Pieces(kv, '=');
    if parts == [] then []
    else
      var value := if |parts| == 1 then "" else parts[|parts| - 1];
      [Param(Decode(parts[0], true), Decode(value, true))]
  }

  function ParsePairs(kvs: seq<string>): seq<Param> {
    if kvs == [] then [] else ParsePairs(kvs[..|kvs| - 1]) + ParsePair(kvs[|kvs| - 1])
  }

  function ParseQuery(s: string): seq<Param> {
    ParsePairs(Distinct(Pieces(s, '&')))
  }

  /** The inner callback of `parse_query_text`. */
  method ReadPair(kv: string) returns (params: seq<Param>)
    ensures params == ParsePair(kv)
  {
    var key, val := "", "";
    var parts := Split(kv, '=');
    PiecesNotEmpty(kv, '=');
    for i := 0 to |parts|
      invariant key == if i == 0 then "" else parts[0]
      invariant val == if i <= 1 then "" else parts[i - 1]
    {
      if key == "" {
        key := parts[i];
      } else {
        val := parts[i];
      }
    }
    if key != "" {
      var k := DecodeUrl(key, true);
      var v := DecodeUrl(val, true);
      return [Param(k, v)];
    }
    return [];
  }

  lemma PiecesNotEmpty(s: string, d: char)
    ensures forall i | 0 <= i < |Pieces(s, d)| :: Pieces(s, d)[i] != ""
  {
    KeptNotEmpty(Segments(s, d));
  }

  lemma {:induction false} KeptNotEmpty(segments: seq<string>)
    ensures forall i | 0 <= i < |Kept(segments)| :: Kept(segments)[i] != ""
  {
    if segments != [] {
      KeptNotEmpty(segments[1..]);
    }
  }

  /** The parameters emplaced, in order; equal texts are read once. */
  method ParseQueryText(s: string) returns (params: seq<Param>)
    ensures params == ParseQuery(s)
  {
    var cache: set<string> := {};
    params := [];
    var kvs := Split(s, '&');
    for i := 0 to |kvs|
      invariant forall kv :: kv in cache <==> kv in kvs[..i]
      invariant params == ParsePairs(Distinct(kvs[..i]))
    {
      var kv := kvs[i];
      assert kvs[..i + 1] == kvs[..i] + [kv];
      TextRead(kvs[..i], kv);
      if kv !in cache {
        cache := cache + {kv};
        var read := ReadPair(kv);
        params := params + read;
      }
    }
    assert kvs[..|kvs|] == kvs;
  }

  lemma TextRead(kvs: seq<string>, kv: string)
    ensures ParsePairs(Distinct(kvs + [kv])) ==
            ParsePairs(Distinct(kvs)) + if kv in kvs then [] else ParsePair(kv)
  {
    DistinctGrows(kvs, kv);
    if kv in kvs {
      assert Distinct(kvs + [kv]) == Distinct(kvs);
    } else {
      PairsGrow(Distinct(kvs), kv);
    }
  }

  lemma PairsGrow(kvs: seq<string>, kv: string)
    ensures ParsePairs(kvs + [kv]) == ParsePairs(kvs) + ParsePair(kv)
  {
    assert (kvs + [kv])[..|kvs|] == kvs;
  }

  // ----- The round trip -----

  /** A key that can stand in a query string as it is. */
  predicate PlainKey(key: string) {
    key != "" && Trimmed(key) && '&' !in key && '=' !in key && Decode(key, true) == key
  }

  /** Keys without any of the query's own characters are plain. */
  lemma {:induction false} OrdinaryKeyDecodes(key: string)
    requires '%' !in key && '+' !in key
    ensures Decode(key, true) == key
  {
    if key != "" {
      OrdinaryKeyDecodes(key[1..]);
      assert key[..1] + key[1..] == key;
    }
  }

  lemma TwoPieces(key: string, e: string)
    requires key != "" && Trimmed(key) && '=' !in key && Trimmed(e) && '=' !in e
    ensures Pieces(key + "=" + e, '=') == [key] + if e == "" then [] else [e]
  {
    SegmentEnds(key, '=', e);
    LastSegment(e, '=');
    assert Segments(key + "=" + e, '=') == [key] + [e];
    KeptConcat([key], [e]);
    TrimOfTrimmed(key);
    TrimOfTrimmed(e);
  }

  lemma PairText(p: Param)
    requires PlainKey(p.key) && IsBytes(p.value)
    ensures Pair(p) != "" && Trimmed(Pair(p)) && '&' !in Pair(p)
  {
    EncodedText(p.value);
  }

  lemma EncodedText(value: string)
    requires IsBytes(value)
    ensures var e := Encode(value); Trimmed(e) && '=' !in e && '&' !in e
  {
    EncodeInert(value);
  }

  lemma PairParses(p: Param)
    requires PlainKey(p.key) && IsBytes(p.value)
    ensures ParsePair(Pair(p)) == [p]
  {
    EncodedText(p.value);
    DecodeUndoesEncode(p.value, true);
    TwoPieces(p.key, Encode(p.value));
    TwoPiecesRead(Pair(p), p.key, Encode(p.value));
  }

  lemma TwoPiecesRead(kv: string, key: string, e: string)
    requires Pieces(kv, '=') == [key] + if e == "" then [] else [e]
    ensures ParsePair(kv) == [Param(Decode(key, true), Decode(e, true))]
  {
  }

  lemma PairInjective(p: Param, q: Param)
    requires PlainKey(p.key) && IsBytes(p.value) && PlainKey(q.key) && IsBytes(q.value)
    requires Pair(p) == Pair(q)
    ensures p == q
  {
    PairParses(p);
    PairParses(q);
  }

  lemma {:induction false} PairsAt(params: seq<Param>)
    requires IsParams(params)
    ensures forall i | 0 <= i < |params| :: Pairs(params)[i] == Pair(params[i])
  {
    if params != [] {
      PairsAt(params[..|params| - 1]);
    }
  }

  ghost predicate Plain(params: seq<Param>) {
    IsParams(params) && forall i | 0 <= i < |params| :: PlainKey(params[i].key)
  }

  lemma PairAmong(params: seq<Param>, p: Param)
    requires Plain(params) && PlainKey(p.key) && IsBytes(p.value)
    ensures Pair(p) in Pairs(params) <==> p in params
  {
    PairsAt(params);
    if Pair(p) in Pairs(params) {
      var i :| 0 <= i < |params| && Pairs(params)[i] == Pair(p);
      PairInjective(params[i], p);
    }
    if p in params {
      var i :| 0 <= i < |params| && params[i] == p;
      assert Pairs(params)[i] == Pair(p);
    }
  }

  /** Reading the texts of parameters gives those parameters, each once. */
  lemma {:induction false} DistinctPairsParse(params: seq<Param>)
    requires Plain(params)
    ensures ParsePairs(Distinct(Pairs(params))) == Distinct(params)
  {
    if params != [] {
      var front, last := params[..|params| - 1], params[|params| - 1];
      DistinctPairsParse(front);
      TextRead(Pairs(front), Pair(last));
      PairAmong(front, last);
      PairParses(last);
    }
  }

  /** Parsing a generated query gives every distinct parameter exactly once, in order. */
  lemma QueryRoundTrip(params: seq<Param>)
    requires Plain(params)
    ensures ParseQuery(JoinWith(Pairs(params), '&')) == Distinct(params)
  {
    var kvs := Pairs(params);
    if params != [] {
      PairsAt(params);
      forall i | 0 <= i < |kvs| ensures kvs[i] != "" && Trimmed(kvs[i]) && '&' !in kvs[i] {
        PairText(params[i]);
      }
      SegmentsOfJoin(kvs, '&');
      KeptAll(kvs);
    } else {
      assert Pieces("", '&') == [];
    }
    DistinctPairsParse(params);
  }
}
