/** Which keys survive being written to a query string as they are. */
module QueryKeys {
  import opened Query
  import opened QueryText
  import opened Splitting
  import opened Text

  lemma {:induction false} SegmentsConcat(a: string, d: char, b: string)
    ensures Segments(a + [d] + b, d) == Segments(a, d) + Segments(b, d)
  {
    var s := a + [d] + b;
    if a == "" {
      assert s[1..] == b;
    } else {
      assert s[1..] == a[1..] + [d] + b;
      SegmentsConcat(a[1..], d, b);
    }
  }

  /** `tail` added to the last of `texts`. */
  function Extend(texts: seq<string>, tail: string): (r: seq<string>)
    requires texts != []
    ensures r != []
  {
    if |texts| == 1 then [texts[0] + tail] else [texts[0]] + Extend(texts[1..], tail)
  }

  lemma {:induction false} ExtendLast(texts: seq<string>, tail: string)
    requires texts != []
    ensures Extend(texts, tail) == texts[..|texts| - 1] + [texts[|texts| - 1] + tail]
  {
    if |texts| > 1 {
      ExtendLast(texts[1..], tail);
    }
  }

  /** Text without the delimiter joins the last segment before it. */
  lemma {:induction false} SegmentsExtend(s: string, d: char, tail: string)
    requires d !in tail
    ensures Segments(s + tail, d) == Extend(Segments(s, d), tail)
  {
    if s == "" {
      assert s + tail == tail;
      LastSegment(tail, d);
    } else {
      assert (s + tail)[1..] == s[1..] + tail;
      SegmentsExtend(s[1..], d, tail);
      var q := Segments(s[1..], d);
      if s[0] != d && |q| == 1 {
        assert [s[0]] + (q[0] + tail) == [s[0]] + q[0] + tail;
      }
    }
  }

  /** Only a text without the delimiter is its own segment. */
  lemma {:induction false} SegmentLengths(s: string, d: char)
    ensures forall i | 0 <= i < |Segments(s, d)| ::
              if d in s then |Segments(s, d)[i]| < |s| else Segments(s, d)[i] == s
    ensures d !in s ==> |Segments(s, d)| == 1
  {
    if s != "" {
      SegmentLengths(s[1..], d);
      assert d in s <==> s[0] == d || d in s[1..];
      assert d !in s ==> [s[0]] + s[1..] == s;
    }
  }

  lemma {:induction false} TrimLeftSuffix(s: string)
    ensures |TrimLeft(s)| < |s| || (TrimLeft(s) == s && (s != "" ==> !IsSpaceOrTab(s[0])))
  {
    if s != "" && IsSpaceOrTab(s[0]) {
      TrimLeftSuffix(s[1..]);
    }
  }

  lemma {:induction false} TrimRightPrefix(s: string)
    ensures TrimRight(s) <= s
    ensures |TrimRight(s)| < |s| || (TrimRight(s) == s && (s != "" ==> !IsSpaceOrTab(s[|s| - 1])))
  {
    if s != "" && IsSpaceOrTab(s[|s| - 1]) {
      TrimRightPrefix(s[..|s| - 1]);
    }
  }

  lemma TrimLength(s: string)
    ensures |Trim(s)| < |s| || (Trim(s) == s && Trimmed(s))
  {
    TrimLeftSuffix(s);
    TrimRightPrefix(TrimLeft(s));
  }

  /** A kept text comes from a segment. */
  lemma {:induction false} KeptFrom(segments: seq<string>, piece: string) returns (i: nat)
    requires piece in Kept(segments)
    ensures i < |segments| && Trim(segments[i]) == piece != ""
  {
    if Trim(segments[0]) == piece && piece != "" {
      i := 0;
    } else {
      i := KeptFrom(segments[1..], piece);
      i := i + 1;
    }
  }

  lemma PieceLength(s: string, d: char, piece: string)
    requires piece in Pieces(s, d)
    ensures piece != "" && (|piece| < |s| || (piece == s && d !in s && Trimmed(s)))
  {
    var i := KeptFrom(Segments(s, d), piece);
    SegmentLengths(s, d);
    TrimLength(Segments(s, d)[i]);
  }

  // ----- One `key=value` text -----

  lemma PiecesOfPair(t: string, e: string)
    requires '=' !in e && Trimmed(e)
    ensures Pieces(t + "=" + e, '=') == Pieces(t, '=') + if e == "" then [] else [e]
  {
    SegmentsConcat(t, '=', e);
    LastSegment(e, '=');
    KeptConcat(Segments(t, '='), [e]);
    TrimOfTrimmed(e);
  }

  function TotalLength(texts: seq<string>): nat {
    if texts == [] then 0 else |texts[0]| + TotalLength(texts[1..])
  }

  /** The segments and the delimiters between them make up the text. */
  lemma {:induction false} SegmentsTotal(s: string, d: char)
    ensures TotalLength(Segments(s, d)) + |Segments(s, d)| - 1 == |s|
  {
    if s != "" {
      SegmentsTotal(s[1..], d);
    }
  }

  lemma {:induction false} KeptTotal(segments: seq<string>)
    ensures TotalLength(Kept(segments)) <= TotalLength(segments) && |Kept(segments)| <= |segments|
  {
    if segments != [] {
      KeptTotal(segments[1..]);
      TrimLength(segments[0]);
      assert Trim(segments[0]) == "" ==> Kept(segments) == Kept(segments[1..]);
    }
  }

  lemma {:induction false} LastWithin(texts: seq<string>)
    requires texts != []
    ensures |texts[|texts| - 1]| <= TotalLength(texts)
  {
    if |texts| > 1 {
      LastWithin(texts[1..]);
    }
  }

  /** Two different pieces leave room for a delimiter between them. */
  lemma FirstAndLastPiece(s: string, d: char)
    requires |Pieces(s, d)| > 1
    ensures var pieces := Pieces(s, d); |pieces[0]| + |pieces[|pieces| - 1]| < |s|
  {
    SegmentsTotal(s, d);
    KeptTotal(Segments(s, d));
    LastWithin(Pieces(s, d)[1..]);
  }

  function Weight(p: Param): nat {
    |p.key| + |p.value|
  }

  /** A parameter is no longer than the text it is read from. */
  lemma ParsedWeight(kv: string, r: Param)
    requires ParsePair(kv) == [r]
    ensures Weight(r) <= |kv| && (|Pieces(kv, '=')| > 1 ==> Weight(r) < |kv|)
  {
    if |Pieces(kv, '=')| > 1 {
      FirstAndLastPiece(kv, '=');
    } else {
      PieceLength(kv, '=', Pieces(kv, '=')[0]);
    }
  }

  /** What is read from `t=e`: key and value, the value as a key, or less than `t`. */
  lemma ReadFromPair(t: string, e: string, r: Param)
    requires '=' !in e && Trimmed(e) && ParsePair(t + "=" + e) == [r]
    ensures var value := Decode(e, true);
      || (r.value == value && |r.key| < |t|)
      || (r.value == value && t != "" && Trimmed(t) && '=' !in t && r.key == Decode(t, true))
      || (r == Param(value, "") && e != "")
      || (Weight(r) < |t| && e == "")
  {
    PiecesOfPair(t, e);
    var pieces := Pieces(t, '=');
    if pieces != [] {
      PieceLength(t, '=', pieces[0]);
      if e == "" && |pieces| > 1 {
        assert ParsePair(t) == [r];
        ParsedWeight(t, r);
      }
    }
  }

  /** Only a character on its own decodes to as much as it takes. */
  lemma OneCharacter(s: string)
    requires s != "" && |DecodeFirst(s, true).text| == DecodeFirst(s, true).width
    ensures DecodeFirst(s, true) == Decoding(if s[0] == '+' then " " else s[..1], 1)
  {
  }

  /** Decoding that keeps the length only turns `+` into a blank. */
  lemma {:induction false} DecodeKeepsLength(s: string)
    requires |Decode(s, true)| == |s|
    ensures '+' !in Decode(s, true)
    ensures '+' !in s ==> Decode(s, true) == s
  {
    if s != "" {
      var d := DecodeFirst(s, true);
      assert |Decode(s, true)| == |d.text| + |Decode(s[d.width..], true)|;
      OneCharacter(s);
      DecodeKeepsLength(s[1..]);
      assert s == s[..1] + s[1..];
    }
  }

  // ----- The whole query -----

  lemma {:induction false} TrimLeftOfPair(t: string, e: string)
    ensures TrimLeft(t + "=" + e) == TrimLeft(t) + "=" + e
  {
    if t != "" && IsSpaceOrTab(t[0]) {
      assert (t + "=" + e)[1..] == t[1..] + "=" + e;
      TrimLeftOfPair(t[1..], e);
    }
  }

  lemma TrimOfPair(t: string, e: string)
    requires Trimmed(e)
    ensures Trim(t + "=" + e) == TrimLeft(t) + "=" + e
  {
    TrimLeftOfPair(t, e);
    TrimRightPrefix(TrimLeft(t) + "=" + e);
  }

  lemma {:induction false} ParsedFrom(kvs: seq<string>, p: Param) returns (i: nat)
    requires p in ParsePairs(kvs)
    ensures i < |kvs| && ParsePair(kvs[i]) == [p]
  {
    var front := kvs[..|kvs| - 1];
    if p in ParsePairs(front) {
      i := ParsedFrom(front, p);
    } else {
      i := |front|;
    }
  }

  /** A segment of joined texts is a segment of one of them. */
  lemma {:induction false} SegmentOfJoin(texts: seq<string>, d: char, segment: string) returns (i: nat)
    requires texts != [] && segment in Segments(JoinWith(texts, d), d)
    ensures i < |texts| && segment in Segments(texts[i], d)
  {
    i := 0;
    if |texts| > 1 {
      SegmentsConcat(texts[0], d, JoinWith(texts[1..], d));
      if segment !in Segments(texts[0], d) {
        i := SegmentOfJoin(texts[1..], d, segment);
        i := i + 1;
      }
    }
  }

  lemma PieceRead(kvs: seq<string>, p: Param) returns (kv: string)
    requires p in ParsePairs(Distinct(kvs))
    ensures kv in kvs && ParsePair(kv) == [p]
  {
    var i := ParsedFrom(Distinct(kvs), p);
    DistinctSpec(kvs);
    kv := Distinct(kvs)[i];
  }

  /** The segment of a query that `p` is read from. */
  lemma SegmentRead(query: string, p: Param) returns (segment: string)
    requires p in ParseQuery(query)
    ensures segment in Segments(query, '&') && ParsePair(Trim(segment)) == [p] && Trim(segment) != ""
  {
    var kv := PieceRead(Pieces(query, '&'), p);
    var k := KeptFrom(Segments(query, '&'), kv);
    segment := Segments(query, '&')[k];
  }

  /** The written parameter, and the segment of its text, that `p` is read from. */
  lemma ReadFrom(params: seq<Param>, p: Param) returns (q: Param, segment: string)
    requires IsParams(params) && p in ParseQuery(JoinWith(Pairs(params), '&'))
    ensures q in params && segment in Segments(Pair(q), '&') && ParsePair(Trim(segment)) == [p]
  {
    segment := SegmentRead(JoinWith(Pairs(params), '&'), p);
    if params == [] {
      assert false;
    } else {
      var j := SegmentOfJoin(Pairs(params), '&', segment);
      PairsAt(params);
      q := params[j];
    }
  }

  /** A segment of `key + tail` lies within `key` or ends with `tail`. */
  lemma WhichSegment(key: string, tail: string, d: char, segment: string) returns (t: string)
    requires d !in tail && segment in Segments(key + tail, d)
    ensures |segment| < |key| || (segment == t + tail && (|t| < |key| || (t == key && d !in t)))
  {
    var parts := Segments(key, d);
    SegmentsExtend(key, d, tail);
    ExtendLast(parts, tail);
    SegmentLengths(key, d);
    t := parts[|parts| - 1];
  }

  /** `p` is read from the text of `q` and weighs as much. */
  ghost predicate AsHeavy(p: Param, q: Param) {
    || ('+' in q.key && '+' !in p.key && |p.key| == |q.key| && p.value == q.value)
    || (q.key == "" && q.value != "" && p == Param(q.value, ""))
  }

  /** Read from the part of a text that holds the value. */
  lemma ReadWithValue(q: Param, t: string, p: Param)
    requires IsBytes(q.value) && (|t| < |q.key| || (t == q.key && '&' !in t))
    requires ParsePair(TrimLeft(t) + "=" + Encode(q.value)) == [p]
    ensures Weight(p) < Weight(q) || AsHeavy(p, q) || PlainKey(q.key)
  {
    var e := Encode(q.value);
    EncodedText(q.value);
    DecodeUndoesEncode(q.value, true);
    TrimLeftSuffix(t);
    ReadFromPair(TrimLeft(t), e, p);
    if Weight(p) >= Weight(q) && p.value == q.value && TrimLeft(t) == q.key && p.key == Decode(q.key, true) {
      DecodeKeepsLength(q.key);
    }
  }

  lemma PlainSegment(q: Param, segment: string)
    requires IsBytes(q.value) && PlainKey(q.key) && segment in Segments(Pair(q), '&')
    ensures ParsePair(Trim(segment)) == [q]
  {
    PairText(q);
    PairParses(q);
    LastSegment(Pair(q), '&');
    TrimOfTrimmed(Pair(q));
  }

  /** What is read from the text of a parameter is that parameter, or weighs less but for two forms. */
  lemma ReadWeighsLess(q: Param, segment: string, p: Param)
    requires IsBytes(q.value) && segment in Segments(Pair(q), '&') && ParsePair(Trim(segment)) == [p]
    ensures if PlainKey(q.key) then p == q else Weight(p) < Weight(q) || AsHeavy(p, q)
  {
    if PlainKey(q.key) {
      PlainSegment(q, segment);
    } else {
      var e := Encode(q.value);
      EncodedText(q.value);
      Assoc(q.key, "=", e);
      var t := WhichSegment(q.key, "=" + e, '&', segment);
      if |segment| < |q.key| {
        TrimLength(segment);
        ParsedWeight(Trim(segment), p);
      } else {
        Assoc(t, "=", e);
        TrimOfPair(t, e);
        ReadWithValue(q, t, p);
      }
    }
  }

  ghost predicate AllReadBack(params: seq<Param>)
    requires IsParams(params)
  {
    forall p | p in params :: p in ParseQuery(JoinWith(Pairs(params), '&'))
  }

  /** A parameter that is not plain is read back only from another that is not plain. */
  lemma Source(params: seq<Param>, p: Param) returns (q: Param)
    requires IsParams(params) && AllReadBack(params) && p in params && !PlainKey(p.key)
    ensures q in params && !PlainKey(q.key) && (Weight(p) < Weight(q) || AsHeavy(p, q))
  {
    var segment: string;
    q, segment := ReadFrom(params, p);
    ReadWeighsLess(q, segment, p);
  }

  /** And a heavier one is found behind it. */
  lemma HeavierSource(params: seq<Param>, p: Param) returns (q: Param)
    requires IsParams(params) && AllReadBack(params) && p in params && !PlainKey(p.key)
    ensures q in params && !PlainKey(q.key) && Weight(p) < Weight(q)
  {
    q := Source(params, p);
    if Weight(p) == Weight(q) {
      var r := Source(params, q);
      if Weight(q) == Weight(r) {
        q := Source(params, r);
      } else {
        q := r;
      }
    }
  }

  lemma {:induction false} NoneHeavier(params: seq<Param>, p: Param, bound: nat)
    requires IsParams(params) && AllReadBack(params) && p in params && !PlainKey(p.key)
    requires forall q | q in params :: Weight(q) <= bound
    ensures false
    decreases bound - Weight(p)
  {
    var q := HeavierSource(params, p);
    NoneHeavier(params, q, bound);
  }

  lemma {:induction false} Heaviest(params: seq<Param>) returns (bound: nat)
    ensures forall q | q in params :: Weight(q) <= bound
  {
    if params == [] {
      bound := 0;
    } else {
      bound := Heaviest(params[1..]);
      bound := bound + Weight(params[0]);
    }
  }

  /**
   * All parameters are read back from their query exactly when every key is not
   * empty, has no blank at an end and no `&` or `=`, and decodes to itself.
   */
  lemma AllSurviveIffPlain(params: seq<Param>)
    requires IsParams(params)
    ensures (forall p | p in params :: p in ParseQuery(JoinWith(Pairs(params), '&'))) <==> Plain(params)
  {
    if Plain(params) {
      QueryRoundTrip(params);
      DistinctSpec(params);
    } else if AllReadBack(params) {
      var i :| 0 <= i < |params| && !PlainKey(params[i].key);
      var bound := Heaviest(params);
      NoneHeavier(params, params[i], bound);
    }
  }

  /** The query of a single parameter. */
  lemma SurvivesIffPlain(p: Param)
    requires IsBytes(p.value)
    ensures p in ParseQuery(JoinWith(Pairs([p]), '&')) <==> PlainKey(p.key)
  {
    AllSurviveIffPlain([p]);
    assert [p][0] == p;
  }

  lemma {:induction false} ParsedInto(kvs: seq<string>, kv: string, p: Param)
    requires kv in kvs && p in ParsePair(kv)
    ensures p in ParsePairs(kvs)
  {
    var front := kvs[..|kvs| - 1];
    if kv in front {
      ParsedInto(front, kv, p);
    }
  }

  lemma {:induction false} KeptInto(segments: seq<string>, segment: string)
    requires segment in segments && segment != "" && Trimmed(segment)
    ensures segment in Kept(segments)
  {
    TrimOfTrimmed(segment);
    if segment != segments[0] {
      KeptInto(segments[1..], segment);
    }
  }

  lemma LastTextRead(before: string, kv: string, p: Param)
    requires '&' !in kv && kv != "" && Trimmed(kv) && p in ParsePair(kv)
    ensures p in ParseQuery(before + ['&'] + kv)
  {
    var query := before + ['&'] + kv;
    SegmentsConcat(before, '&', kv);
    LastSegment(kv, '&');
    KeptInto(Segments(query, '&'), kv);
    DistinctSpec(Pieces(query, '&'));
    ParsedInto(Distinct(Pieces(query, '&')), kv, p);
  }

  lemma PlusKeyRead(value: string)
    requires IsBytes(value)
    ensures var kv := Pair(Param("+", value));
            '&' !in kv && kv != "" && Trimmed(kv) && ParsePair(kv) == [Param(" ", value)]
  {
    EncodedText(value);
    DecodeUndoesEncode(value, true);
    TwoPieces("+", Encode(value));
    TwoPiecesRead(Pair(Param("+", value)), "+", Encode(value));
    assert Decode("+", true) == " ";
  }

  /** In a longer query one parameter that is not plain can be read back, from the text of another. */
  lemma ReadFromAnother(value: string)
    requires IsBytes(value)
    ensures var p, q := Param(" ", value), Param("+", value);
            !PlainKey(p.key) && p in ParseQuery(JoinWith(Pairs([p, q]), '&'))
  {
    var p, q := Param(" ", value), Param("+", value);
    PairsAt([p, q]);
    assert JoinWith(Pairs([p, q]), '&') == Pair(p) + ['&'] + Pair(q);
    PlusKeyRead(value);
    LastTextRead(Pair(p), Pair(q), p);
  }
}
