/** Cutting a text at a delimiter into trimmed, non-empty pieces. */
module Splitting {
  import opened Text

  /** The parts of `s` between the occurrences of `d`. */
  function Segments(s: string, d: char): (r: seq<string>)
    ensures r != []
  {
    if s == "" then [""]
    else if s[0] == d then [""] + Segments(s[1..], d)
    else var r := Segments(s[1..], d); [[s[0]] + r[0]] + r[1..]
  }

  /** The trimmed texts of `segments` that are not empty. */
  function Kept(segments: seq<string>): seq<string> {
    if segments == [] then []
    else (if Trim(segments[0]) == "" then [] else [Trim(segments[0])]) + Kept(segments[1..])
  }

  function Pieces(s: string, d: char): seq<string> {
    Kept(Segments(s, d))
  }

  lemma {:induction false} SegmentEnds(segment: string, d: char, rest: string)
    requires d !in segment
    ensures Segments(segment + [d] + rest, d) == [segment] + Segments(rest, d)
  {
    var s := segment + [d] + rest;
    if segment == "" {
      assert s[1..] == rest;
    } else {
      assert s[1..] == segment[1..] + [d] + rest;
      SegmentEnds(segment[1..], d, rest);
      assert [segment[0]] + segment[1..] == segment;
    }
  }

  lemma {:induction false} LastSegment(segment: string, d: char)
    requires d !in segment
    ensures Segments(segment, d) == [segment]
  {
    if segment != "" {
      LastSegment(segment[1..], d);
      assert [segment[0]] + segment[1..] == segment;
    }
  }

  lemma {:induction false} KeptConcat(a: seq<string>, b: seq<string>)
    ensures Kept(a + b) == Kept(a) + Kept(b)
  {
    if a == [] {
      assert a + b == b;
    } else {
      assert (a + b)[1..] == a[1..] + b;
      KeptConcat(a[1..], b);
    }
  }

  lemma {:induction false} KeptAll(texts: seq<string>)
    requires forall i | 0 <= i < |texts| :: texts[i] != "" && Trimmed(texts[i])
    ensures Kept(texts) == texts
  {
    if texts != [] {
      TrimOfTrimmed(texts[0]);
      KeptAll(texts[1..]);
    }
  }

  lemma TrimOfTrimmed(s: string)
    requires Trimmed(s)
    ensures Trim(s) == s
  {
  }

  // ----- Trimming -----

  predicate Blank(s: string) {
    forall i | 0 <= i < |s| :: IsSpaceOrTab(s[i])
  }

  /** Where `trim` leaves the ends `left` and `right`. */
  ghost predicate Bounds(s: string, left: nat, right: nat, l: nat, r: nat) {
    && left <= l <= |s| && (forall k | left <= k < l :: IsSpaceOrTab(s[k])) && (l < |s| ==> !IsSpaceOrTab(s[l]))
    && r <= right <= |s| && (forall k | r <= k < right :: IsSpaceOrTab(s[k])) && (r > 0 ==> !IsSpaceOrTab(s[r - 1]))
  }

  lemma {:induction false} TrimLeftDrops(blanks: string, s: string)
    requires Blank(blanks) && (s != "" ==> !IsSpaceOrTab(s[0]))
    ensures TrimLeft(blanks + s) == s
  {
    if blanks == "" {
      assert blanks + s == s;
    } else {
      assert (blanks + s)[1..] == blanks[1..] + s;
      TrimLeftDrops(blanks[1..], s);
    }
  }

  lemma {:induction false} TrimRightDrops(s: string, blanks: string)
    requires Blank(blanks) && (s != "" ==> !IsSpaceOrTab(s[|s| - 1]))
    ensures TrimRight(s + blanks) == s
  {
    if blanks == "" {
      assert s + blanks == s;
    } else {
      var front := blanks[..|blanks| - 1];
      assert (s + blanks)[..|s + blanks| - 1] == s + front;
      TrimRightDrops(s, front);
    }
  }

  lemma TrimBetween(before: string, s: string, after: string)
    requires Blank(before) && Blank(after) && s != "" && Trimmed(s)
    ensures Trim(before + s + after) == s
  {
    assert before + s + after == before + (s + after);
    TrimLeftDrops(before, s + after);
    TrimRightDrops(s, after);
  }

  lemma TrimNothing(s: string)
    requires Blank(s)
    ensures Trim(s) == ""
  {
    assert s + "" == s;
    TrimLeftDrops(s, "");
  }

  /**
   * `trim`: both ends move inwards over blanks. The left end stops only at the
   * end of the whole text and the right end only at its start.
   */
  method TrimBounds(s: string, left: nat, right: nat) returns (l: nat, r: nat)
    requires left <= |s| && right <= |s|
    ensures Bounds(s, left, right, l, r)
  {
    l, r := left, right;
    while l < |s| && IsSpaceOrTab(s[l])
      invariant left <= l <= |s| && forall k | left <= k < l :: IsSpaceOrTab(s[k])
    {
      l := l + 1;
    }
    while r > 0 && IsSpaceOrTab(s[r - 1])
      invariant r <= right && forall k | r <= k < right :: IsSpaceOrTab(s[k])
    {
      r := r - 1;
    }
  }

  /** Between two delimiters that are not blank, the ends found are those of the segment. */
  lemma BoundsMeetSegment(s: string, beg: nat, end: nat, l: nat, r: nat)
    requires beg <= end <= |s|
    requires beg > 0 ==> !IsSpaceOrTab(s[beg - 1])
    requires end < |s| ==> !IsSpaceOrTab(s[end])
    requires Bounds(s, beg, end, l, r)
    ensures beg <= r && l <= end
    ensures if l < r then Trim(s[beg..end]) == s[l..r] else Trim(s[beg..end]) == ""
  {
    if l < r {
      assert s[beg..end] == s[beg..l] + s[l..r] + s[r..end];
      TrimBetween(s[beg..l], s[l..r], s[r..end]);
    } else {
      TrimNothing(s[beg..end]);
    }
  }

  /** The text before `beg` has been cut into `segments`, of which `pieces` were handed over. */
  ghost predicate Cut(s: string, d: char, beg: nat, segments: seq<string>, pieces: seq<string>) {
    && beg <= |s| && (beg > 0 ==> s[beg - 1] == d)
    && Segments(s, d) == segments + Segments(s[beg..], d)
    && (!IsSpaceOrTab(d) ==> pieces == Kept(segments))
  }

  /** The pieces handed to the callback, in order. */
  method Split(s: string, d: char) returns (pieces: seq<string>)
    ensures !IsSpaceOrTab(d) ==> pieces == Pieces(s, d)
  {
    pieces := [];
    var i, beg := 0, 0;
    ghost var segments: seq<string> := [];
    assert s[0..] == s;
    while i < |s|
      invariant beg <= i <= |s| && d !in s[beg..i]
      invariant Cut(s, d, beg, segments, pieces)
    {
      if s[i] == d {
        ghost var before := pieces;
        var l, r := TrimBounds(s, beg, i);
        if l < r {
          pieces := pieces + [s[l..r]];
        }
        NextPiece(s, d, beg, i, segments, before, l, r);
        segments := segments + [s[beg..i]];
        beg := i + 1;
      }
      i := i + 1;
    }
    ghost var before := pieces;
    if i > 0 {
      var l, r := TrimBounds(s, beg, i);
      if l < r {
        pieces := pieces + [s[l..r]];
      }
      FinalPiece(s, d, beg, segments, before, l, r);
    } else {
      NoPieces(d, segments, pieces);
    }
  }

  function Found(s: string, l: nat, r: nat): seq<string>
    requires r <= |s|
  {
    if l < r then [s[l..r]] else []
  }

  lemma NextPiece(s: string, d: char, beg: nat, i: nat, segments: seq<string>, pieces: seq<string>, l: nat, r: nat)
    requires beg <= i < |s| && s[i] == d && d !in s[beg..i]
    requires Cut(s, d, beg, segments, pieces) && Bounds(s, beg, i, l, r)
    ensures Cut(s, d, i + 1, segments + [s[beg..i]], pieces + Found(s, l, r))
  {
    NextSegment(s, d, beg, i);
    Regroup(segments, s[beg..i], Segments(s[i + 1..], d));
    if !IsSpaceOrTab(d) {
      KeptConcat(segments, [s[beg..i]]);
      FoundIsKept(s, beg, i, l, r);
    }
  }

  lemma Regroup(a: seq<string>, b: string, c: seq<string>)
    ensures a + ([b] + c) == a + [b] + c
  {
  }

  lemma FoundIsKept(s: string, beg: nat, end: nat, l: nat, r: nat)
    requires beg <= end <= |s| && Bounds(s, beg, end, l, r)
    requires beg > 0 ==> !IsSpaceOrTab(s[beg - 1])
    requires end < |s| ==> !IsSpaceOrTab(s[end])
    ensures Kept([s[beg..end]]) == Found(s, l, r)
  {
    BoundsMeetSegment(s, beg, end, l, r);
    KeptOne(s[beg..end]);
  }

  lemma KeptOne(segment: string)
    ensures Kept([segment]) == if Trim(segment) == "" then [] else [Trim(segment)]
  {
  }

  lemma NextSegment(s: string, d: char, beg: nat, i: nat)
    requires beg <= i < |s| && s[i] == d && d !in s[beg..i]
    ensures Segments(s[beg..], d) == [s[beg..i]] + Segments(s[i + 1..], d)
  {
    assert s[beg..] == s[beg..i] + [d] + s[i + 1..];
    SegmentEnds(s[beg..i], d, s[i + 1..]);
  }

  lemma FinalPiece(s: string, d: char, beg: nat, segments: seq<string>, pieces: seq<string>, l: nat, r: nat)
    requires beg <= |s| && d !in s[beg..|s|]
    requires Cut(s, d, beg, segments, pieces) && Bounds(s, beg, |s|, l, r)
    ensures !IsSpaceOrTab(d) ==> Pieces(s, d) == pieces + Found(s, l, r)
  {
    assert s[beg..|s|] == s[beg..];
    LastSegment(s[beg..], d);
    KeptConcat(segments, [s[beg..]]);
    if !IsSpaceOrTab(d) {
      FoundIsKept(s, beg, |s|, l, r);
    }
  }

  lemma NoPieces(d: char, segments: seq<string>, pieces: seq<string>)
    requires Cut("", d, 0, segments, pieces)
    ensures !IsSpaceOrTab(d) ==> pieces == Pieces("", d)
  {
    assert ""[0..] == "";
    KeptConcat(segments, [""]);
    KeptOne("");
  }

  // ----- What the pieces are -----

  /** `texts` with `d` between them. */
  function JoinWith(texts: seq<string>, d: char): string {
    if texts == [] then "" else if |texts| == 1 then texts[0] else texts[0] + [d] + JoinWith(texts[1..], d)
  }

  /** Segments are the one way to write `s` as texts without `d` joined by `d`. */
  lemma {:induction false} SegmentsJoin(s: string, d: char)
    ensures JoinWith(Segments(s, d), d) == s
    ensures forall i | 0 <= i < |Segments(s, d)| :: d !in Segments(s, d)[i]
  {
    if s != "" {
      var r := Segments(s[1..], d);
      SegmentsJoin(s[1..], d);
      assert s == [s[0]] + s[1..];
      if s[0] == d {
        JoinCons("", r, d);
      } else {
        JoinLonger(s[0], r, d);
      }
    }
  }

  lemma JoinCons(first: string, rest: seq<string>, d: char)
    requires rest != []
    ensures JoinWith([first] + rest, d) == first + [d] + JoinWith(rest, d)
  {
    assert ([first] + rest)[1..] == rest;
  }

  lemma JoinLonger(c: char, texts: seq<string>, d: char)
    requires texts != []
    ensures JoinWith([[c] + texts[0]] + texts[1..], d) == [c] + JoinWith(texts, d)
  {
    if |texts| > 1 {
      JoinCons([c] + texts[0], texts[1..], d);
      assert [c] + texts[0] + [d] + JoinWith(texts[1..], d) == [c] + (texts[0] + [d] + JoinWith(texts[1..], d));
    }
  }

  lemma {:induction false} SegmentsOfJoin(texts: seq<string>, d: char)
    requires texts != [] && forall i | 0 <= i < |texts| :: d !in texts[i]
    ensures Segments(JoinWith(texts, d), d) == texts
  {
    if |texts| == 1 {
      LastSegment(texts[0], d);
    } else {
      SegmentsOfJoin(texts[1..], d);
      SegmentEnds(texts[0], d, JoinWith(texts[1..], d));
    }
  }

  lemma {:induction false} JoinMore(texts: seq<string>, t: string, d: char)
    ensures JoinWith(texts + [t], d) == if texts == [] then t else JoinWith(texts, d) + [d] + t
  {
    if texts != [] {
      var first, rest := texts[0], texts[1..];
      assert texts + [t] == [first] + (rest + [t]);
      JoinCons(first, rest + [t], d);
      JoinMore(rest, t, d);
      if rest != [] {
        JoinAssoc(first, JoinWith(rest, d), t, d);
      }
    }
  }

  lemma JoinAssoc(a: string, b: string, c: string, d: char)
    ensures a + [d] + (b + [d] + c) == a + [d] + b + [d] + c
  {
  }
}
