/** Which `Range` headers are accepted and what is read from them, for every text. */
module RangeGrammar {
  import opened Machine
  import opened Ranges
  import opened Splitting
  import opened Text

  /** One range as it is written: blanks, the digits of two bounds and a dash between them. */
  datatype Spec = Spec(gap: string, first: string, last: string)

  predicate IsSpec(s: Spec) {
    Blanks(s.gap) && AllDigits(s.first) && AllDigits(s.last)
  }

  function SpecText(s: Spec): string {
    s.gap + (s.first + "-" + s.last)
  }

  function SpecTexts(specs: seq<Spec>): (r: seq<string>)
    ensures |r| == |specs| && forall i | 0 <= i < |r| :: r[i] == SpecText(specs[i])
  {
    seq(|specs|, i requires 0 <= i < |specs| => SpecText(specs[i]))
  }

  /** At least one range, the first without blanks in front, with commas between. */
  ghost predicate IsList(specs: seq<Spec>) {
    specs != [] && specs[0].gap == "" && forall i | 0 <= i < |specs| :: IsSpec(specs[i])
  }

  function HeaderText(specs: seq<Spec>): string {
    "bytes=" + JoinWith(SpecTexts(specs), ',')
  }

  lemma {:induction false} SkipBlanks(gap: string, s: string)
    requires Blanks(gap) && s != "" && !IsSpace(s[0])
    ensures SkipSpaces(gap + s) == s
    ensures SkipSpaces(TrimLeft(gap + s)) == s
    ensures TrimLeft(gap + s) != "" && |TrimLeft(gap + s)| >= |s|
    ensures var t := TrimLeft(gap + s); t[|t| - 1] == s[|s| - 1]
  {
    if gap == "" {
      assert gap + s == s;
    } else {
      assert (gap + s)[1..] == gap[1..] + s;
      SkipBlanks(gap[1..], s);
    }
  }

  lemma SpecRead(s: Spec)
    requires IsSpec(s)
    ensures ',' !in SpecText(s) && SkipSpaces(SpecText(s)) == s.first + "-" + s.last
    ensures Trim(SpecText(s)) != "" && SkipSpaces(Trim(SpecText(s))) == s.first + "-" + s.last
    ensures IsRangeText(s.first + "-" + s.last)
  {
    var t := s.first + "-" + s.last;
    assert forall i | 0 <= i < |t| :: IsDigit(t[i]) || t[i] == '-';
    SkipBlanks(s.gap, t);
    hide SkipSpaces, TrimLeft;
    BoundsApart(s.first, s.last);
  }

  lemma Bounds(t: string) returns (first: string, last: string)
    requires IsRangeText(t)
    ensures AllDigits(first) && AllDigits(last) && t == first + "-" + last && !IsSpace(t[0])
  {
    var d := |DigitRun(t)|;
    first, last := t[..d], t[d + 1..];
  }

  /** The text of a range is that of its parts. */
  lemma SpecOf(s: string) returns (spec: Spec)
    requires IsRangeText(SkipSpaces(s))
    ensures IsSpec(spec) && SpecText(spec) == s
    ensures IsRangeText(s) ==> spec.gap == ""
  {
    hide IsRangeText, AllDigits;
    var gap := SpaceSplit(s);
    var first, last := Bounds(SkipSpaces(s));
    spec := Spec(gap, first, last);
    if IsRangeText(s) {
      var _, _ := Bounds(s);
      assert gap == "" by {
        assert |SkipSpaces(s)| == |s|;
      }
    }
  }

  lemma {:induction false} SpecsOf(texts: seq<string>) returns (specs: seq<Spec>)
    requires forall i | 0 <= i < |texts| :: IsRangeText(SkipSpaces(texts[i]))
    ensures |specs| == |texts|
    ensures forall i | 0 <= i < |specs| ::
              IsSpec(specs[i]) && SpecText(specs[i]) == texts[i] && (IsRangeText(texts[i]) ==> specs[i].gap == "")
  {
    if texts == [] {
      specs := [];
    } else {
      var n := |texts| - 1;
      var front := SpecsOf(texts[..n]);
      var last := SpecOf(texts[n]);
      specs := front + [last];
    }
  }

  lemma ListAccepted(specs: seq<Spec>)
    requires IsList(specs)
    ensures IsRangeHeader(HeaderText(specs)) && Segments(HeaderText(specs)[6..], ',') == SpecTexts(specs)
  {
    var texts := SpecTexts(specs);
    assert HeaderText(specs)[6..] == JoinWith(texts, ',');
    forall i | 0 <= i < |texts| ensures ',' !in texts[i] && IsRangeText(SkipSpaces(texts[i])) {
      SpecRead(specs[i]);
    }
    SegmentsOfJoin(texts, ',');
    SpecRead(specs[0]);
    assert texts[0] == "" + (specs[0].first + "-" + specs[0].last) == specs[0].first + "-" + specs[0].last;
  }

  /** A header matches exactly when it is such a list. */
  lemma HeaderGrammar(s: string)
    ensures IsRangeHeader(s) <==> exists specs :: IsList(specs) && s == HeaderText(specs)
  {
    if IsRangeHeader(s) {
      var texts := Segments(s[6..], ',');
      assert SkipSpaces(texts[0]) == texts[0] by {
        assert !IsSpace(texts[0][0]);
      }
      var specs := SpecsOf(texts);
      assert SpecTexts(specs) == texts;
      SegmentsJoin(s[6..], ',');
      assert s == "bytes=" + s[6..];
      assert IsList(specs) && s == HeaderText(specs);
    }
    if exists specs :: IsList(specs) && s == HeaderText(specs) {
      var specs :| IsList(specs) && s == HeaderText(specs);
      ListAccepted(specs);
    }
  }

  // ----- What is read -----

  /** A bound that is missing is -1. */
  function Value(digits: string): int
    requires AllDigits(digits)
  {
    if digits == "" then -1 else DecNumber(digits)
  }

  predicate Fits(s: Spec)
    requires IsSpec(s)
  {
    && Value(s.first) <= SSIZE_MAX && Value(s.last) <= SSIZE_MAX
    && (s.first != "" && s.last != "" ==> Value(s.first) <= Value(s.last))
  }

  /** The ranges up to the first that does not fit. */
  function RangesOf(specs: seq<Spec>): Parsed
    requires forall i | 0 <= i < |specs| :: IsSpec(specs[i])
  {
    if specs == [] then Parsed(true, [])
    else if !Fits(specs[0]) then Parsed(false, [])
    else var p := RangesOf(specs[1..]); Parsed(p.ok, [Range(Value(specs[0].first), Value(specs[0].last))] + p.ranges)
  }

  lemma {:induction false} SpecsRead(specs: seq<Spec>, texts: seq<string>)
    requires |texts| == |specs| && forall i | 0 <= i < |specs| :: IsSpec(specs[i]) && texts[i] == SpecText(specs[i])
    ensures ReadRanges(Kept(texts)) == RangesOf(specs)
  {
    if specs != [] {
      var s := specs[0];
      SpecRead(s);
      BoundsApart(s.first, s.last);
      SpecsRead(specs[1..], texts[1..]);
      var kept := Kept(texts);
      assert kept == [Trim(texts[0])] + Kept(texts[1..]);
      assert kept[0] == Trim(texts[0]) && kept[1..] == Kept(texts[1..]);
    }
  }

  /** Every header that matches is read as its ranges, and every other is refused. */
  lemma HeaderReads(specs: seq<Spec>)
    requires IsList(specs)
    ensures ParseRanges(HeaderText(specs)) == RangesOf(specs)
  {
    ListAccepted(specs);
    SpecsRead(specs, SpecTexts(specs));
  }
}
