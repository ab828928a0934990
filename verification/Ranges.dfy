/** The `Range` header: writing it and reading it. */
module Ranges {
  import opened Machine
  import opened Splitting
  import opened Text

  /** A pair of `ssize_t`; -1 stands for a bound that is not given. */
  datatype Range = Range(first: int, last: int)

  // ----- Decimal numbers -----

  predicate IsDigit(c: char) {
    '0' <= c <= '9'
  }

  predicate AllDigits(s: string) {
    forall i | 0 <= i < |s| :: IsDigit(s[i])
  }

  lemma DigitsAre(s: string)
    ensures AllDigits(s) <==> forall c | c in s :: c in DIGITS
  {
    forall i | 0 <= i < |s| ensures IsDigit(s[i]) <==> s[i] in DIGITS {
      LettersAndDigits(s[i]);
    }
  }

  function Dec(n: nat): (r: string)
    ensures r != "" && AllDigits(r)
  {
    if n < 10 then ['0' + n as char] else Dec(n / 10) + ['0' + (n % 10) as char]
  }

  /** `std::to_string` */
  function ToString(x: int): string {
    if x < 0 then "-" + Dec(-x) else Dec(x)
  }

  function DecNumber(digits: string): nat
    requires AllDigits(digits)
  {
    if digits == "" then 0
    else 10 * DecNumber(digits[..|digits| - 1]) + (digits[|digits| - 1] as int - '0' as int)
  }

  lemma {:induction false} DecReads(n: nat)
    ensures DecNumber(Dec(n)) == n
  {
    if n >= 10 {
      DecReads(n / 10);
      assert Dec(n)[..|Dec(n)| - 1] == Dec(n / 10);
    } else {
      assert Dec(n)[..0] == "";
    }
  }

  // ----- Writing the header -----

  function Bound(x: int): string {
    if x == -1 then "" else ToString(x)
  }

  function RangeText(r: Range): string {
    Bound(r.first) + "-" + Bound(r.last)
  }

  /** The text of the range at place `i`, which follows a blank unless it is the first. */
  function PlacedText(i: nat, r: Range): string {
    if i == 0 then RangeText(r) else " " + RangeText(r)
  }

  /** The texts between the commas. */
  function RangeTexts(ranges: seq<Range>): (r: seq<string>)
    ensures |r| == |ranges|
    ensures forall i | 0 <= i < |r| :: r[i] == PlacedText(i, ranges[i])
  {
    seq(|ranges|, i requires 0 <= i < |ranges| => PlacedText(i, ranges[i]))
  }

  /** The header value for a list of ranges. */
  function Field(ranges: seq<Range>): string {
    "bytes=" + JoinWith(RangeTexts(ranges), ',')
  }

  method MakeRangeHeader(ranges: seq<Range>) returns (field: string)
    ensures field == Field(ranges)
  {
    field := "bytes=";
    var i := 0;
    while i < |ranges|
      invariant i <= |ranges| && field == Field(ranges[..i])
    {
      FieldGrows(ranges, i);
      field := AppendRange(field, i, ranges[i]);
      i := i + 1;
    }
    assert ranges[..i] == ranges;
  }

  /** One turn of the writing loop. */
  method AppendRange(before: string, i: nat, r: Range) returns (field: string)
    ensures field == before + (if i == 0 then "" else ", ") + RangeText(r)
  {
    field := before;
    if i != 0 {
      field := field + ", ";
    }
    ghost var start := field;
    if r.first != -1 {
      field := field + ToString(r.first);
    }
    field := field + "-";
    if r.last != -1 {
      field := field + ToString(r.last);
    }
    assert field == start + Bound(r.first) + "-" + Bound(r.last);
    assert field == start + RangeText(r);
  }

  lemma FieldGrows(ranges: seq<Range>, i: nat)
    requires i < |ranges|
    ensures Field(ranges[..i + 1]) == Field(ranges[..i]) + (if i == 0 then "" else ", ") + RangeText(ranges[i])
  {
    var texts, t := RangeTexts(ranges[..i]), RangeText(ranges[i]);
    TextsGrow(ranges, i);
    if i == 0 {
      JoinMore(texts, t, ',');
      assert texts == [];
    } else {
      JoinMore(texts, " " + t, ',');
      CommaBlank(JoinWith(texts, ','), t);
    }
  }

  lemma TextsGrow(ranges: seq<Range>, i: nat)
    requires i < |ranges|
    ensures RangeTexts(ranges[..i + 1]) == RangeTexts(ranges[..i]) + [PlacedText(i, ranges[i])]
  {
    var a, b := RangeTexts(ranges[..i + 1]), RangeTexts(ranges[..i]) + [PlacedText(i, ranges[i])];
    forall k | 0 <= k <= i ensures a[k] == b[k] {
      assert ranges[..i + 1][k] == ranges[k];
      assert k < i ==> ranges[..i][k] == ranges[k];
    }
  }

  lemma CommaBlank(before: string, t: string)
    ensures "bytes=" + (before + [','] + (" " + t)) == "bytes=" + before + ", " + t
  {
  }

  // ----- Reading the header -----

  function DigitRun(s: string): (r: string)
    ensures r <= s && AllDigits(r)
  {
    if s != "" && IsDigit(s[0]) then [s[0]] + DigitRun(s[1..]) else ""
  }

  /** `s` matches `\d*-\d*`. */
  predicate IsRangeText(s: string) {
    var d := |DigitRun(s)|;
    d < |s| && s[d] == '-' && AllDigits(s[d + 1..])
  }

  /** The whole header matches `bytes=(\d*-\d*(?:,\s*\d*-\d*)*)`. */
  predicate IsRangeHeader(s: string) {
    && "bytes=" <= s
    && var texts := Segments(s[6..], ',');
       && IsRangeText(texts[0])
       && forall i | 1 <= i < |texts| :: IsRangeText(SkipSpaces(texts[i]))
  }

  /** `std::stoll`, which throws on a number that does not fit. */
  function BoundValue(digits: string): Option<int>
    requires AllDigits(digits)
  {
    var value: int := if digits == "" then -1 else DecNumber(digits);
    if value > SSIZE_MAX then None else Some(value)
  }

  /** The range in a text; none when a bound does not fit or the bounds are the wrong way round. */
  function ReadRange(s: string): Option<Range>
    requires IsRangeText(s)
  {
    var d := |DigitRun(s)|;
    match BoundValue(s[..d])
    case None => None
    case Some(first) =>
      match BoundValue(s[d + 1..])
      case None => None
      case Some(last) => if first != -1 && last != -1 && first > last then None else Some(Range(first, last))
  }

  datatype Parsed = Parsed(ok: bool, ranges: seq<Range>)

  /** The ranges up to the first text that is refused. Other texts are passed over. */
  function ReadRanges(texts: seq<string>): Parsed {
    if texts == [] then Parsed(true, [])
    else if !IsRangeText(SkipSpaces(texts[0])) then ReadRanges(texts[1..])
    else match ReadRange(SkipSpaces(texts[0]))
         case None => Parsed(false, [])
         case Some(r) => var p := ReadRanges(texts[1..]); Parsed(p.ok, [r] + p.ranges)
  }

  function ParseRanges(s: string): Parsed {
    if IsRangeHeader(s) then ReadRanges(Pieces(s[6..], ',')) else Parsed(false, [])
  }

  method ParseRangeHeader(s: string) returns (ok: bool, ranges: seq<Range>)
    ensures Parsed(ok, ranges) == ParseRanges(s)
  {
    ranges := [];
    if !IsRangeHeader(s) {
      return false, ranges;
    }
    var texts := Split(s[6..], ',');
    var allValid := true;
    ghost var whole := ReadRanges(texts);
    for i := 0 to |texts|
      invariant if allValid then whole == Parsed(ReadRanges(texts[i..]).ok, ranges + ReadRanges(texts[i..]).ranges)
                else whole == Parsed(false, ranges)
    {
      if allValid && IsRangeText(SkipSpaces(texts[i])) {
        match ReadRange(SkipSpaces(texts[i])) {
          case None => allValid := false;
          case Some(r) => ranges := ranges + [r];
        }
      }
      assert texts[i..][1..] == texts[i + 1..];
    }
    assert texts[|texts|..] == [];
    return allValid, ranges;
  }

  // ----- The round trip -----

  predicate IsSsize(x: int) {
    -SSIZE_MAX - 1 <= x <= SSIZE_MAX
  }

  predicate Typed(ranges: seq<Range>) {
    forall i | 0 <= i < |ranges| :: IsSsize(ranges[i].first) && IsSsize(ranges[i].last)
  }

  predicate NotNegative(r: Range) {
    r.first >= -1 && r.last >= -1
  }

  /** Bounds that are given are not negative and in order. */
  predicate WellFormed(r: Range) {
    NotNegative(r) && (r.first != -1 && r.last != -1 ==> r.first <= r.last)
  }

  lemma {:induction false} DigitRunStops(digits: string, rest: string)
    requires AllDigits(digits) && (rest == "" || !IsDigit(rest[0]))
    ensures DigitRun(digits + rest) == digits
  {
    if digits == "" {
      assert digits + rest == rest;
    } else {
      assert (digits + rest)[1..] == digits[1..] + rest;
      DigitRunStops(digits[1..], rest);
    }
  }

  lemma BoundReads(x: int)
    requires -1 <= x && IsSsize(x)
    ensures AllDigits(Bound(x)) && BoundValue(Bound(x)) == Some(x)
  {
    if x != -1 {
      DecReads(x);
    }
  }

  lemma BoundsApart(a: string, b: string)
    requires AllDigits(a) && AllDigits(b)
    ensures var s := a + "-" + b; DigitRun(s) == a && IsRangeText(s) && s[..|a|] == a && s[|a| + 1..] == b
  {
    assert a + "-" + b == a + ("-" + b);
    DigitRunStops(a, "-" + b);
    assert (a + "-" + b)[..|a|] == a && (a + "-" + b)[|a| + 1..] == b;
  }

  lemma RangeTextReads(r: Range)
    requires NotNegative(r) && IsSsize(r.first) && IsSsize(r.last)
    ensures IsRangeText(RangeText(r))
    ensures ReadRange(RangeText(r)) == if WellFormed(r) then Some(r) else None
  {
    BoundReads(r.first);
    BoundReads(r.last);
    BoundsApart(Bound(r.first), Bound(r.last));
  }

  lemma NegativeUnreadable(r: Range)
    requires !NotNegative(r)
    ensures !IsRangeText(RangeText(r))
  {
    var s := RangeText(r);
    if r.first < -1 {
      DigitRunStops("", s);
      assert "" + s == s;
      assert s[1..][|Dec(-r.first)|] == '-';
    } else {
      assert s == Bound(r.first) + ("-" + Bound(r.last));
      DigitRunStops(Bound(r.first), "-" + Bound(r.last));
      assert s[|Bound(r.first)| + 1..][0] == '-';
    }
  }

  lemma RangeTextChars(r: Range)
    ensures var t := RangeText(r); t != "" && forall i | 0 <= i < |t| :: IsDigit(t[i]) || t[i] == '-'
  {
  }

  lemma BlankDropped(t: string)
    requires t != "" && Trimmed(t) && !IsSpace(t[0])
    ensures Trim(t) == Trim(" " + t) == t && SkipSpaces(t) == SkipSpaces(" " + t) == t
  {
    TrimBetween("", t, "");
    TrimBetween(" ", t, "");
    assert "" + t + "" == t && " " + t + "" == " " + t;
    assert (" " + t)[1..] == t;
  }

  lemma PlacedTextTrims(i: nat, r: Range)
    ensures ',' !in PlacedText(i, r) && Trim(PlacedText(i, r)) == RangeText(r) != ""
    ensures SkipSpaces(PlacedText(i, r)) == SkipSpaces(RangeText(r)) == RangeText(r)
  {
    RangeTextChars(r);
    BlankDropped(RangeText(r));
  }

  function PlainTexts(ranges: seq<Range>): seq<string> {
    if ranges == [] then [] else [RangeText(ranges[0])] + PlainTexts(ranges[1..])
  }

  lemma {:induction false} KeptTexts(ranges: seq<Range>, texts: seq<string>, k: nat)
    requires |texts| == |ranges| && forall i | 0 <= i < |texts| :: texts[i] == PlacedText(k + i, ranges[i])
    ensures Kept(texts) == PlainTexts(ranges)
  {
    if texts != [] {
      PlacedTextTrims(k, ranges[0]);
      assert texts[0] == PlacedText(k + 0, ranges[0]);
      KeptTexts(ranges[1..], texts[1..], k + 1);
    }
  }

  lemma FieldPieces(ranges: seq<Range>)
    requires ranges != []
    ensures Segments(Field(ranges)[6..], ',') == RangeTexts(ranges)
    ensures Pieces(Field(ranges)[6..], ',') == PlainTexts(ranges)
  {
    var texts := RangeTexts(ranges);
    assert Field(ranges)[6..] == JoinWith(texts, ',');
    forall i | 0 <= i < |texts| ensures ',' !in texts[i] {
      PlacedTextTrims(i, ranges[i]);
    }
    SegmentsOfJoin(texts, ',');
    KeptTexts(ranges, texts, 0);
  }

  lemma HeaderIff(ranges: seq<Range>)
    requires Typed(ranges)
    ensures IsRangeHeader(Field(ranges)) <==> ranges != [] && forall i | 0 <= i < |ranges| :: NotNegative(ranges[i])
  {
    assert "bytes=" <= Field(ranges);
    if ranges == [] {
      assert Field(ranges)[6..] == "";
    } else {
      FieldPieces(ranges);
      forall i | 0 <= i < |ranges| ensures IsRangeText(RangeText(ranges[i])) <==> NotNegative(ranges[i]) {
        if NotNegative(ranges[i]) {
          RangeTextReads(ranges[i]);
        } else {
          NegativeUnreadable(ranges[i]);
        }
      }
      forall i | 0 <= i < |ranges| ensures SkipSpaces(RangeTexts(ranges)[i]) == RangeText(ranges[i]) {
        PlacedTextTrims(i, ranges[i]);
      }
    }
  }

  predicate AllWellFormed(ranges: seq<Range>) {
    forall i | 0 <= i < |ranges| :: WellFormed(ranges[i])
  }

  lemma AllWellFormedSplit(ranges: seq<Range>)
    requires ranges != []
    ensures AllWellFormed(ranges) <==> WellFormed(ranges[0]) && AllWellFormed(ranges[1..])
  {
    assert forall i | 0 < i < |ranges| :: ranges[i] == ranges[1..][i - 1];
  }

  lemma FirstTextReads(r: Range, texts: seq<string>)
    requires NotNegative(r) && IsSsize(r.first) && IsSsize(r.last)
    ensures var p := ReadRanges(texts);
            ReadRanges([RangeText(r)] + texts) ==
            if WellFormed(r) then Parsed(p.ok, [r] + p.ranges) else Parsed(false, [])
  {
    RangeTextReads(r);
    PlacedTextTrims(0, r);
    assert ([RangeText(r)] + texts)[1..] == texts;
  }

  /** `p` is accepted exactly when the ranges are well-formed, and then holds them. */
  ghost predicate Faithful(p: Parsed, ranges: seq<Range>) {
    (p.ok <==> AllWellFormed(ranges)) && (p.ok ==> p.ranges == ranges)
  }

  lemma FaithfulMore(p: Parsed, ranges: seq<Range>, whole: Parsed)
    requires ranges != [] && Faithful(p, ranges[1..])
    requires whole == if WellFormed(ranges[0]) then Parsed(p.ok, [ranges[0]] + p.ranges) else Parsed(false, [])
    ensures Faithful(whole, ranges)
  {
    AllWellFormedSplit(ranges);
    assert ranges == [ranges[0]] + ranges[1..];
  }

  lemma {:induction false} TextsRead(ranges: seq<Range>)
    requires Typed(ranges) && forall i | 0 <= i < |ranges| :: NotNegative(ranges[i])
    ensures Faithful(ReadRanges(PlainTexts(ranges)), ranges)
  {
    if ranges != [] {
      var texts := PlainTexts(ranges[1..]);
      TextsRead(ranges[1..]);
      FirstTextReads(ranges[0], texts);
      FaithfulMore(ReadRanges(texts), ranges, ReadRanges([RangeText(ranges[0])] + texts));
    }
  }

  /**
   * A generated header is accepted exactly when it lists at least one range and
   * every range is well-formed, and is then read as the ranges it was made from.
   */
  lemma RangesRoundTrip(ranges: seq<Range>)
    requires Typed(ranges)
    ensures var p := ParseRanges(Field(ranges));
            && (p.ok <==> ranges != [] && AllWellFormed(ranges))
            && (p.ok ==> p.ranges == ranges)
  {
    HeaderIff(ranges);
    if IsRangeHeader(Field(ranges)) {
      FieldPieces(ranges);
      TextsRead(ranges);
    }
  }
}
