/** Byte strings as the C++ code sees them: searching, case folding and blanks. */
module Text {

  const CRLF := "\r\n"

  /** `p` occurs in `s` at position `i`. */
  predicate OccursAt(s: string, p: string, i: int) {
    0 <= i <= |s| - |p| && forall k | 0 <= k < |p| :: s[i + k] == p[k]
  }

  predicate Occurs(s: string, p: string) {
    exists i | 0 <= i <= |s| :: OccursAt(s, p, i)
  }

  /** The first position of `p` in `s`, or `|s|` when there is none. */
  function Find(s: string, p: string): (r: nat)
    requires p != ""
    ensures r < |s| ==> r + |p| <= |s|
    ensures r <= |s|
  {
    FindFrom(s, p, 0)
  }

  function FindFrom(s: string, p: string, i: nat): (r: nat)
    requires p != "" && i <= |s|
    ensures r < |s| ==> r + |p| <= |s|
    ensures i <= r <= |s|
    decreases |s| - i
  {
    if |s| < i + |p| then |s| else if OccursAt(s, p, i) then i else FindFrom(s, p, i + 1)
  }

  lemma FindSpec(s: string, p: string)
    requires p != ""
    ensures var r := Find(s, p);
            && (r < |s| ==> OccursAt(s, p, r))
            && forall i | 0 <= i < r :: !OccursAt(s, p, i)
  {
    FindFromSpec(s, p, 0);
  }

  lemma {:induction false} FindFromSpec(s: string, p: string, i: nat)
    requires p != "" && i <= |s|
    ensures var r := FindFrom(s, p, i);
            && (r < |s| ==> OccursAt(s, p, r))
            && forall k | i <= k < r :: !OccursAt(s, p, k)
    decreases |s| - i
  {
    if |s| >= i + |p| && !OccursAt(s, p, i) {
      FindFromSpec(s, p, i + 1);
    }
  }

  /** The clauses of `FindSpec` leave one answer. */
  lemma FindUnique(s: string, p: string, r: nat)
    requires p != "" && r <= |s|
    requires r < |s| ==> OccursAt(s, p, r)
    requires forall i | 0 <= i < r :: !OccursAt(s, p, i)
    ensures Find(s, p) == r
  {
    FindSpec(s, p);
  }

  /** More input never moves a match, and a new match must use the new input. */
  lemma FindAppend(s: string, b: string, p: string)
    requires p != ""
    ensures Find(s, p) < |s| ==> Find(s + b, p) == Find(s, p)
    ensures Find(s, p) == |s| ==> Find(s + b, p) > |s| - |p|
  {
    OccursAppend(s, b, p);
    FindSpec(s, p);
    FindSpec(s + b, p);
    var r := Find(s, p);
    if r < |s| {
      FindUnique(s + b, p, r);
    } else {
      var q := Find(s + b, p);
      assert q <= |s| - |p| ==> !OccursAt(s + b, p, q);
    }
  }

  lemma OccursAppend(s: string, b: string, p: string)
    ensures forall i | i <= |s| - |p| :: OccursAt(s + b, p, i) <==> OccursAt(s, p, i)
  {
    forall i | 0 <= i <= |s| - |p| ensures OccursAt(s + b, p, i) <==> OccursAt(s, p, i) {
      assert forall k | 0 <= k < |p| :: (s + b)[i + k] == s[i + k] == s[i..][k];
    }
  }

  /** A pattern whose first byte is not repeated cannot overlap itself, so it is found right after
      any text that does not contain it. */
  lemma FindAfter(x: string, p: string, rest: string)
    requires p != "" && p[0] !in p[1..]
    requires !Occurs(x, p)
    ensures Find(x + p + rest, p) == |x|
  {
    var s := x + p + rest;
    assert s == x + (p + rest);
    OccursAppend(x, p + rest, p);
    forall i | 0 <= i < |x| ensures !OccursAt(s, p, i) {
      if i + |p| > |x| {
        var k := |x| - i;
        assert p[1..][k - 1] == p[k];
        assert s[i + k] == p[0];
      }
    }
    assert forall k | 0 <= k < |p| :: s[|x| + k] == p[k];
    FindUnique(s, p, |x|);
  }

  lemma AbsentFirstByte(x: string, p: string)
    requires p != "" && p[0] !in x
    ensures !Occurs(x, p)
  {
    forall i | 0 <= i <= |x| - |p| ensures !OccursAt(x, p, i) {
      assert x[i + 0] != p[0];
    }
  }

  lemma Assoc(a: string, b: string, c: string)
    ensures a + b + c == a + (b + c)
  {
  }

  /** `::tolower` in the C locale. */
  function Lower(c: char): char {
    if 'A' <= c <= 'Z' then (c as int + 32) as char else c
  }

  const UPPER := "ABCDEFGHIJKLMNOPQRSTUVWXYZ"
  const LOWER := "abcdefghijklmnopqrstuvwxyz"
  const DIGITS := "0123456789"

  /** Consecutive characters. */
  lemma InOrder(s: string, first: char, c: char)
    requires |s| <= 26 && forall i | 0 <= i < |s| :: s[i] as int == first as int + i
    ensures c in s <==> first as int <= c as int < first as int + |s|
  {
    if first as int <= c as int < first as int + |s| {
      assert s[c as int - first as int] == c;
    }
  }

  lemma LettersAndDigits(c: char)
    ensures c in UPPER <==> 'A' <= c <= 'Z'
    ensures c in LOWER <==> 'a' <= c <= 'z'
    ensures c in DIGITS <==> '0' <= c <= '9'
  {
    InOrder(UPPER, 'A', c);
    InOrder(LOWER, 'a', c);
    InOrder(DIGITS, '0', c);
  }

  /** Each capital letter has its small letter, and every other character stands for itself. */
  lemma SmallLetters(c: char, i: nat)
    ensures i < 26 && c == UPPER[i] ==> Lower(c) == LOWER[i]
    ensures c !in UPPER ==> Lower(c) == c
  {
    LettersAndDigits(c);
    assert i < 26 ==> UPPER[i] as int == 'A' as int + i && LOWER[i] as int == 'a' as int + i;
  }

  predicate StartsWithIgnoreCase(a: string, b: string) {
    |a| >= |b| && forall i | 0 <= i < |b| :: Lower(a[i]) == Lower(b[i])
  }

  /** `isspace` in the C locale, and `\s` in a regular expression. */
  predicate IsSpace(c: char) {
    c == ' ' || '\t' <= c <= '\r'
  }

  lemma SpacesAre(c: char)
    ensures IsSpace(c) <==> c in " \t\n\U{000B}\U{000C}\r"
  {
    InOrder("\t\n\U{000B}\U{000C}\r", '\t', c);
    assert " \t\n\U{000B}\U{000C}\r" == " " + "\t\n\U{000B}\U{000C}\r";
  }

  function SkipSpaces(s: string): string {
    if s != "" && IsSpace(s[0]) then SkipSpaces(s[1..]) else s
  }

  predicate Blanks(s: string) {
    forall i | 0 <= i < |s| :: IsSpace(s[i])
  }

  lemma {:induction false} SpacesSkipped(blanks: string, s: string)
    requires Blanks(blanks) && (s == "" || !IsSpace(s[0]))
    ensures SkipSpaces(blanks + s) == s
  {
    if blanks == "" {
      assert blanks + s == s;
    } else {
      assert (blanks + s)[1..] == blanks[1..] + s;
      SpacesSkipped(blanks[1..], s);
    }
  }

  lemma {:induction false} SpaceSplit(s: string) returns (gap: string)
    ensures Blanks(gap) && s == gap + SkipSpaces(s)
  {
    if s != "" && IsSpace(s[0]) {
      gap := SpaceSplit(s[1..]);
      gap := [s[0]] + gap;
      assert s == [s[0]] + s[1..];
    } else {
      gap := "";
    }
  }

  predicate IsSpaceOrTab(c: char) {
    c == ' ' || c == '\t'
  }

  function TrimLeft(s: string): string {
    if s != "" && IsSpaceOrTab(s[0]) then TrimLeft(s[1..]) else s
  }

  function TrimRight(s: string): string {
    if s != "" && IsSpaceOrTab(s[|s| - 1]) then TrimRight(s[..|s| - 1]) else s
  }

  function Trim(s: string): string {
    TrimRight(TrimLeft(s))
  }

  /** No blank at either end. */
  predicate Trimmed(s: string) {
    s != "" ==> !IsSpaceOrTab(s[0]) && !IsSpaceOrTab(s[|s| - 1])
  }

  predicate IsHexDigit(c: char) {
    '0' <= c <= '9' || 'A' <= c <= 'F' || 'a' <= c <= 'f'
  }

  function HexDigitValue(c: char): (v: nat)
    requires IsHexDigit(c)
    ensures v < 16
  {
    if c <= '9' then c as int - '0' as int
    else if c <= 'F' then c as int - 'A' as int + 10
    else c as int - 'a' as int + 10
  }

  const HEX_UPPER := "0123456789ABCDEF"
  const HEX_LOWER := "0123456789abcdef"

  /** The value of a digit is its place among the digits of either case. */
  lemma HexDigitPlace(c: char)
    ensures IsHexDigit(c) <==> c in HEX_UPPER || c in HEX_LOWER
    ensures IsHexDigit(c) ==> var v := HexDigitValue(c); HEX_UPPER[v] == c || HEX_LOWER[v] == c
  {
    assert HEX_UPPER == "0123456789" + "ABCDEF" && HEX_LOWER == "0123456789" + "abcdef";
    InOrder("0123456789", '0', c);
    InOrder("ABCDEF", 'A', c);
    InOrder("abcdef", 'a', c);
  }

  /** The number a run of hexadecimal digits writes. */
  function HexNumber(digits: string): nat
    requires forall c | c in digits :: IsHexDigit(c)
  {
    if digits == "" then 0
    else 16 * HexNumber(digits[..|digits| - 1]) + HexDigitValue(digits[|digits| - 1])
  }
}
