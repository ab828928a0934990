/** Percent-encoding, and what decoding makes of it. */
module Query {
  import opened Text

  // ----- Percent-encoding -----

  /** A `std::string`: every character is a byte. */
  predicate IsBytes(s: string) {
    forall i | 0 <= i < |s| :: s[i] as int < 256
  }

  predicate IsAlnum(c: char) {
    '0' <= c <= '9' || 'A' <= c <= 'Z' || 'a' <= c <= 'z'
  }

  predicate Unescaped(c: char) {
    IsAlnum(c) || c in "-_.!~*'()"
  }

  function UpperHexDigit(d: nat): (c: char)
    requires d < 16
    ensures IsHexDigit(c) && HexDigitValue(c) == d && c != 'u'
  {
    if d < 10 then '0' + d as char else 'A' + (d - 10) as char
  }

  function EncodeByte(c: char): string
    requires c as int < 256
  {
    if Unescaped(c) then [c] else ['%', UpperHexDigit(c as int / 16), UpperHexDigit(c as int % 16)]
  }

  function Encode(s: string): string
    requires IsBytes(s)
  {
    if s == "" then "" else EncodeByte(s[0]) + Encode(s[1..])
  }

  method EncodeQueryParam(value: string) returns (escaped: string)
    requires IsBytes(value)
    ensures escaped == Encode(value)
  {
    escaped := "";
    for i := 0 to |value|
      invariant escaped + Encode(value[i..]) == Encode(value)
    {
      var c := value[i];
      var before := escaped;
      if Unescaped(c) {
        escaped := escaped + [c];
      } else {
        escaped := escaped + ['%'] + [UpperHexDigit(c as int / 16)] + [UpperHexDigit(c as int % 16)];
      }
      assert value[i..][1..] == value[i + 1..];
      assert escaped == before + EncodeByte(c);
      Assoc(before, EncodeByte(c), Encode(value[i + 1..]));
    }
  }

  /** `from_hex_to_i` succeeds on `cnt` digits at position `i`. */
  predicate HexAt(s: string, i: nat, cnt: nat) {
    i < |s| && i + cnt <= |s| && forall k | i <= k < i + cnt :: IsHexDigit(s[k])
  }

  method FromHexToI(s: string, i: nat, cnt: nat) returns (ok: bool, val: nat)
    ensures cnt > 0 ==> ok == HexAt(s, i, cnt)
    ensures ok && cnt > 0 ==> val == HexNumber(s[i..i + cnt])
  {
    val := 0;
    if i >= |s| {
      return false, 0;
    }
    var k := i;
    while k < i + cnt
      invariant i <= k <= i + cnt && k <= |s|
      invariant forall j | i <= j < k :: IsHexDigit(s[j])
      invariant val == HexNumber(s[i..k])
    {
      if k == |s| || s[k] == '\0' || !IsHexDigit(s[k]) {
        return false, val;
      }
      assert s[i..k + 1][..k - i] == s[i..k];
      val := val * 16 + HexDigitValue(s[k]);
      k := k + 1;
    }
    return true, val;
  }

  /** The bytes of a code point below 0x10000; none for a surrogate. */
  function ToUtf8(code: nat): (r: string)
    requires code < 0x10000
    ensures |r| <= 3
  {
    if code < 0x80 then [code as char]
    else if code < 0x800 then [(0xC0 + code / 64) as char, (0x80 + code % 64) as char]
    else if 0xD800 <= code < 0xE000 then ""
    else [(0xE0 + code / 4096) as char, (0x80 + code / 64 % 64) as char, (0x80 + code % 64) as char]
  }

  /** The code point that one to three bytes write, by the bit patterns of section 3 of RFC 3629. */
  function FromUtf8(b: string): int {
    if |b| == 1 && b[0] as int < 0x80 then b[0] as int
    else if |b| == 2 && 0xC0 <= b[0] as int < 0xE0 && Continues(b[1]) then
      (b[0] as int - 0xC0) * 64 + (b[1] as int - 0x80)
    else if |b| == 3 && 0xE0 <= b[0] as int < 0xF0 && Continues(b[1]) && Continues(b[2]) then
      (b[0] as int - 0xE0) * 4096 + (b[1] as int - 0x80) * 64 + (b[2] as int - 0x80)
    else -1
  }

  predicate Continues(c: char) {
    0x80 <= c as int < 0xC0
  }

  /** The bytes of a code point write that code point, in the fewest bytes; surrogates have none. */
  lemma Utf8Reads(code: nat)
    requires code < 0x10000
    ensures 0xD800 <= code < 0xE000 <==> ToUtf8(code) == ""
    ensures !(0xD800 <= code < 0xE000) ==>
              && FromUtf8(ToUtf8(code)) == code
              && |ToUtf8(code)| == if code < 0x80 then 1 else if code < 0x800 then 2 else 3
  {
    if code >= 0x800 {
      assert code == code / 4096 * 4096 + code / 64 % 64 * 64 + code % 64;
    }
  }

  lemma HexNumberBound(digits: string)
    requires forall c | c in digits :: IsHexDigit(c)
    ensures |digits| == 2 ==> HexNumber(digits) < 256
    ensures |digits| == 4 ==> HexNumber(digits) < 0x10000
  {
    if |digits| == 2 || |digits| == 4 {
      var d1 := digits[..|digits| - 1];
      var d2 := d1[..|d1| - 1];
      if |digits| == 4 {
        var d3 := d2[..1];
        assert d3[..0] == "";
        assert HexNumber(d3) < 16;
        assert HexNumber(d2) < 256;
      } else {
        assert d2 == "";
        assert HexNumber(d1) < 16;
      }
    }
  }

  /** The first character of `s` decoded, and how much of `s` it took. */
  datatype Decoding = Decoding(text: string, width: nat)

  function DecodeFirst(s: string, plusToSpace: bool): (r: Decoding)
    requires s != ""
    ensures 0 < r.width <= |s| && |r.text| <= r.width
  {
    if s[0] == '%' && |s| > 1 then
      if s[1] == 'u' then
        if HexAt(s, 2, 4) then
          HexNumberBound(s[2..6]);
          Decoding(ToUtf8(HexNumber(s[2..6])), 6)
        else Decoding("%", 1)
      else if HexAt(s, 1, 2) then
        HexNumberBound(s[1..3]);
        Decoding([HexNumber(s[1..3]) as char], 3)
      else Decoding("%", 1)
    else if plusToSpace && s[0] == '+' then Decoding(" ", 1)
    else Decoding(s[..1], 1)
  }

  function Decode(s: string, plusToSpace: bool): (r: string)
    ensures |r| <= |s|
  {
    if s == "" then ""
    else var d := DecodeFirst(s, plusToSpace);
         d.text + Decode(s[d.width..], plusToSpace)
  }

  method DecodeUrl(s: string, plusToSpace: bool) returns (result: string)
    ensures result == Decode(s, plusToSpace)
  {
    result := "";
    var i := 0;
    while i < |s|
      invariant i <= |s| && result + Decode(s[i..], plusToSpace) == Decode(s, plusToSpace)
    {
      var first := DecodeNext(s, i, plusToSpace);
      assert s[i..][first.width..] == s[i + first.width..];
      Assoc(result, first.text, Decode(s[i + first.width..], plusToSpace));
      result := result + first.text;
      i := i + first.width;
    }
  }

  /** One turn of the decoding loop. */
  method DecodeNext(s: string, i: nat, plusToSpace: bool) returns (r: Decoding)
    requires i < |s|
    ensures r == DecodeFirst(s[i..], plusToSpace)
  {
    if s[i] == '%' && i + 1 < |s| {
      if s[i + 1] == 'u' {
        var ok, val := FromHexToI(s, i + 2, 4);
        HexShift(s, i, 2, 4);
        if ok {
          HexNumberBound(s[i + 2..i + 6]);
          r := Decoding(ToUtf8(val), 6);
        } else {
          r := Decoding([s[i]], 1);
        }
      } else {
        var ok, val := FromHexToI(s, i + 1, 2);
        HexShift(s, i, 1, 2);
        if ok {
          HexNumberBound(s[i + 1..i + 3]);
          r := Decoding([val as char], 3);
        } else {
          r := Decoding([s[i]], 1);
        }
      }
    } else if plusToSpace && s[i] == '+' {
      r := Decoding(" ", 1);
    } else {
      r := Decoding([s[i]], 1);
    }
  }

  lemma HexShift(s: string, i: nat, at: nat, cnt: nat)
    requires i <= |s| && cnt > 0
    ensures HexAt(s[i..], at, cnt) <==> HexAt(s, i + at, cnt)
    ensures HexAt(s[i..], at, cnt) ==> s[i..][at..at + cnt] == s[i + at..i + at + cnt]
  {
    if HexAt(s[i..], at, cnt) {
      forall k | i + at <= k < i + at + cnt ensures IsHexDigit(s[k]) {
        assert s[k] == s[i..][k - i];
      }
    }
  }

  // ----- Decoding undoes encoding -----

  lemma DecodeEncodedByte(c: char, rest: string, plusToSpace: bool)
    requires c as int < 256
    ensures DecodeFirst(EncodeByte(c) + rest, plusToSpace) == Decoding([c], |EncodeByte(c)|)
  {
    var s := EncodeByte(c) + rest;
    if !Unescaped(c) {
      var digits := [UpperHexDigit(c as int / 16), UpperHexDigit(c as int % 16)];
      assert s[1] == digits[0] && s[2] == digits[1];
      assert s[1..3] == digits;
      assert digits[..1] == [digits[0]];
      assert [digits[0]][..0] == "";
      assert HexNumber([digits[0]]) == c as int / 16;
      assert HexNumber(digits) == c as int;
    }
  }

  /** Every byte string survives encoding, whether or not `+` stands for a blank. */
  lemma {:induction false} DecodeUndoesEncode(s: string, plusToSpace: bool)
    requires IsBytes(s)
    ensures Decode(Encode(s), plusToSpace) == s
  {
    if s != "" {
      var e := EncodeByte(s[0]);
      DecodeEncodedByte(s[0], Encode(s[1..]), plusToSpace);
      assert (e + Encode(s[1..]))[|e|..] == Encode(s[1..]);
      DecodeUndoesEncode(s[1..], plusToSpace);
      assert [s[0]] + s[1..] == s;
    }
  }

  lemma EncodeInjective(s: string, t: string)
    requires IsBytes(s) && IsBytes(t) && Encode(s) == Encode(t)
    ensures s == t
  {
    DecodeUndoesEncode(s, true);
    DecodeUndoesEncode(t, true);
  }

  /** Not a separator of queries and not a blank. */
  predicate Inert(c: char) {
    c != '&' && c != '=' && c != '+' && !IsSpaceOrTab(c)
  }

  lemma {:induction false} EncodeInert(s: string)
    requires IsBytes(s)
    ensures forall i | 0 <= i < |Encode(s)| :: Inert(Encode(s)[i])
  {
    if s != "" {
      EncodeInert(s[1..]);
    }
  }

  // ----- Character by character -----

  const MARKS := "-_.!~*'()"

  /** The characters that stay are these, and no others. */
  lemma KeptCharacters(c: char)
    requires c as int < 256
    ensures if c in UPPER || c in LOWER || c in DIGITS || c in MARKS then Encode([c]) == [c]
            else
              var e := Encode([c]);
              && |e| == 3 && e[0] == '%' && HexNumber(e[1..]) == c as int
              && (forall i | 1 <= i < 3 :: '0' <= e[i] <= '9' || 'A' <= e[i] <= 'F')
  {
    hide HexNumber;
    assert [c][1..] == "";
    assert Encode([c]) == EncodeByte(c) + "" == EncodeByte(c);
    LettersAndDigits(c);
    TwoDigits(c);
  }

  lemma TwoDigits(c: char)
    requires c as int < 256
    ensures !Unescaped(c) ==> |EncodeByte(c)| == 3 && HexNumber(EncodeByte(c)[1..]) == c as int
  {
    if !Unescaped(c) {
      var e := EncodeByte(c);
      assert e[1..] == [e[1], e[2]];
      assert [e[1], e[2]][..1] == [e[1]];
      assert [e[1]][..0] == "";
      assert HexNumber([e[1]]) == c as int / 16;
    }
  }

  /** Two digits after a percent sign are a byte. */
  lemma ByteEscape(a: char, b: char, rest: string, plusToSpace: bool)
    requires IsHexDigit(a) && IsHexDigit(b)
    ensures Decode(['%', a, b] + rest, plusToSpace) ==
            [(HexDigitValue(a) * 16 + HexDigitValue(b)) as char] + Decode(rest, plusToSpace)
  {
    var s := ['%', a, b] + rest;
    assert s[1..3] == [a, b] && s[3..] == rest;
    assert [a, b][..1] == [a] && [a][..0] == "";
    assert HexNumber([a]) == HexDigitValue(a);
  }

  /** Four digits after `%u` are a code point. */
  lemma CodePointEscape(digits: string, rest: string, plusToSpace: bool)
    requires |digits| == 4 && forall i | 0 <= i < 4 :: IsHexDigit(digits[i])
    ensures HexNumber(digits) < 0x10000
    ensures Decode("%u" + digits + rest, plusToSpace) == ToUtf8(HexNumber(digits)) + Decode(rest, plusToSpace)
  {
    HexNumberBound(digits);
    var s := "%u" + digits + rest;
    assert s[2..6] == digits && s[6..] == rest;
    assert forall k | 2 <= k < 6 :: s[k] == digits[k - 2];
  }

  /** A percent sign that starts neither stays, and so does any other character, but for a plus sign. */
  lemma OtherCharacter(c: char, rest: string, plusToSpace: bool)
    requires c == '%' ==> !HexAt(rest, 0, 2) && !(rest != "" && rest[0] == 'u' && HexAt(rest, 1, 4))
    ensures Decode([c] + rest, plusToSpace) ==
            [if c == '+' && plusToSpace then ' ' else c] + Decode(rest, plusToSpace)
  {
    var s := [c] + rest;
    assert s[1..] == rest;
    HexShift(s, 1, 0, 2);
    HexShift(s, 1, 1, 4);
    if rest != "" && rest[0] == 'u' {
      assert !IsHexDigit('u');
    }
  }
}
