/** Bytes as hexadecimal text and back, in buffers of the caller. */
module Hex {

  const INT_MAX: int := 0x7FFF_FFFF

  type Byte = bv8

  // ----- What the loops compute -----

  /** The upper-case digit of a value below 16. */
  function Dec2Hex(d: Byte): Byte {
    if d < 10 then d + 48 else d + 55
  }

  predicate IsUpperDigit(c: Byte) {
    48 <= c <= 57 || 65 <= c <= 70
  }

  predicate IsDigit(c: Byte) {
    IsUpperDigit(c) || 97 <= c <= 102
  }

  /** The value of a digit; any other character stands for itself. */
  function Hex2Dec(c: Byte): Byte {
    if 48 <= c <= 57 then c - 48
    else if 65 <= c <= 70 then c - 65 + 10
    else if 97 <= c <= 102 then c - 97 + 10
    else c
  }

  function Upper(c: Byte): Byte {
    if 97 <= c <= 122 then c - 32 else c
  }

  function Digits(b: Byte): seq<Byte> {
    [Dec2Hex(b >> 4), Dec2Hex(b & 0xF)]
  }

  function Pair(high: Byte, low: Byte): Byte {
    (Hex2Dec(high) << 4) | Hex2Dec(low)
  }

  function Text(bin: seq<Byte>): (r: seq<Byte>)
    ensures |r| == 2 * |bin|
  {
    if bin == [] then [] else Digits(bin[0]) + Text(bin[1..])
  }

  /** The bytes of the whole pairs in `hex`. */
  function Bytes(hex: seq<Byte>): (r: seq<Byte>)
    ensures |r| == |hex| / 2
  {
    if |hex| < 2 then [] else [Pair(hex[0], hex[1])] + Bytes(hex[2..])
  }

  lemma {:induction false} TextAt(bin: seq<Byte>, i: nat)
    requires i < |bin|
    ensures Text(bin)[2 * i] == Dec2Hex(bin[i] >> 4) && Text(bin)[2 * i + 1] == Dec2Hex(bin[i] & 0xF)
  {
    if i > 0 {
      TextAt(bin[1..], i - 1);
      assert Text(bin)[2..] == Text(bin[1..]);
    }
  }

  lemma {:induction false} BytesAt(hex: seq<Byte>, i: nat)
    requires 2 * i + 1 < |hex|
    ensures Bytes(hex)[i] == Pair(hex[2 * i], hex[2 * i + 1])
  {
    if i > 0 {
      BytesAt(hex[2..], i - 1);
    }
  }

  // ----- The buffers -----

  /** Fills `hex` and ends it with a zero if there is room; does nothing if it is too small. */
  method HexEncode(bin: array<Byte>, hex: array<Byte>)
    requires hex != bin
    modifies hex
    ensures hex.Length < 2 * bin.Length ==> hex[..] == old(hex[..])
    ensures hex.Length >= 2 * bin.Length ==>
              && hex[..2 * bin.Length] == Text(bin[..])
              && (hex.Length > 2 * bin.Length ==> hex[2 * bin.Length] == 0)
              && forall k | 2 * bin.Length < k < hex.Length :: hex[k] == old(hex[k])
  {
    if hex.Length < bin.Length * 2 {
      return;
    }
    for i := 0 to bin.Length
      invariant forall k | 0 <= k < 2 * i :: hex[k] == Text(bin[..])[k]
      invariant forall k | 2 * i <= k < hex.Length :: hex[k] == old(hex[k])
    {
      TextAt(bin[..], i);
      hex[i * 2] := Dec2Hex(bin[i] >> 4);
      hex[i * 2 + 1] := Dec2Hex(bin[i] & 0xF);
    }
    if hex.Length >= bin.Length * 2 + 1 {
      hex[bin.Length * 2] := 0;
    }
  }

  method HexDecode(hex: array<Byte>, bin: array<Byte>)
    requires hex != bin && hex.Length >= 2 * bin.Length
    modifies bin
    ensures bin[..] == Bytes(hex[..2 * bin.Length])
  {
    var i := 0;
    while i + 1 < bin.Length * 2 + 1
      invariant 0 <= i <= 2 * bin.Length && i % 2 == 0
      invariant forall k | 0 <= k < i / 2 :: bin[k] == Bytes(hex[..2 * bin.Length])[k]
    {
      BytesAt(hex[..2 * bin.Length], i / 2);
      bin[i / 2] := Pair(hex[i], hex[i + 1]);
      i := i + 2;
    }
  }

  /** `hexEncode`: the text of `src` and a terminating zero, in a vector of its own. */
  method EncodeVector(src: array<Byte>) returns (dst: array<Byte>)
    requires src.Length * 2 < INT_MAX
    ensures fresh(dst) && dst[..] == Text(src[..]) + [0]
  {
    dst := new Byte[src.Length * 2 + 1](_ => 0);
    HexEncode(src, dst);
    assert dst[..] == dst[..2 * src.Length] + [dst[2 * src.Length]];
  }

  /** `hexDecode`: the bytes of the whole pairs of `src`. */
  method DecodeVector(src: array<Byte>) returns (dst: array<Byte>)
    requires src.Length <= INT_MAX
    ensures fresh(dst) && dst[..] == Bytes(src[..])
  {
    dst := new Byte[src.Length / 2](_ => 0);
    HexDecode(src, dst);
    OddDropped(src[..]);
    assert src[..][..2 * dst.Length] == src[..2 * dst.Length];
  }

  lemma {:induction false} OddDropped(hex: seq<Byte>)
    ensures Bytes(hex[..2 * (|hex| / 2)]) == Bytes(hex)
  {
    if |hex| >= 2 {
      OddDropped(hex[2..]);
      assert hex[..2 * (|hex| / 2)][2..] == hex[2..][..2 * (|hex[2..]| / 2)];
    }
  }

  // ----- The round trips -----

  lemma PairOfDigits(b: Byte)
    ensures Pair(Dec2Hex(b >> 4), Dec2Hex(b & 0xF)) == b
  {
  }

  /** Decoding undoes encoding, with or without the terminating zero. */
  lemma {:induction false} DecodeUndoesEncode(bin: seq<Byte>, rest: seq<Byte>)
    requires |rest| < 2
    ensures Bytes(Text(bin) + rest) == bin
  {
    if bin != [] {
      PairOfDigits(bin[0]);
      assert (Text(bin) + rest)[2..] == Text(bin[1..]) + rest;
      DecodeUndoesEncode(bin[1..], rest);
    }
  }

  lemma DigitsOfPair(high: Byte, low: Byte)
    ensures Digits(Pair(high, low)) == [Upper(high), Upper(low)] <==> IsDigit(high) && IsDigit(low)
  {
    var b := Pair(high, low);
    assert Digits(b)[0] == Dec2Hex(b >> 4) && Digits(b)[1] == Dec2Hex(b & 0xF);
    assert Dec2Hex(b >> 4) == Upper(high) && Dec2Hex(b & 0xF) == Upper(low) <==> IsDigit(high) && IsDigit(low);
  }

  /** Each character of a pair counts by itself, and one that is no digit counts as the byte it is. */
  lemma OtherCharacters(high: Byte, low: Byte)
    ensures Bytes([high, low]) == [Bytes([high, 48])[0] | Bytes([48, low])[0]]
    ensures Bytes([48, low]) == [low] <==> !IsDigit(low)
    ensures Bytes([high, 48]) == [high << 4] <==> !IsDigit(high) || 48 <= high <= 57
  {
  }

  function UpperAll(s: seq<Byte>): (r: seq<Byte>)
    ensures |r| == |s|
  {
    if s == [] then [] else [Upper(s[0])] + UpperAll(s[1..])
  }

  predicate AllDigits(s: seq<Byte>) {
    forall i | 0 <= i < |s| :: IsDigit(s[i])
  }

  lemma AllDigitsSplit(s: seq<Byte>)
    requires |s| >= 2
    ensures AllDigits(s) <==> IsDigit(s[0]) && IsDigit(s[1]) && AllDigits(s[2..])
  {
    assert forall i | 2 <= i < |s| :: s[i] == s[2..][i - 2];
  }

  lemma UpperSplit(s: seq<Byte>)
    requires |s| >= 2
    ensures UpperAll(s) == [Upper(s[0]), Upper(s[1])] + UpperAll(s[2..])
  {
    assert s[1..][1..] == s[2..];
  }

  /** Encoding a decoded text gives its upper-case form exactly when it is all digits. */
  lemma {:induction false} EncodeUndoesDecodeIff(hex: seq<Byte>)
    requires |hex| % 2 == 0
    ensures Text(Bytes(hex)) == UpperAll(hex) <==> AllDigits(hex)
  {
    if hex != [] {
      var rest, b := hex[2..], Pair(hex[0], hex[1]);
      EncodeUndoesDecodeIff(rest);
      assert Bytes(hex)[1..] == Bytes(rest);
      UpperSplit(hex);
      AllDigitsSplit(hex);
      DigitsOfPair(hex[0], hex[1]);
      HeadsAndTails(Digits(b), Text(Bytes(rest)), [Upper(hex[0]), Upper(hex[1])], UpperAll(rest));
    }
  }

  lemma HeadsAndTails(a: seq<Byte>, b: seq<Byte>, c: seq<Byte>, d: seq<Byte>)
    requires |a| == |c|
    ensures a + b == c + d <==> a == c && b == d
  {
    if a + b == c + d {
      assert a == (a + b)[..|a|] && c == (c + d)[..|a|];
      assert b == (a + b)[|a|..] && d == (c + d)[|a|..];
    }
  }
}
