/** The base64 encoder, which keeps its bits in a 32-bit accumulator. */
module Base64Encoder {
  import opened Base64

  // ----- The accumulator -----

  const TWO_31: int := 0x8000_0000
  const TWO_32: int := 0x1_0000_0000

  /** A value as it is kept in a 32-bit `int`. */
  function Wrap(x: int): (r: int)
    ensures -TWO_31 <= r < TWO_31
  {
    (x + TWO_31) % TWO_32 - TWO_31
  }

  function Pow2(n: nat): (r: nat)
    ensures r > 0
  {
    if n == 0 then 1 else 2 * Pow2(n - 1)
  }

  /** `(val >> shift) & 0x3F` */
  function Bits(val: int, shift: nat): (r: nat)
    ensures r < 64
  {
    val / Pow2(shift) % 64
  }

  lemma Wraps(x: int) returns (k: int)
    ensures Wrap(x) == x + 64 * 64 * k
  {
    k := -((x + TWO_31) / TWO_32) * 0x10_0000;
  }

  lemma Mod64(q: int, k: int)
    ensures (q + 64 * k) % 64 == q % 64
  {
  }

  lemma Mod16(q: int, k: int)
    ensures (q + 16 * k) % 16 == q % 16
  {
  }

  lemma Mod4(q: int, k: int)
    ensures (q + 4 * k) % 4 == q % 4
  {
  }

  /** The wrap-around is above the bits that are ever looked at. */
  lemma WrapKeepsBits(x: int)
    ensures Wrap(x) % 4 == x % 4 && Wrap(x) % 16 == x % 16
    ensures Bits(Wrap(x), 0) == x % 64
    ensures Bits(Wrap(x), 2) == x / 4 % 64
    ensures Bits(Wrap(x), 4) == x / 16 % 64
    ensures Bits(Wrap(x), 6) == x / 64 % 64
  {
    var k := Wraps(x);
    assert Pow2(0) == 1 && Pow2(2) == 4 && Pow2(4) == 16 && Pow2(6) == 64;
    Mod16(x, 4 * 64 * k);
    Mod4(x, 16 * 64 * k);
    Mod64(x, 64 * k);
    assert (x + 64 * 64 * k) / 4 == x / 4 + 64 * (16 * k);
    Mod64(x / 4, 16 * k);
    assert (x + 64 * 64 * k) / 16 == x / 16 + 64 * (4 * k);
    Mod64(x / 16, 4 * k);
    assert (x + 64 * 64 * k) / 64 == x / 64 + 64 * k;
    Mod64(x / 64, k);
  }

  lemma HighBits(val: int, c: Byte)
    ensures (val * 256 + c) / 4 % 64 == c / 4
    ensures (val * 256 + c) % 64 == c % 64
  {
    assert (val * 256 + c) / 4 == c / 4 + 64 * val;
    Mod64(c / 4, val);
    Mod64(c, 4 * val);
  }

  lemma MiddleBits(val: int, c: Byte)
    ensures (val * 256 + c) / 16 % 64 == val % 4 * 16 + c / 16
  {
    assert (val * 256 + c) / 16 == val % 4 * 16 + c / 16 + 64 * (val / 4);
    Mod64(val % 4 * 16 + c / 16, val / 4);
  }

  lemma LowBits(val: int, c: Byte)
    ensures (val * 256 + c) / 64 % 64 == val % 16 * 4 + c / 64
  {
    assert (val * 256 + c) / 64 == val % 16 * 4 + c / 64 + 64 * (val / 16);
    Mod64(val % 16 * 4 + c / 64, val / 16);
  }

  /** The bits of `s` that `val` still has to send, where `s` has begun a group. */
  ghost predicate Pending(s: seq<Byte>, val: int) {
    && |s| < 3
    && (|s| == 1 ==> val % 4 == s[0] % 4)
    && (|s| == 2 ==> val % 16 == s[1] % 16)
  }

  /** What the accumulator holds when byte `c` has entered after `s`. */
  lemma ByteEnters(s: seq<Byte>, val: int, c: Byte)
    requires Pending(s, val)
    ensures var val' := Wrap(val * 256 + c);
            && (|s| < 2 ==> Pending(s + [c], val'))
            && (|s| == 0 ==> Bits(val', 2) == First(c))
            && (|s| == 1 ==> Bits(val', 4) == Second(s[0], c))
            && (|s| == 2 ==> Bits(val', 6) == Third(s[1], c) && Bits(val', 0) == Fourth(c))
  {
    WrapKeepsBits(val * 256 + c);
    Mod16(c, 16 * val);
    Mod4(c, 64 * val);
    HighBits(val, c);
    MiddleBits(val, c);
    LowBits(val, c);
  }

  // ----- Whole groups and the group that has begun -----

  /** The characters of a begun group that are known before it is complete. */
  function Begun(s: seq<Byte>, k: Code): string
    requires |s| < 3
  {
    if |s| == 0 then "" else if |s| == 1 then [k.one(s[0])] else [k.one(s[0]), k.two(s[0], s[1])]
  }

  /** The characters that byte `c` completes after `s`. */
  function Added(s: seq<Byte>, c: Byte, k: Code): string
    requires |s| < 3
  {
    if |s| == 0 then [k.one(c)] else if |s| == 1 then [k.two(s[0], c)] else [k.three(s[1], c), k.four(c)]
  }

  /** `out` is what has been sent of the complete groups `full` and of `tail` after them. */
  ghost predicate Sent(full: seq<Byte>, tail: seq<Byte>, out: string, k: Code) {
    |full| % 3 == 0 && |tail| < 3 && out == Encoded(full, k) + Begun(tail, k)
  }

  /** Where byte `c` goes: the group that has begun, which it may complete. */
  function Completed(full: seq<Byte>, tail: seq<Byte>, c: Byte): (seq<Byte>, seq<Byte>) {
    if |tail| < 2 then (full, tail + [c]) else (full + (tail + [c]), [])
  }

  lemma ByteSent(full: seq<Byte>, tail: seq<Byte>, out: string, c: Byte, k: Code)
    requires Sent(full, tail, out, k)
    ensures var (full', tail') := Completed(full, tail, c);
            full' + tail' == full + tail + [c] && Sent(full', tail', out + Added(tail, c, k), k)
  {
    if |tail| == 2 {
      EncodedGrows(full, tail + [c], k);
      assert (tail + [c])[3..] == [];
      assert Encoded(tail + [c], k) == Begun(tail, k) + Added(tail, c, k);
    }
  }

  /** `out` lacks only padding. */
  ghost predicate LacksPadding(out: string, e: string) {
    && |e| % 4 == 0 && |out| <= |e| < |out| + 4
    && out == e[..|out|] && forall i | |out| <= i < |e| :: e[i] == '='
  }

  /** The character for the bits that are left over at the end. */
  function LeftOver(tail: seq<Byte>, k: Code): string
    requires |tail| < 3
  {
    if |tail| == 0 then "" else if |tail| == 1 then [k.two(tail[0], 0)] else [k.three(tail[1], 0)]
  }

  lemma LeftOverSent(full: seq<Byte>, tail: seq<Byte>, out: string, k: Code)
    requires Sent(full, tail, out, k)
    ensures LacksPadding(out + LeftOver(tail, k), Encoded(full + tail, k))
  {
    EncodedGrows(full, tail, k);
    EncodedLength(full, k);
    assert Encoded(tail, k) == LastGroup(tail, k);
  }

  // ----- The encoder -----

  /** The characters sent while `valb` is not negative. */
  function Sextets(val: int, valb: int, t: Table): string
    decreases valb + 6
  {
    if valb < 0 then "" else [t[Bits(val, valb)]] + Sextets(val, valb - 6, t)
  }

  /** The inner loop of the encoder. */
  method SendSextets(sent: string, val: int, start: int, lookup: Table) returns (out: string, valb: int)
    requires 0 <= start <= 6
    ensures out == sent + Sextets(val, start, lookup)
    ensures valb == if start == 6 then -6 else start - 6
  {
    out, valb := sent, start;
    while valb >= 0
      invariant -6 <= valb <= start && (start - valb) % 6 == 0
      invariant out + Sextets(val, valb, lookup) == sent + Sextets(val, start, lookup)
    {
      out := out + [lookup[Bits(val, valb)]];
      valb := valb - 6;
    }
  }

  lemma SextetsAdded(tail: seq<Byte>, val: int, c: Byte, t: Table)
    requires Pending(tail, val)
    ensures Sextets(Wrap(val * 256 + c), 2 * |tail| + 2, t) == Added(tail, c, Rfc4648(t))
    ensures |tail| < 2 ==> Pending(tail + [c], Wrap(val * 256 + c))
  {
    ByteEnters(tail, val, c);
  }

  lemma LeftOverBits(tail: seq<Byte>, val: int, t: Table)
    requires Pending(tail, val) && tail != []
    ensures [t[Bits(Wrap(val * 256), 2 * |tail| + 2)]] == LeftOver(tail, Rfc4648(t))
  {
    ByteEnters(tail, val, 0);
  }

  method Base64Encode(input: seq<Byte>) returns (out: string)
    ensures out == Encoded(input, Rfc4648(LOOKUP))
  {
    out := EncodeWith(input, LOOKUP, Rfc4648(LOOKUP));
  }

  method EncodeWith(input: seq<Byte>, lookup: Table, ghost k: Code) returns (out: string)
    requires k == Rfc4648(lookup)
    ensures out == Encoded(input, k)
  {
    out := "";
    var val, valb := 0, -6;
    ghost var full, tail: seq<Byte> := [], [];
    for i := 0 to |input|
      invariant full + tail == input[..i] && Sent(full, tail, out, k)
      invariant Pending(tail, val) && valb == 2 * |tail| - 6
    {
      assert input[..i + 1] == input[..i] + [input[i]];
      ByteSent(full, tail, out, input[i], k);
      SextetsAdded(tail, val, input[i], lookup);
      val := Wrap(val * 256 + input[i]);
      valb := valb + 8;
      out, valb := SendSextets(out, val, valb, lookup);
      ghost var grown := Completed(full, tail, input[i]);
      full, tail := grown.0, grown.1;
    }
    assert input[..|input|] == input;
    LeftOverSent(full, tail, out, k);
    if valb > -6 {
      LeftOverBits(tail, val, lookup);
      out := out + [lookup[Bits(Wrap(val * 256), valb + 8)]];
    }
    out := Pad(out, Encoded(input, k));
  }

  method Pad(text: string, ghost e: string) returns (out: string)
    requires LacksPadding(text, e)
    ensures out == e
  {
    out := text;
    while |out| % 4 != 0
      invariant LacksPadding(out, e)
      decreases |e| - |out|
    {
      out := out + ['='];
    }
  }
}
