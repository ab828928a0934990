/** The base64 coding of section 4 of RFC 4648: groups of three bytes as four characters. */
module Base64 {

  type Byte = b: nat | b < 256

  /** The four characters of a group, each made from the bytes it overlaps. */
  datatype Code = Code(one: Byte -> char, two: (Byte, Byte) -> char, three: (Byte, Byte) -> char, four: Byte -> char)

  function Group(a: Byte, b: Byte, c: Byte, k: Code): string {
    [k.one(a), k.two(a, b), k.three(b, c), k.four(c)]
  }

  function LastGroup(s: seq<Byte>, k: Code): string
    requires |s| < 3
  {
    if |s| == 0 then ""
    else if |s| == 1 then [k.one(s[0]), k.two(s[0], 0), '=', '=']
    else [k.one(s[0]), k.two(s[0], s[1]), k.three(s[1], 0), '=']
  }

  /** The groups of the input, the last one padded. */
  function Encoded(s: seq<Byte>, k: Code): string {
    if |s| >= 3 then Group(s[0], s[1], s[2], k) + Encoded(s[3..], k) else LastGroup(s, k)
  }

  lemma {:induction false} EncodedGrows(s: seq<Byte>, more: seq<Byte>, k: Code)
    requires |s| % 3 == 0
    ensures Encoded(s + more, k) == Encoded(s, k) + Encoded(more, k)
  {
    if s == [] {
      assert s + more == more;
    } else {
      assert (s + more)[3..] == s[3..] + more;
      EncodedGrows(s[3..], more, k);
    }
  }

  lemma {:induction false} EncodedLength(s: seq<Byte>, k: Code)
    ensures |Encoded(s, k)| == 4 * ((|s| + 2) / 3)
  {
    if |s| >= 3 {
      EncodedLength(s[3..], k);
      assert (|s| + 2) / 3 == (|s[3..]| + 2) / 3 + 1;
    }
  }

  // ----- Decoding -----

  /** The bytes of a group, each made from the two characters it overlaps. */
  datatype Decoder = Decoder(one: (char, char) -> Byte, two: (char, char) -> Byte, three: (char, char) -> Byte)

  ghost predicate GroupInverts(k: Code, d: Decoder, a: Byte, b: Byte, c: Byte) {
    && d.one(k.one(a), k.two(a, b)) == a
    && d.two(k.two(a, b), k.three(b, c)) == b
    && d.three(k.three(b, c), k.four(c)) == c
    && k.three(b, c) != '=' && k.four(c) != '='
  }

  ghost predicate Inverse(k: Code, d: Decoder) {
    forall a, b, c :: GroupInverts(k, d, a, b, c)
  }

  function FourDecoded(s: string, d: Decoder): seq<Byte>
    requires |s| >= 4
  {
    [d.one(s[0], s[1])]
    + if s[2] == '=' then [] else [d.two(s[1], s[2])] + if s[3] == '=' then [] else [d.three(s[2], s[3])]
  }

  /** The bytes of a base64 text, four characters at a time. */
  function Decoded(s: string, d: Decoder): seq<Byte>
    requires |s| % 4 == 0
  {
    if s == "" then [] else FourDecoded(s, d) + Decoded(s[4..], d)
  }

  lemma GroupDecoded(a: Byte, b: Byte, c: Byte, k: Code, d: Decoder, rest: string)
    requires Inverse(k, d)
    ensures FourDecoded(Group(a, b, c, k) + rest, d) == [a, b, c]
  {
    assert GroupInverts(k, d, a, b, c);
  }

  lemma LastGroupDecoded(s: seq<Byte>, k: Code, d: Decoder)
    requires 0 < |s| < 3 && Inverse(k, d)
    ensures FourDecoded(LastGroup(s, k), d) == s
  {
    assert GroupInverts(k, d, s[0], if |s| == 1 then 0 else s[1], 0);
  }

  lemma {:induction false} DecodedEncoded(s: seq<Byte>, k: Code, d: Decoder)
    requires Inverse(k, d)
    ensures |Encoded(s, k)| % 4 == 0 && Decoded(Encoded(s, k), d) == s
  {
    if |s| >= 3 {
      GroupDecoded(s[0], s[1], s[2], k, d, Encoded(s[3..], k));
      DecodedEncoded(s[3..], k, d);
      assert Encoded(s, k)[4..] == Encoded(s[3..], k);
      assert s == [s[0], s[1], s[2]] + s[3..];
    } else if s != [] {
      LastGroupDecoded(s, k, d);
      assert Encoded(s, k)[4..] == "";
    }
  }

  // ----- The 6-bit values and their alphabet -----

  /** The characters that stand for the values 0 to 63. */
  type Table = t: string | |t| == 64 witness seq(64, _ => 'A')

  /** `n` consecutive characters from `c` on. */
  function Run(c: char, n: nat): (r: string)
    requires c as int + n < 256
    ensures |r| == n && forall i | 0 <= i < n :: r[i] == (c as int + i) as char
  {
    seq(n, i requires 0 <= i < n => (c as int + i) as char)
  }

  const LOOKUP: Table := Run('A', 26) + Run('a', 26) + Run('0', 10) + "+/"

  function First(a: Byte): (v: nat) ensures v < 64 { a / 4 }
  function Second(a: Byte, b: Byte): (v: nat) ensures v < 64 { a % 4 * 16 + b / 16 }
  function Third(b: Byte, c: Byte): (v: nat) ensures v < 64 { b % 16 * 4 + c / 64 }
  function Fourth(c: Byte): (v: nat) ensures v < 64 { c % 64 }

  function Rfc4648(t: Table): Code {
    Code((a: Byte) => t[First(a)], (a: Byte, b: Byte) => t[Second(a, b)],
         (b: Byte, c: Byte) => t[Third(b, c)], (c: Byte) => t[Fourth(c)])
  }

  function IndexOf(c: char, t: string): (i: nat)
    ensures i <= |t| && (i < |t| ==> t[i] == c) && (i == |t| ==> c !in t)
  {
    if t == "" || t[0] == c then 0 else IndexOf(c, t[1..]) + 1
  }

  function Value(c: char, t: Table): (v: nat)
    ensures v < 64
  {
    if IndexOf(c, t) < 64 then IndexOf(c, t) else 0
  }

  function Byte1(w: nat, x: nat): Byte requires w < 64 && x < 64 { w * 4 + x / 16 }
  function Byte2(x: nat, y: nat): Byte requires x < 64 && y < 64 { x % 16 * 16 + y / 4 }
  function Byte3(y: nat, z: nat): Byte requires y < 64 && z < 64 { y % 4 * 64 + z }

  function Rfc4648Decoder(t: Table): Decoder {
    Decoder((w, x) => Byte1(Value(w, t), Value(x, t)),
            (x, y) => Byte2(Value(x, t), Value(y, t)),
            (y, z) => Byte3(Value(y, t), Value(z, t)))
  }

  /** No character stands for two values or for padding. */
  ghost predicate Proper(t: Table) {
    (forall i, j | 0 <= i < j < 64 :: t[i] != t[j]) && '=' !in t
  }

  lemma LookupIsProper()
    ensures Proper(LOOKUP)
  {
  }

  lemma ValueOf(v: nat, t: Table)
    requires v < 64 && Proper(t)
    ensures Value(t[v], t) == v && t[v] != '='
  {
  }

  lemma BytesBack(a: Byte, b: Byte, c: Byte)
    ensures Byte1(First(a), Second(a, b)) == a
    ensures Byte2(Second(a, b), Third(b, c)) == b
    ensures Byte3(Third(b, c), Fourth(c)) == c
  {
  }

  lemma GroupBack(a: Byte, b: Byte, c: Byte, t: Table)
    requires Proper(t)
    ensures GroupInverts(Rfc4648(t), Rfc4648Decoder(t), a, b, c)
  {
    ValueOf(First(a), t);
    ValueOf(Second(a, b), t);
    ValueOf(Third(b, c), t);
    ValueOf(Fourth(c), t);
    BytesBack(a, b, c);
  }

  lemma TableInverts(t: Table)
    requires Proper(t)
    ensures Inverse(Rfc4648(t), Rfc4648Decoder(t))
  {
    forall a, b, c ensures GroupInverts(Rfc4648(t), Rfc4648Decoder(t), a, b, c) {
      GroupBack(a, b, c, t);
    }
  }

  /** No input is lost in its encoding. */
  lemma RoundTrip(s: seq<Byte>)
    ensures |Encoded(s, Rfc4648(LOOKUP))| % 4 == 0
    ensures Decoded(Encoded(s, Rfc4648(LOOKUP)), Rfc4648Decoder(LOOKUP)) == s
  {
    LookupIsProper();
    TableInverts(LOOKUP);
    DecodedEncoded(s, Rfc4648(LOOKUP), Rfc4648Decoder(LOOKUP));
  }
}
