/** The chunked transfer coding as it is read, and the hexadecimal sizes in it. */
module ChunkedCoding {
  import opened Machine
  import opened Streams
  import opened Text

  const RECV_BUFSIZ: nat := 4096

  // ----- Hexadecimal sizes -----

  function LowerHexDigit(d: nat): (c: char)
    requires d < 16
    ensures IsHexDigit(c) && HexDigitValue(c) == d
  {
    if d < 10 then '0' + d as char else 'a' + (d - 10) as char
  }

  function Hex(n: nat): string {
    if n < 16 then [LowerHexDigit(n)] else Hex(n / 16) + [LowerHexDigit(n % 16)]
  }

  method FromIToHex(size: nat) returns (ret: string)
    ensures ret == Hex(size)
  {
    var n := size;
    ret := "";
    while true
      invariant Hex(size) == Hex(n) + ret
      decreases n
    {
      ret := [LowerHexDigit(n % 16)] + ret;
      n := n / 16;
      if n == 0 {
        break;
      }
    }
  }

  lemma {:induction false} HexReads(n: nat)
    ensures Hex(n) != ""
    ensures forall c | c in Hex(n) :: IsHexDigit(c)
    ensures HexNumber(Hex(n)) == n
  {
    if n >= 16 {
      HexReads(n / 16);
      assert Hex(n)[..|Hex(n)| - 1] == Hex(n / 16);
    } else {
      assert Hex(n)[..0] == "";
    }
  }

  // ----- strtoul(_, _, 16) -----

  function SkipSign(s: string): string {
    if s != "" && (s[0] == '+' || s[0] == '-') then s[1..] else s
  }

  function SkipPrefix(s: string): string {
    if |s| >= 3 && s[0] == '0' && (s[1] == 'x' || s[1] == 'X') && IsHexDigit(s[2]) then s[2..] else s
  }

  function HexRun(s: string): (r: string)
    ensures forall c | c in r :: IsHexDigit(c)
  {
    if s != "" && IsHexDigit(s[0]) then [s[0]] + HexRun(s[1..]) else ""
  }

  /** The number at the head of `s`, or nothing when no digit was found there. */
  function StrToUL(s: string): Option<nat> {
    var signed := SkipSpaces(s);
    var digits := HexRun(SkipPrefix(SkipSign(signed)));
    if digits == "" then None
    else if HexNumber(digits) > ULONG_MAX then Some(ULONG_MAX)
    else if signed[0] == '-' then Some((ULONG_MAX + 1 - HexNumber(digits)) % (ULONG_MAX + 1))
    else Some(HexNumber(digits))
  }

  lemma {:induction false} HexRunStops(digits: string, rest: string)
    requires forall c | c in digits :: IsHexDigit(c)
    requires rest == "" || !IsHexDigit(rest[0])
    ensures HexRun(digits + rest) == digits
  {
    if digits == "" {
      assert digits + rest == rest;
    } else {
      assert (digits + rest)[1..] == digits[1..] + rest;
      HexRunStops(digits[1..], rest);
    }
  }

  /** What `strtoul` makes of a sign and the digits after it. */
  function Signed(sign: string, n: nat): nat {
    if n > ULONG_MAX then ULONG_MAX else if sign == "-" then (ULONG_MAX + 1 - n) % (ULONG_MAX + 1) else n
  }

  /** Any number of blanks, a sign and a prefix, of which all may be missing, then digits and then anything. */
  lemma NumberReads(blanks: string, sign: string, prefix: string, digits: string, rest: string)
    requires Blanks(blanks)
    requires sign in {"", "+", "-"} && prefix in {"", "0x", "0X"}
    requires digits != "" && (forall c | c in digits :: IsHexDigit(c)) && (rest == "" || !IsHexDigit(rest[0]))
    requires prefix == "" && digits == "0" && |rest| >= 2 && rest[0] in "xX" ==> !IsHexDigit(rest[1])
    ensures StrToUL(blanks + (sign + (prefix + (digits + rest)))) == Some(Signed(sign, HexNumber(digits)))
  {
    var number := prefix + (digits + rest);
    var signed := sign + number;
    assert digits[0] in digits;
    assert number[0] == if prefix == "" then digits[0] else '0';
    SpacesSkipped(blanks, signed);
    assert SkipSign(signed) == number;
    PrefixSkipped(prefix, digits, rest);
    HexRunStops(digits, rest);
  }

  lemma PrefixSkipped(prefix: string, digits: string, rest: string)
    requires prefix in {"", "0x", "0X"}
    requires digits != "" && (forall c | c in digits :: IsHexDigit(c)) && (rest == "" || !IsHexDigit(rest[0]))
    requires prefix == "" && digits == "0" && |rest| >= 2 && rest[0] in "xX" ==> !IsHexDigit(rest[1])
    ensures SkipPrefix(prefix + (digits + rest)) == digits + rest
  {
    var s := digits + rest;
    if prefix == "" {
      assert prefix + s == s;
      if |digits| > 1 {
        assert s[1] == digits[1] && digits[1] in digits;
      } else if |s| >= 3 {
        assert s[1] == rest[0] && s[2] == rest[1] && digits == [digits[0]];
      }
    } else {
      assert (prefix + s)[2..] == s && (prefix + s)[2] == digits[0] && digits[0] in digits;
    }
  }

  /** Without a digit after the blanks and the sign there is no number. */
  lemma NoNumber(blanks: string, sign: string, rest: string)
    requires Blanks(blanks)
    requires sign in {"", "+", "-"} && (rest == "" || !IsHexDigit(rest[0]))
    requires sign == "" && rest != "" ==> !IsSpace(rest[0]) && rest[0] !in "+-"
    ensures StrToUL(blanks + (sign + rest)).None?
  {
    SpacesSkipped(blanks, sign + rest);
    assert SkipSign(sign + rest) == rest;
  }

  lemma SizeLineReads(n: nat)
    requires n <= ULONG_MAX
    ensures StrToUL(Hex(n) + CRLF) == Some(n)
  {
    HexReads(n);
    HexRunStops(Hex(n), CRLF);
    var s := Hex(n) + CRLF;
    assert IsHexDigit(s[0]);
    assert IsHexDigit(s[1]) || s[1] == '\r';
  }

  /** What C sees of a buffer: the bytes before the first zero. */
  function CString(s: string): string {
    if s == "" || s[0] == '\0' then "" else [s[0]] + CString(s[1..])
  }

  lemma {:induction false} NoZeroByte(s: string)
    requires '\0' !in s
    ensures CString(s) == s
  {
    if s != "" {
      NoZeroByte(s[1..]);
    }
  }

  // ----- Reading -----

  /** The result, the content handed to the receiver, and what is left unread. */
  datatype Decoded = Decoded(ok: bool, body: string, rest: string)

  function Prepend(body: string, d: Decoded): Decoded {
    Decoded(d.ok, body + d.body, d.rest)
  }

  /** Reading a chunked body whose next chunk-size line starts `s`. */
  function ReadChunks(s: string): Decoded
    decreases |s|
  {
    if s == "" then Decoded(false, "", "")
    else
      match StrToUL(CString(Line(s)))
      case None => Decoded(false, "", AfterLine(s))
      case Some(n) =>
        if n == ULONG_MAX then Decoded(false, "", AfterLine(s))
        else if n == 0 then ReadTerminator(AfterLine(s))
        else ReadChunk(AfterLine(s), n)
  }

  function ReadTerminator(s: string): Decoded {
    if s == "" then Decoded(false, "", "") else Decoded(CString(Line(s)) == CRLF, "", AfterLine(s))
  }

  /**
   * A chunk of `n` bytes, its line end, and the chunks after it. A chunk that is
   * not followed by an empty line ends the body as if it were complete.
   */
  function ReadChunk(s: string, n: nat): Decoded
    requires n > 0
    decreases |s|
  {
    if |s| < n then Decoded(false, s, "")
    else if |s| == n then Decoded(false, s, "")
    else
      var after := s[n..];
      if CString(Line(after)) != CRLF then Decoded(true, s[..n], AfterLine(after))
      else Prepend(s[..n], ReadChunks(AfterLine(after)))
  }

  lemma ChunkCutShort(s: string, n: nat, data: string)
    requires n > 0 && |data| <= n && s == data
    ensures ReadChunk(s, n) == Decoded(false, data, "")
  {
  }

  lemma ChunkTaken(s: string, n: nat, data: string, after: string)
    requires n > 0 && |data| == n && s == data + after && after != ""
    ensures ReadChunk(s, n) ==
            if CString(Line(after)) != CRLF then Decoded(true, data, AfterLine(after))
            else Prepend(data, ReadChunks(AfterLine(after)))
  {
    assert s[..n] == data && s[n..] == after;
  }

  lemma PrependTwice(a: string, b: string, d: Decoded)
    ensures Prepend(a, Prepend(b, d)) == Prepend(a + b, d)
  {
    assert a + (b + d.body) == a + b + d.body;
  }

  /** `taken` has been read from `s` and `rest` is left. */
  ghost predicate Split(s: string, taken: string, rest: string) {
    s == taken + rest
  }

  lemma SplitMore(s: string, taken: string, data: string, rest: string)
    requires Split(s, taken, data + rest)
    ensures Split(s, taken + data, rest)
  {
    assert taken + (data + rest) == taken + data + rest;
  }

  /** Hands `len` bytes to the receiver, in pieces of any size, unless it refuses one. */
  method ReadContentWithLength(strm: SocketStream, len: nat) returns (ok: bool, refused: bool, out: string)
    requires strm.Valid()
    modifies strm, strm.buff
    ensures strm.Valid()
    ensures Split(old(strm.Remaining()), out, strm.Remaining()) && |out| <= len
    ensures strm.failures >= old(strm.failures)
    ensures ok ==> |out| == len && strm.failures == old(strm.failures) && !refused
    ensures !ok && !refused ==> |out| < len
    ensures !ok && !refused && strm.failures == old(strm.failures) ==> strm.Remaining() == ""
    ensures refused ==> strm.failures == old(strm.failures)
  {
    out := "";
    ghost var all := strm.Remaining();
    while |out| < len
      invariant strm.Valid() && |out| <= len
      invariant Split(all, out, strm.Remaining())
      invariant strm.failures == old(strm.failures)
    {
      var n, data := strm.Read(Min(len - |out|, RECV_BUFSIZ));
      SplitMore(all, out, data, strm.Remaining());
      if n <= 0 {
        assert out + data == out;
        return false, false, out;
      }
      out := out + data;
      if * {
        return false, true, out;
      }
    }
    return true, false, out;
  }

  /** What has been read of a chunk is the beginning of its content. */
  lemma ContentBegins(s: string, n: nat, data: string, rest: string)
    requires n > 0 && Split(s, data, rest) && |data| <= n
    ensures data <= ReadChunk(s, n).body
  {
    if |s| > n {
      assert data == s[..|data|] == s[..n][..|data|];
      assert s[..n] <= ReadChunk(s, n).body;
    }
  }

  /** The part of the reading loop that follows a chunk-size line of `n`. */
  method ReadOneChunk(reader: LineReader, n: nat) returns (ok: bool, refused: bool, more: bool, data: string)
    requires reader.Valid() && n > 0
    modifies reader, reader.fixedBuffer, reader.strm, reader.strm.buff
    ensures reader.Valid() && reader.strm.failures >= old(reader.strm.failures)
    ensures var strm, s := reader.strm, old(reader.strm.Remaining());
            if refused || strm.failures != old(strm.failures) then !ok && !more && data <= ReadChunk(s, n).body
            else if more then
              |strm.Remaining()| < |s| && ReadChunk(s, n) == Prepend(data, ReadChunks(strm.Remaining()))
            else ReadChunk(s, n) == Decoded(ok, data, strm.Remaining())
  {
    var strm := reader.strm;
    ghost var s := strm.Remaining();
    more := false;
    ok, refused, data := ReadContentWithLength(strm, n);
    ContentBegins(s, n, data, strm.Remaining());
    if !ok {
      if !refused && strm.failures == old(strm.failures) {
        ChunkCutShort(s, n, data);
      }
      return;
    }
    ghost var after := strm.Remaining();
    ok := reader.GetLine();
    if !ok {
      if strm.failures == old(strm.failures) {
        ChunkCutShort(s, n, data);
      }
      return;
    }
    ChunkTaken(s, n, data, after);
    more := CString(reader.Text()) == CRLF;
  }

  /** The empty line after the last chunk. */
  method ReadLastLine(reader: LineReader) returns (ok: bool)
    requires reader.Valid()
    modifies reader, reader.fixedBuffer, reader.strm, reader.strm.buff
    ensures reader.Valid()
    ensures var strm := reader.strm;
            if strm.failures != old(strm.failures) then strm.failures > old(strm.failures) && !ok
            else ReadTerminator(old(reader.strm.Remaining())) == Decoded(ok, "", strm.Remaining())
  {
    ok := reader.GetLine();
    if ok {
      ok := CString(reader.Text()) == CRLF;
    }
  }

  /** How a reading of a chunked body `s` ended: by a failed read or a refusal, with some of the content, or as
      the bytes demand. */
  ghost predicate ReadsAs(s: string, broken: bool, ok: bool, out: string, rest: string) {
    if broken then !ok && out <= ReadChunks(s).body else Decoded(ok, out, rest) == ReadChunks(s)
  }

  lemma PrefixGrows(out: string, data: string, body: string, d: Decoded)
    requires data <= body && d.body == out + body
    ensures out + data <= d.body
  {
  }

  /**
   * Reads a chunked body. Unless a read fails or the receiver refuses, the outcome depends only on the bytes and
   * not on the sizes in which they arrive; and in any case the receiver is given nothing but the content.
   */
  method ReadContentChunked(strm: SocketStream) returns (ok: bool, refused: bool, out: string)
    requires strm.Valid()
    modifies strm, strm.buff
    ensures strm.Valid() && strm.failures >= old(strm.failures)
    ensures ReadsAs(old(strm.Remaining()), refused || strm.failures > old(strm.failures), ok, out, strm.Remaining())
  {
    var fixedBuffer := new char[16];
    var reader := new LineReader(strm, fixedBuffer);
    ghost var s := strm.Remaining();
    ghost var whole := ReadChunks(s);
    out, refused := "", false;
    ok := reader.GetLine();
    if !ok {
      return;
    }
    while true
      invariant reader.Valid() && strm.failures == old(strm.failures) && !refused
      invariant Taken(s, reader.Text(), strm.Remaining())
      invariant whole == Prepend(out, ReadChunks(s))
      decreases |strm.Remaining()|
    {
      var size := StrToUL(CString(reader.Text()));
      if size.None? || size.value == ULONG_MAX {
        ok := false;
        return;
      }
      if size.value == 0 {
        ok := ReadLastLine(reader);
        return;
      }
      var more, data;
      ok, refused, more, data := ReadOneChunk(reader, size.value);
      PrependTwice(out, data, ReadChunks(strm.Remaining()));
      if refused || strm.failures > old(strm.failures) {
        PrefixGrows(out, data, ReadChunks(s).body, whole);
      }
      out := out + data;
      if !more {
        return;
      }
      s := strm.Remaining();
      ok := reader.GetLine();
      if !ok {
        return;
      }
    }
  }
}
