/** The length and the bytes of a multipart/byteranges body. */
module RangesData {
  import opened Machine
  import opened Ranges
  import opened Streams
  import opened Text

  /** A value as a `size_t`. */
  function Size(x: int): (r: nat)
    ensures r < TWO_64
  {
    x % TWO_64
  }

  /** A `size_t` as a `ssize_t`. */
  function Ssize(x: nat): int {
    if x <= SSIZE_MAX then x else x - TWO_64
  }

  /** The first byte and the number of bytes a range asks for. */
  datatype Extent = Extent(offset: nat, length: nat)

  function ExtentOf(r: Range, contentLength: nat): Extent {
    if r.first == -1 && r.last == -1 then Extent(0, contentLength)
    else
      var slen := Ssize(contentLength);
      var first := if r.first != -1 then r.first else if slen - r.last < 0 then 0 else slen - r.last;
      var last := if r.first == -1 || r.last == -1 then slen - 1 else r.last;
      Extent(Size(first), Size(Size(last - first) + 1))
  }

  // ----- The body -----

  datatype Framing = Framing(boundary: string, contentType: string, bodySize: nat)

  function ContentRange(e: Extent, contentLength: nat): string {
    "bytes " + Dec(e.offset) + "-" + Dec(Size(e.offset + e.length - 1)) + "/" + Dec(contentLength)
  }

  function HeadTokens(r: Range, f: Framing): seq<string> {
    ["--", f.boundary, CRLF]
    + (if f.contentType == "" then [] else ["Content-Type: ", f.contentType, CRLF])
    + ["Content-Range: ", ContentRange(ExtentOf(r, f.bodySize), f.bodySize), CRLF, CRLF]
  }

  function EndTokens(f: Framing): seq<string> {
    ["--", f.boundary, "--\r\n"]
  }

  function Flat(tokens: seq<string>): string {
    if tokens == [] then "" else Flat(tokens[..|tokens| - 1]) + tokens[|tokens| - 1]
  }

  function Part(r: Range, content: string, f: Framing): string {
    Flat(HeadTokens(r, f)) + content + CRLF
  }

  function Parts(ranges: seq<Range>, contents: seq<string>, f: Framing): string
    requires |ranges| == |contents|
  {
    if ranges == [] then ""
    else
      var k := |ranges| - 1;
      Parts(ranges[..k], contents[..k], f) + Part(ranges[k], contents[k], f)
  }

  function RangesText(ranges: seq<Range>, contents: seq<string>, f: Framing): string
    requires |ranges| == |contents|
  {
    Parts(ranges, contents, f) + Flat(EndTokens(f))
  }

  // ----- Its length -----

  function PartLength(r: Range, f: Framing): nat {
    |Flat(HeadTokens(r, f))| + ExtentOf(r, f.bodySize).length + |CRLF|
  }

  function PartsLength(ranges: seq<Range>, f: Framing): nat {
    if ranges == [] then 0 else PartsLength(ranges[..|ranges| - 1], f) + PartLength(ranges[|ranges| - 1], f)
  }

  /** The number of bytes announced, before it is kept in a `size_t`. */
  function Counted(ranges: seq<Range>, f: Framing): nat {
    PartsLength(ranges, f) + |Flat(EndTokens(f))|
  }

  lemma SizeAdds(x: int, y: int)
    ensures Size(Size(x) + y) == Size(x + y)
  {
    var q := x / TWO_64;
    assert x == q * TWO_64 + Size(x);
    SizeShift(Size(x) + y, q);
  }

  lemma SizeShift(x: int, q: int)
    ensures Size(x + q * TWO_64) == Size(x)
  {
  }

  method CountTokens(before: nat, tokens: seq<string>) returns (n: nat)
    ensures n == Size(before + |Flat(tokens)|)
  {
    n := Size(before);
    for i := 0 to |tokens|
      invariant n == Size(before + |Flat(tokens[..i])|)
    {
      assert tokens[..i + 1][..i] == tokens[..i];
      SizeAdds(before + |Flat(tokens[..i])|, |tokens[i]|);
      n := Size(n + |tokens[i]|);
    }
    assert tokens[..|tokens|] == tokens;
  }

  method GetMultipartRangesDataLength(ranges: seq<Range>, f: Framing) returns (n: nat)
    ensures n == Size(Counted(ranges, f))
  {
    n := 0;
    for i := 0 to |ranges|
      invariant n == Size(PartsLength(ranges[..i], f))
    {
      assert ranges[..i + 1][..i] == ranges[..i];
      ghost var counted := PartsLength(ranges[..i], f);
      n := CountPart(n, counted, ranges[i], f);
    }
    assert ranges[..|ranges|] == ranges;
    ghost var end := |Flat(EndTokens(f))|;
    SizeAdds(PartsLength(ranges, f), end);
    n := CountTokens(n, EndTokens(f));
  }

  method CountPart(before: nat, ghost counted: nat, r: Range, f: Framing) returns (n: nat)
    requires before == Size(counted)
    ensures n == Size(counted + PartLength(r, f))
  {
    n := CountTokens(before, HeadTokens(r, f));
    ghost var head, length := |Flat(HeadTokens(r, f))|, ExtentOf(r, f.bodySize).length;
    SizeAdds(counted, head);
    SizeAdds(counted + head, length);
    n := Size(n + ExtentOf(r, f.bodySize).length);
    SizeAdds(counted + head + length, |CRLF|);
    n := Size(n + |CRLF|);
  }

  // ----- Writing it -----

  /** How much `write_content` sends: nothing when the end of the range wraps around. */
  function Sends(e: Extent): nat {
    if e.offset + e.length < TWO_64 then e.length else 0
  }

  /**
   * One call of the content provider, which is asked for `most` bytes and makes any writes it likes. `modest` is
   * whether it never offers more than it was asked for.
   */
  method Provide(strm: OutputStream, most: nat) returns (ok: bool, sent: nat, ghost content: string, ghost modest: bool)
    modifies strm
    ensures strm.failures >= old(strm.failures) && ok == (strm.failures == old(strm.failures))
    ensures strm.output == old(strm.output) + content && (ok ==> |content| == sent)
    ensures modest ==> |content| <= most
  {
    ghost var before := strm.output;
    ok, sent, content, modest := true, 0, "", true;
    var writes: nat :| true;
    for i := 0 to writes
      invariant strm.failures >= old(strm.failures) && ok == (strm.failures == old(strm.failures))
      invariant strm.output == before + content && (ok ==> |content| == sent) && (modest ==> |content| <= most)
    {
      var piece: string := *;
      if ok {
        modest := modest && |piece| <= most - sent;
        ok := strm.IsWritable();
        if ok {
          ok := strm.WriteData(piece);
          if ok {
            sent := sent + |piece|;
          }
        }
        content := Sent(before, content, piece, strm.output);
      }
    }
  }

  /** What has been sent after a part of `piece`, or all of it. */
  lemma Sent(before: string, content: string, piece: string, out: string) returns (more: string)
    requires before + content <= out <= before + content + piece
    ensures out == before + more && |content| <= |more| <= |content| + |piece|
    ensures out == before + content + piece ==> |more| == |content| + |piece|
  {
    more := out[|before|..];
  }

  /**
   * Asks the content provider for the rest of the range until it is complete, or the provider gives up, or the
   * stream cannot be written, or the server is shutting down, after `turns` calls at the latest.
   */
  method WriteContent(strm: OutputStream, e: Extent, turns: nat)
    returns (ok: bool, stopped: bool, ghost content: string, ghost modest: bool)
    requires e.length < TWO_64 && e.offset < TWO_64
    modifies strm
    ensures strm.failures >= old(strm.failures) && (strm.failures > old(strm.failures) ==> !ok)
    ensures strm.output == old(strm.output) + content && (modest ==> |content| <= Sends(e))
    ensures ok && !stopped ==> |content| >= Sends(e)
  {
    content, modest := "", true;
    var offset, left := e.offset, turns;
    var endOffset := Size(offset + e.length);
    while offset < endOffset
      invariant strm.failures == old(strm.failures)
      invariant e.offset <= offset && |content| == offset - e.offset
      invariant strm.output == old(strm.output) + content && (modest ==> |content| <= Sends(e))
      decreases left
    {
      var shuttingDown := *;
      if shuttingDown || left == 0 {
        return true, true, content, modest;
      }
      left := left - 1;
      ok := strm.IsWritable();
      if !ok {
        return ok, false, content, modest;
      }
      ghost var piece, fits;
      var sent;
      ok, sent, piece, fits := Provide(strm, endOffset - offset);
      Assoc(old(strm.output), content, piece);
      offset, content, modest := offset + sent, content + piece, modest && fits;
      var given := *;
      if !given || !ok {
        return false, false, content, modest;
      }
    }
    return true, false, content, modest;
  }

  /** Writes tokens without looking at the results; `whole` is whether the stream took all of each. */
  method WriteTokens(strm: OutputStream, tokens: seq<string>) returns (ghost whole: bool)
    modifies strm
    ensures strm.failures >= old(strm.failures)
    ensures whole ==> strm.failures == old(strm.failures) && strm.output == old(strm.output) + Flat(tokens)
  {
    whole := true;
    for i := 0 to |tokens|
      invariant strm.failures >= old(strm.failures)
      invariant whole ==> strm.failures == old(strm.failures) && strm.output == old(strm.output) + Flat(tokens[..i])
    {
      assert tokens[..i + 1][..i] == tokens[..i];
      var n := strm.Send(tokens[i]);
      whole := whole && n == |tokens[i]|;
      assert n == |tokens[i]| ==> tokens[i][..n] == tokens[i];
    }
    assert tokens[..|tokens|] == tokens;
  }

  ghost predicate Complete(ranges: seq<Range>, contents: seq<string>, f: Framing) {
    |ranges| == |contents| && forall i | 0 <= i < |ranges| :: |contents[i]| == Sends(ExtentOf(ranges[i], f.bodySize))
  }

  /** `smooth` is whether the stream took every token whole, the provider kept to what it was asked for and the
      server was not shutting down. */
  method WritePart(strm: OutputStream, r: Range, f: Framing, turns: nat)
    returns (ok: bool, ghost smooth: bool, ghost content: string)
    requires f.bodySize < TWO_64
    modifies strm
    ensures ok && smooth ==>
              && strm.output == old(strm.output) + Part(r, content, f)
              && |content| == Sends(ExtentOf(r, f.bodySize))
  {
    ghost var before := strm.output;
    ghost var head := WriteTokens(strm, HeadTokens(r, f));
    var stopped;
    ghost var modest;
    ok, stopped, content, modest := WriteContent(strm, ExtentOf(r, f.bodySize), turns);
    smooth := false;
    if ok {
      ghost var tail := WriteTokens(strm, [CRLF]);
      smooth := head && modest && !stopped && tail;
      assert Flat([CRLF]) == CRLF by {
        assert [CRLF][..0] == [];
      }
      PartText(before, r, content, f);
    }
  }

  lemma PartText(before: string, r: Range, content: string, f: Framing)
    ensures before + Flat(HeadTokens(r, f)) + content + CRLF == before + Part(r, content, f)
  {
    Assoc(before, Flat(HeadTokens(r, f)), content);
    Assoc(before, Flat(HeadTokens(r, f)) + content, CRLF);
  }

  /** `out` is `before` followed by the first `i` parts, with these contents. */
  ghost predicate PartsSent(before: string, ranges: seq<Range>, i: nat, contents: seq<string>,
                            f: Framing, out: string) {
    && i <= |ranges| && |contents| == i && Complete(ranges[..i], contents, f)
    && out == before + Parts(ranges[..i], contents, f)
  }

  /**
   * Writes the body. On a stream that takes every token whole, with a provider that keeps to what it is asked for
   * and without a shutdown, what is written has the length announced exactly when it fits a `size_t` and the
   * lengths of the ranges that wrap around cancel out.
   */
  method WriteMultipartRangesData(strm: OutputStream, ranges: seq<Range>, f: Framing, turns: nat)
    returns (ok: bool, ghost smooth: bool, ghost contents: seq<string>)
    requires f.bodySize < TWO_64
    modifies strm
    ensures ok && smooth ==>
              && Complete(ranges, contents, f)
              && strm.output == old(strm.output) + RangesText(ranges, contents, f)
    ensures ok && smooth ==>
              (|strm.output| - |old(strm.output)| == Size(Counted(ranges, f)) <==> AnnouncesRight(ranges, f))
  {
    contents, smooth := [], true;
    ghost var before := strm.output;
    for i := 0 to |ranges|
      invariant smooth ==> PartsSent(before, ranges, i, contents, f, strm.output)
    {
      ghost var content, sent, part := "", strm.output, true;
      ok, part, content := WritePart(strm, ranges[i], f, turns);
      if !ok {
        return;
      }
      if smooth && part {
        PartSent(before, ranges, i, contents, f, sent, content);
      }
      smooth, contents := smooth && part, contents + [content];
    }
    ghost var parts := strm.output;
    ghost var end := WriteTokens(strm, EndTokens(f));
    if smooth && end {
      BodySent(before, ranges, contents, f, parts);
    }
    return true, smooth && end, contents;
  }

  lemma PartSent(before: string, ranges: seq<Range>, i: nat, contents: seq<string>, f: Framing, out: string,
                 content: string)
    requires i < |ranges| && PartsSent(before, ranges, i, contents, f, out)
    requires |content| == Sends(ExtentOf(ranges[i], f.bodySize))
    ensures PartsSent(before, ranges, i + 1, contents + [content], f, out + Part(ranges[i], content, f))
  {
    PartsGrow(before, ranges, i, contents, content, f);
  }

  lemma BodySent(before: string, ranges: seq<Range>, contents: seq<string>, f: Framing, out: string)
    requires PartsSent(before, ranges, |ranges|, contents, f, out)
    ensures Complete(ranges, contents, f) && out + Flat(EndTokens(f)) == before + RangesText(ranges, contents, f)
    ensures |RangesText(ranges, contents, f)| == Size(Counted(ranges, f)) <==> AnnouncesRight(ranges, f)
  {
    assert ranges[..|ranges|] == ranges;
    Assoc(before, Parts(ranges, contents, f), Flat(EndTokens(f)));
    LengthIsWrittenIff(ranges, contents, f);
  }

  lemma PartsGrow(before: string, ranges: seq<Range>, i: nat, contents: seq<string>, content: string, f: Framing)
    requires i < |ranges| && |contents| == i
    ensures before + Parts(ranges[..i + 1], contents + [content], f) ==
            before + Parts(ranges[..i], contents, f) + Part(ranges[i], content, f)
  {
    assert ranges[..i + 1][..i] == ranges[..i] && (contents + [content])[..i] == contents;
  }

  // ----- What a range asks for -----

  /** The bytes a range names in a content of `n` bytes, as section 14.1.2 of RFC 9110 defines it. */
  function Resolved(r: Range, n: nat): Range {
    if r.first == -1 && r.last == -1 then Range(0, n - 1)
    else if r.first == -1 then Range(if r.last > n then 0 else n - r.last, n - 1)
    else if r.last == -1 then Range(r.first, n - 1)
    else r
  }

  /** A range that names at least one byte has that extent, and the part announces those bytes. */
  lemma ExtentIsResolved(r: Range, n: nat)
    requires WellFormed(r) && IsSsize(r.first) && IsSsize(r.last) && n <= SSIZE_MAX
    requires Resolved(r, n).first <= Resolved(r, n).last
    ensures var q := Resolved(r, n);
            && ExtentOf(r, n) == Extent(q.first, q.last - q.first + 1)
            && ContentRange(ExtentOf(r, n), n) == "bytes " + RangeText(q) + "/" + Dec(n)
  {
    ResolvedExtent(r, n);
    Announced(Resolved(r, n), n);
  }

  /** When the size of the content is not a `ssize_t`, a range that asks for its last bytes gets all of it. */
  lemma SuffixOfHuge(r: Range, n: nat)
    requires r.first == -1 && 0 <= r.last <= SSIZE_MAX && SSIZE_MAX < n < TWO_64
    ensures ExtentOf(r, n) == Extent(0, n)
  {
    assert Ssize(n) == n - TWO_64;
    SizeSmall(n);
    SizeShift(n - 1, -1);
  }

  lemma ResolvedExtent(r: Range, n: nat)
    requires WellFormed(r) && IsSsize(r.first) && IsSsize(r.last) && n <= SSIZE_MAX
    requires Resolved(r, n).first <= Resolved(r, n).last
    ensures var q := Resolved(r, n);
            && 0 <= q.first && q.last <= SSIZE_MAX
            && ExtentOf(r, n) == Extent(q.first, q.last - q.first + 1)
  {
    var q := Resolved(r, n);
    assert 0 <= q.first && q.last <= SSIZE_MAX;
    SizeSmall(q.first);
    SizeSmall(q.last - q.first);
    SizeSmall(q.last - q.first + 1);
  }

  lemma SizeSmall(x: int)
    requires 0 <= x < TWO_64
    ensures Size(x) == x
  {
  }

  lemma Announced(q: Range, n: nat)
    requires 0 <= q.first <= q.last <= SSIZE_MAX
    ensures ContentRange(Extent(q.first, q.last - q.first + 1), n) == "bytes " + RangeText(q) + "/" + Dec(n)
  {
    SizeSmall(q.last);
    assert q.first + (q.last - q.first + 1) - 1 == q.last;
    BothGiven(q);
    Dashed(Dec(q.first), Dec(q.last), Dec(n));
  }

  lemma BothGiven(q: Range)
    requires 0 <= q.first && 0 <= q.last
    ensures RangeText(q) == Dec(q.first) + "-" + Dec(q.last)
  {
  }

  lemma Dashed(a: string, b: string, c: string)
    ensures "bytes " + (a + "-" + b) + "/" + c == "bytes " + a + "-" + b + "/" + c
  {
  }

  // ----- The length announced and the bytes written -----

  predicate Wraps(r: Range, f: Framing) {
    var e := ExtentOf(r, f.bodySize);
    e.offset + e.length >= TWO_64
  }

  /** The lengths counted for ranges whose end wraps around, of which nothing is written. */
  function WrappedLength(ranges: seq<Range>, f: Framing): nat {
    if ranges == [] then 0
    else
      var r := ranges[|ranges| - 1];
      WrappedLength(ranges[..|ranges| - 1], f) + if Wraps(r, f) then ExtentOf(r, f.bodySize).length else 0
  }

  lemma {:induction false} WrappedAreCounted(ranges: seq<Range>, f: Framing)
    ensures WrappedLength(ranges, f) <= PartsLength(ranges, f)
  {
    if ranges != [] {
      WrappedAreCounted(ranges[..|ranges| - 1], f);
    }
  }

  /** What is written fits a `size_t` and what is counted without being written is a multiple of its range. */
  predicate AnnouncesRight(ranges: seq<Range>, f: Framing) {
    Counted(ranges, f) - WrappedLength(ranges, f) < TWO_64 && WrappedLength(ranges, f) % TWO_64 == 0
  }

  lemma {:induction false} PartsWritten(ranges: seq<Range>, contents: seq<string>, f: Framing)
    requires Complete(ranges, contents, f)
    ensures |Parts(ranges, contents, f)| + WrappedLength(ranges, f) == PartsLength(ranges, f)
  {
    if ranges != [] {
      var k := |ranges| - 1;
      PartsWritten(ranges[..k], contents[..k], f);
      assert |Part(ranges[k], contents[k], f)| == |Flat(HeadTokens(ranges[k], f))| + |contents[k]| + 2;
    }
  }

  lemma SumFits(x: nat, y: nat)
    ensures x == Size(x + y) <==> x < TWO_64 && y % TWO_64 == 0
  {
    var q := y / TWO_64;
    assert y == q * TWO_64 + y % TWO_64;
    SizeShift(x + y % TWO_64, q);
    assert x + y == x + y % TWO_64 + q * TWO_64;
  }

  /** The announced length is the number of bytes written exactly when `AnnouncesRight`. */
  lemma LengthIsWrittenIff(ranges: seq<Range>, contents: seq<string>, f: Framing)
    requires Complete(ranges, contents, f)
    ensures |RangesText(ranges, contents, f)| == Counted(ranges, f) - WrappedLength(ranges, f)
    ensures |RangesText(ranges, contents, f)| == Size(Counted(ranges, f)) <==> AnnouncesRight(ranges, f)
  {
    PartsWritten(ranges, contents, f);
    SumFits(|RangesText(ranges, contents, f)|, WrappedLength(ranges, f));
  }

  /** A range with both bounds does not wrap around, whatever the size of the body. */
  lemma BoundedDoesNotWrap(r: Range, f: Framing)
    requires WellFormed(r) && r.first != -1 && r.last != -1 && IsSsize(r.last)
    ensures ExtentOf(r, f.bodySize) == Extent(r.first, r.last - r.first + 1) && !Wraps(r, f)
  {
  }

  lemma {:induction false} BoundedNeverWrap(ranges: seq<Range>, f: Framing)
    requires forall i | 0 <= i < |ranges| ::
               WellFormed(ranges[i]) && ranges[i].first != -1 && ranges[i].last != -1 && IsSsize(ranges[i].last)
    ensures WrappedLength(ranges, f) == 0
  {
    if ranges != [] {
      BoundedNeverWrap(ranges[..|ranges| - 1], f);
      BoundedDoesNotWrap(ranges[|ranges| - 1], f);
    }
  }

  /** For ranges with both bounds all that is needed is that the body fits a `size_t`. */
  lemma BoundedAnnounced(ranges: seq<Range>, contents: seq<string>, f: Framing)
    requires forall i | 0 <= i < |ranges| ::
               WellFormed(ranges[i]) && ranges[i].first != -1 && ranges[i].last != -1 && IsSsize(ranges[i].last)
    requires Complete(ranges, contents, f)
    ensures var written := |RangesText(ranges, contents, f)|;
            written == Size(Counted(ranges, f)) <==> written < TWO_64
  {
    BoundedNeverWrap(ranges, f);
    LengthIsWrittenIff(ranges, contents, f);
  }

  /** With an empty body every open range wraps around. */
  lemma OpenExtent(first: int, f: Framing)
    requires 0 < first <= SSIZE_MAX && f.bodySize == 0
    ensures ExtentOf(Range(first, -1), 0) == Extent(first, TWO_64 - first) && Wraps(Range(first, -1), f)
  {
    SizeSmall(first);
    SizeShift(-1 - first, 1);
    SizeSmall(TWO_64 - 1 - first);
    SizeSmall(TWO_64 - first);
  }

  /** With a provider the body is empty, and an open range is announced as if it were huge. */
  lemma OpenRangeMiscounted(boundary: string)
    ensures var f := Framing(boundary, "", 0);
            && Complete([Range(5, -1)], [""], f)
            && |RangesText([Range(5, -1)], [""], f)| != Size(Counted([Range(5, -1)], f))
  {
    var f, ranges := Framing(boundary, "", 0), [Range(5, -1)];
    assert ranges[..0] == [];
    OpenExtent(5, f);
    assert WrappedLength(ranges, f) == TWO_64 - 5;
    LengthIsWrittenIff(ranges, [""], f);
  }

  function Pow10(k: nat): nat {
    if k == 0 then 1 else 10 * Pow10(k - 1)
  }

  lemma {:induction false} DecLength(n: nat, k: nat)
    requires k > 0 && n < Pow10(k)
    ensures |Dec(n)| <= k
  {
    if n >= 10 {
      DecLength(n / 10, k - 1);
    }
  }

  lemma SizeDigits(n: nat)
    requires n < TWO_64
    ensures |Dec(n)| <= 20
  {
    assert Pow10(10) == 10_000_000_000;
    assert Pow10(20) == 100_000_000_000_000_000_000;
    DecLength(n, 20);
  }

  /** The framing of a part without a content type is short. */
  lemma HeadBound(r: Range, f: Framing)
    requires f.contentType == "" && f.bodySize < TWO_64
    ensures |Flat(HeadTokens(r, f))| <= |f.boundary| + 100
  {
    var e := ExtentOf(r, f.bodySize);
    SizeDigits(e.offset);
    SizeDigits(Size(e.offset + e.length - 1));
    SizeDigits(f.bodySize);
    var tokens := ["--", f.boundary, CRLF, "Content-Range: ", ContentRange(e, f.bodySize), CRLF, CRLF];
    assert HeadTokens(r, f) == tokens;
    SevenTokens("--", f.boundary, CRLF, "Content-Range: ", ContentRange(e, f.bodySize), CRLF, CRLF);
  }

  lemma FlatMore(tokens: seq<string>, last: string)
    ensures |Flat(tokens + [last])| == |Flat(tokens)| + |last|
  {
    assert (tokens + [last])[..|tokens|] == tokens;
  }

  lemma SevenTokens(a: string, b: string, c: string, d: string, e: string, f: string, g: string)
    ensures |Flat([a, b, c, d, e, f, g])| == |a| + |b| + |c| + |d| + |e| + |f| + |g|
  {
    FlatMore([], a);
    FlatMore([a], b);
    FlatMore([a, b], c);
    FlatMore([a, b, c], d);
    FlatMore([a, b, c, d], e);
    FlatMore([a, b, c, d, e], f);
    FlatMore([a, b, c, d, e, f], g);
    assert [] + [a] == [a] && [a] + [b] == [a, b] && [a, b] + [c] == [a, b, c] && [a, b, c] + [d] == [a, b, c, d];
    assert [a, b, c, d] + [e] == [a, b, c, d, e] && [a, b, c, d, e] + [f] == [a, b, c, d, e, f];
    assert [a, b, c, d, e, f] + [g] == [a, b, c, d, e, f, g];
  }

  lemma EndBound(f: Framing)
    ensures |Flat(EndTokens(f))| == |f.boundary| + 6
  {
    FlatMore([], "--");
    FlatMore(["--"], f.boundary);
    FlatMore(["--", f.boundary], "--\r\n");
    assert [] + ["--"] == ["--"] && ["--"] + [f.boundary] == ["--", f.boundary];
    assert EndTokens(f) == ["--", f.boundary] + ["--\r\n"];
  }

  /** One more range that wraps around adds its length to what is not written, and its framing to what is. */
  lemma OneMoreWrapped(ranges: seq<Range>, r: Range, f: Framing)
    requires f.contentType == "" && f.bodySize < TWO_64 && Wraps(r, f)
    ensures WrappedLength(ranges + [r], f) == WrappedLength(ranges, f) + ExtentOf(r, f.bodySize).length
    ensures PartsLength(ranges + [r], f) - WrappedLength(ranges + [r], f) <=
            PartsLength(ranges, f) - WrappedLength(ranges, f) + |f.boundary| + 102
  {
    assert (ranges + [r])[..|ranges|] == ranges;
    HeadBound(r, f);
  }

  /** But several such ranges may cancel out, and then exactly what is announced is written. */
  lemma OpenRangesCancel(boundary: string)
    requires |boundary| <= 1000
    ensures var f, ranges := Framing(boundary, "", 0), [Range(SSIZE_MAX, -1), Range(SSIZE_MAX, -1), Range(2, -1)];
            && Complete(ranges, ["", "", ""], f) && WrappedLength(ranges, f) == 2 * TWO_64
            && |RangesText(ranges, ["", "", ""], f)| == Size(Counted(ranges, f))
  {
    hide WrappedLength, Counted, RangesText, ExtentOf;
    var f, a, b := Framing(boundary, "", 0), Range(SSIZE_MAX, -1), Range(2, -1);
    var ranges := [a, a, b];
    OpenExtent(SSIZE_MAX, f);
    OpenExtent(2, f);
    ThreeWrapped(a, b, f);
    LengthIsWrittenIff(ranges, ["", "", ""], f);
  }

  lemma ThreeWrapped(a: Range, b: Range, f: Framing)
    requires f.contentType == "" && f.bodySize == 0 && |f.boundary| <= 1000 && Wraps(a, f) && Wraps(b, f)
    ensures WrappedLength([a, a, b], f) == 2 * ExtentOf(a, 0).length + ExtentOf(b, 0).length
    ensures Counted([a, a, b], f) - WrappedLength([a, a, b], f) < TWO_64
  {
    hide ExtentOf, Flat;
    OneMoreWrapped([], a, f);
    OneMoreWrapped([a], a, f);
    OneMoreWrapped([a, a], b, f);
    EndBound(f);
    assert [] + [a] == [a] && [a] + [a] == [a, a] && [a, a] + [b] == [a, a, b];
  }
}
