/** Which bytes the chunked reader accepts: complete bodies, and bodies broken off after a chunk. */
module ChunkedGrammar {
  import opened ChunkedCoding
  import opened Machine
  import opened Streams
  import opened Text

  // ----- Bodies, described by how they are put together -----

  /** A line with its line feed, which may hold anything `strtoul` reads past, and the bytes it counts. */
  datatype Chunk = Chunk(sizeLine: string, data: string)

  predicate IsLine(l: string) {
    l != "" && l[|l| - 1] == '\n' && '\n' !in l[..|l| - 1]
  }

  predicate Counts(line: string, n: nat) {
    IsLine(line) && StrToUL(CString(line)) == Some(n) && n < ULONG_MAX
  }

  predicate IsChunk(c: Chunk) {
    c.data != "" && Counts(c.sizeLine, |c.data|)
  }

  /** Chunks one after the other, each closed by an empty line. */
  function ChunksText(chunks: seq<Chunk>): string {
    if chunks == [] then "" else chunks[0].sizeLine + (chunks[0].data + (CRLF + ChunksText(chunks[1..])))
  }

  function Content(chunks: seq<Chunk>): string {
    if chunks == [] then "" else chunks[0].data + Content(chunks[1..])
  }

  ghost predicate AreChunks(chunks: seq<Chunk>) {
    forall i | 0 <= i < |chunks| :: IsChunk(chunks[i])
  }

  /** `s` is chunks, a line that counts zero, an empty line, and then `rest`. */
  ghost predicate Complete(s: string, chunks: seq<Chunk>, zero: string, rest: string) {
    AreChunks(chunks) && Counts(zero, 0) && s == ChunksText(chunks) + (zero + (CRLF + rest))
  }

  /** `s` is chunks, one more that is not closed by an empty line, and then `rest`, which is not empty. */
  ghost predicate Broken(s: string, chunks: seq<Chunk>, last: Chunk, rest: string) {
    && AreChunks(chunks) && IsChunk(last) && rest != "" && !(CRLF <= rest)
    && s == ChunksText(chunks) + (last.sizeLine + (last.data + rest))
  }

  // ----- Lines -----

  lemma LineRead(l: string, x: string)
    requires IsLine(l)
    ensures l + x != "" && Line(l + x) == l && AfterLine(l + x) == x
  {
    var front := l[..|l| - 1];
    assert l == front + "\n";
    LineOf(front, x);
  }

  lemma {:induction false} CStringPrefix(s: string)
    ensures CString(s) <= s
  {
    if s != "" && s[0] != '\0' {
      CStringPrefix(s[1..]);
      assert s == [s[0]] + s[1..];
    }
  }

  /** Only an empty line reads as one. */
  lemma EmptyLineIff(s: string)
    ensures CString(Line(s)) == CRLF <==> CRLF <= s
    ensures CRLF <= s ==> AfterLine(s) == s[2..]
  {
    CStringPrefix(Line(s));
    if CRLF <= s {
      assert s == CRLF + s[2..] && IsLine(CRLF);
      LineRead(CRLF, s[2..]);
      NoZeroByte(CRLF);
    }
  }

  lemma {:induction false} LineShape(s: string)
    requires AfterLine(s) != ""
    ensures IsLine(Line(s)) && s == Line(s) + AfterLine(s)
  {
    if s[0] != '\n' {
      assert AfterLine(s) == AfterLine(s[1..]);
      LineShape(s[1..]);
      assert Line(s) == [s[0]] + Line(s[1..]);
      assert Line(s)[..|Line(s)| - 1] == [s[0]] + Line(s[1..])[..|Line(s[1..])| - 1];
    }
  }

  // ----- What is read of them -----

  lemma ChunkRead(c: Chunk, x: string)
    requires IsChunk(c)
    ensures ReadChunks(c.sizeLine + (c.data + x)) ==
            if x == "" then Decoded(false, c.data, "")
            else if CRLF <= x then Prepend(c.data, ReadChunks(x[2..]))
            else Decoded(true, c.data, AfterLine(x))
  {
    LineRead(c.sizeLine, c.data + x);
    if x == "" {
      assert c.data + x == c.data;
      ChunkCutShort(c.data + x, |c.data|, c.data);
    } else {
      ChunkTaken(c.data + x, |c.data|, c.data, x);
      EmptyLineIff(x);
    }
  }

  lemma ZeroRead(zero: string, x: string)
    requires Counts(zero, 0)
    ensures ReadChunks(zero + x) == ReadTerminator(x)
  {
    LineRead(zero, x);
  }

  lemma ChunksUnfold(chunks: seq<Chunk>, x: string)
    requires chunks != []
    ensures ChunksText(chunks) + x == chunks[0].sizeLine + (chunks[0].data + (CRLF + (ChunksText(chunks[1..]) + x)))
  {
  }

  lemma {:induction false} ChunksRead(chunks: seq<Chunk>, x: string)
    requires AreChunks(chunks)
    ensures ReadChunks(ChunksText(chunks) + x) == Prepend(Content(chunks), ReadChunks(x))
  {
    if chunks == [] {
      assert ChunksText(chunks) + x == x;
    } else {
      var rest := ChunksText(chunks[1..]) + x;
      ChunksUnfold(chunks, x);
      ChunkRead(chunks[0], CRLF + rest);
      assert (CRLF + rest)[2..] == rest;
      ChunksRead(chunks[1..], x);
      PrependTwice(chunks[0].data, Content(chunks[1..]), ReadChunks(x));
    }
  }

  /** A complete body gives its content and leaves what follows it. */
  lemma CompleteReads(s: string, chunks: seq<Chunk>, zero: string, rest: string)
    requires Complete(s, chunks, zero, rest)
    ensures ReadChunks(s) == Decoded(true, Content(chunks), rest)
  {
    ChunksRead(chunks, zero + (CRLF + rest));
    ZeroRead(zero, CRLF + rest);
    EmptyLineIff(CRLF + rest);
    assert (CRLF + rest)[2..] == rest && Content(chunks) + "" == Content(chunks);
  }

  /** A broken one gives its content as if it were complete and takes the line after it. */
  lemma BrokenReads(s: string, chunks: seq<Chunk>, last: Chunk, rest: string)
    requires Broken(s, chunks, last, rest)
    ensures ReadChunks(s) == Decoded(true, Content(chunks) + last.data, AfterLine(rest))
  {
    ChunksRead(chunks, last.sizeLine + (last.data + rest));
    ChunkRead(last, rest);
  }

  // ----- Nothing else is accepted -----

  datatype Shape = IsComplete(chunks: seq<Chunk>, zero: string, rest: string)
                 | IsBroken(chunks: seq<Chunk>, last: Chunk, rest: string)

  ghost predicate HasShape(s: string, shape: Shape) {
    match shape
    case IsComplete(chunks, zero, rest) => Complete(s, chunks, zero, rest)
    case IsBroken(chunks, last, rest) => Broken(s, chunks, last, rest)
  }

  lemma ZeroShape(s: string) returns (shape: Shape)
    requires s != "" && StrToUL(CString(Line(s))) == Some(0) && ReadTerminator(AfterLine(s)).ok
    ensures HasShape(s, shape)
  {
    LineShape(s);
    EmptyLineIff(AfterLine(s));
    shape := IsComplete([], Line(s), AfterLine(s)[2..]);
    assert AfterLine(s) == CRLF + AfterLine(s)[2..];
    assert ChunksText([]) + (Line(s) + AfterLine(s)) == s;
  }

  lemma OneMore(c: Chunk, s: string, shape: Shape) returns (shape': Shape)
    requires IsChunk(c) && HasShape(s, shape)
    ensures HasShape(c.sizeLine + (c.data + (CRLF + s)), shape')
  {
    match shape
    case IsComplete(chunks, zero, rest) =>
      shape' := IsComplete([c] + chunks, zero, rest);
      ChunksUnfold([c] + chunks, zero + (CRLF + rest));
      assert ([c] + chunks)[1..] == chunks;
    case IsBroken(chunks, last, rest) =>
      shape' := IsBroken([c] + chunks, last, rest);
      ChunksUnfold([c] + chunks, last.sizeLine + (last.data + rest));
      assert ([c] + chunks)[1..] == chunks;
  }

  lemma FirstChunk(s: string) returns (c: Chunk, x: string)
    requires ReadChunks(s).ok && StrToUL(CString(Line(s))) != Some(0)
    ensures IsChunk(c) && x != "" && s == c.sizeLine + (c.data + x)
  {
    var n, t := StrToUL(CString(Line(s))).value, AfterLine(s);
    LineShape(s);
    c, x := Chunk(Line(s), t[..n]), t[n..];
    assert t == c.data + x;
  }

  lemma {:induction false} ShapeOf(s: string) returns (shape: Shape)
    requires ReadChunks(s).ok
    ensures HasShape(s, shape)
    decreases |s|
  {
    if StrToUL(CString(Line(s))) == Some(0) {
      shape := ZeroShape(s);
    } else {
      var c, x := FirstChunk(s);
      ChunkRead(c, x);
      if CRLF <= x {
        shape := ShapeOf(x[2..]);
        assert x == CRLF + x[2..];
        shape := OneMore(c, x[2..], shape);
      } else {
        shape := IsBroken([], c, x);
        assert ChunksText([]) + s == s;
      }
    }
  }

  /** The reader accepts exactly the complete bodies and the broken ones. */
  lemma AcceptedIff(s: string)
    ensures ReadChunks(s).ok <==> exists shape :: HasShape(s, shape)
  {
    if ReadChunks(s).ok {
      var shape := ShapeOf(s);
    }
    forall shape | HasShape(s, shape) ensures ReadChunks(s).ok {
      match shape
      case IsComplete(chunks, zero, rest) => CompleteReads(s, chunks, zero, rest);
      case IsBroken(chunks, last, rest) => BrokenReads(s, chunks, last, rest);
    }
  }

  /** How the first chunk of a text is determined by the text. */
  lemma SameChunk(c: Chunk, x: string, c': Chunk, x': string)
    requires IsChunk(c) && IsChunk(c') && c.sizeLine + (c.data + x) == c'.sizeLine + (c'.data + x')
    ensures c == c' && x == x'
  {
    LineRead(c.sizeLine, c.data + x);
    LineRead(c'.sizeLine, c'.data + x');
    assert (c.data + x)[..|c.data|] == c.data && (c'.data + x')[..|c'.data|] == c'.data;
    assert (c.data + x)[|c.data|..] == x && (c'.data + x')[|c'.data|..] == x';
  }

  lemma NoChunkAtZero(c: Chunk, x: string, zero: string, x': string)
    requires IsChunk(c) && Counts(zero, 0)
    ensures c.sizeLine + (c.data + x) != zero + x'
  {
    LineRead(c.sizeLine, c.data + x);
    LineRead(zero, x');
  }

  /** No body is both, so a body that is accepted without being complete is a broken one. */
  lemma {:induction false} NotBoth(s: string, chunks: seq<Chunk>, zero: string, rest: string,
                                   chunks': seq<Chunk>, last: Chunk, rest': string)
    requires Complete(s, chunks, zero, rest)
    ensures !Broken(s, chunks', last, rest')
    decreases |chunks|
  {
    if Broken(s, chunks', last, rest') {
      var x, x' := zero + (CRLF + rest), last.sizeLine + (last.data + rest');
      var first := if chunks' == [] then last else chunks'[0];
      var after' := if chunks' == [] then rest' else CRLF + (ChunksText(chunks'[1..]) + x');
      assert s == first.sizeLine + (first.data + after') by {
        if chunks' == [] {
          assert ChunksText(chunks') + x' == x';
        } else {
          ChunksUnfold(chunks', x');
        }
      }
      if chunks == [] {
        assert s == x;
        NoChunkAtZero(first, after', zero, CRLF + rest);
      } else {
        var after := CRLF + (ChunksText(chunks[1..]) + x);
        ChunksUnfold(chunks, x);
        SameChunk(chunks[0], after, first, after');
        if chunks' != [] {
          var s1 := ChunksText(chunks[1..]) + x;
          assert s1 == after[2..] == after'[2..] == ChunksText(chunks'[1..]) + x';
          NotBoth(s1, chunks[1..], zero, rest, chunks'[1..], last, rest');
        }
      }
      assert false;
    }
  }

  lemma PlainLine(t: string)
    requires '\n' !in t && '\0' !in t
    ensures IsLine(t + CRLF) && CString(t + CRLF) == t + CRLF
  {
    var line := t + CRLF;
    NoZeroByte(line);
    assert line[..|line| - 1] == t + "\r";
  }

  lemma WrittenSizeCounts(n: nat)
    requires n < ULONG_MAX
    ensures Counts(Hex(n) + CRLF, n)
  {
    HexReads(n);
    SizeLineReads(n);
    PlainLine(Hex(n));
  }

  /** So a stream that is cut between the two bytes of the line end after a chunk is reported as complete. */
  lemma CutLineEndAccepted(data: string)
    requires 0 < |data| < ULONG_MAX
    ensures ReadChunks(Hex(|data|) + CRLF + (data + "\r")) == Decoded(true, data, "")
  {
    WrittenSizeCounts(|data|);
    ChunkRead(Chunk(Hex(|data|) + CRLF, data), "\r");
    LastLine("\r");
  }
}
