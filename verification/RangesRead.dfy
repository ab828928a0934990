/** A multipart/byteranges body read back by what section 14.6 of RFC 9110 says of it. */
module RangesRead {
  import opened Machine
  import opened Ranges
  import opened RangesData
  import opened Text

  /** One part: its Content-Type, the bytes its Content-Range names of how many, and what it holds. */
  datatype Body = Body(contentType: string, first: nat, last: nat, total: nat, content: string)

  /** What the header of a part says. */
  datatype Head = Head(contentType: string, range: Option<(nat, nat, nat)>)

  /** `first-last/total` */
  function ReadSpan(s: string): Option<(nat, nat, nat)> {
    var a := DigitRun(s);
    if a == "" || |s| <= |a| || s[|a|] != '-' then None
    else
      var t := s[|a| + 1..];
      var b := DigitRun(t);
      if b == "" || |t| <= |b| || t[|b|] != '/' || !AllDigits(t[|b| + 1..]) then None
      else Some((DecNumber(a), DecNumber(b), DecNumber(t[|b| + 1..])))
  }

  function ReadLine(line: string, h: Head): Head {
    if "Content-Type: " <= line then h.(contentType := line[14..])
    else if "Content-Range: bytes " <= line then h.(range := ReadSpan(line[21..]))
    else h
  }

  /** The lines up to an empty one, and what follows it. */
  function ReadHead(s: string, h: Head): Option<(Head, string)>
    decreases |s|
  {
    var p := Find(s, CRLF);
    if p == |s| then None
    else if p == 0 then Some((h, s[2..]))
    else ReadHead(s[p + 2..], ReadLine(s[..p], h))
  }

  /** The parts up to the closing delimiter. */
  function ReadParts(s: string, boundary: string): Option<seq<Body>>
    decreases |s|
  {
    var open := "--" + boundary;
    if !(open <= s) then None
    else
      var r := s[|open|..];
      if "--\r\n" <= r then Some([])
      else if !(CRLF <= r) then None
      else
        match ReadHead(r[2..], Head("", None))
        case None => None
        case Some((head, rest)) =>
          if head.range.None? then None
          else
            var (first, last, total) := head.range.value;
            var n := last - first + 1;
            if n <= 0 || |rest| < n + 2 || |rest| >= |s| || rest[n..n + 2] != CRLF then None
            else
              match ReadParts(rest[n + 2..], boundary)
              case None => None
              case Some(parts) => Some([Body(head.contentType, first, last, total, rest[..n])] + parts)
  }

  // ----- A written body -----

  /** The range asks for at least one byte and its end does not wrap around. */
  predicate Plain(r: Range, f: Framing) {
    var e := ExtentOf(r, f.bodySize);
    e.length > 0 && e.offset + e.length < TWO_64
  }

  function Expected(r: Range, content: string, f: Framing): Body {
    var e := ExtentOf(r, f.bodySize);
    Body(f.contentType, e.offset, Size(e.offset + e.length - 1), f.bodySize, content)
  }

  function AllExpected(ranges: seq<Range>, contents: seq<string>, f: Framing): seq<Body>
    requires |ranges| == |contents|
  {
    if ranges == [] then [] else [Expected(ranges[0], contents[0], f)] + AllExpected(ranges[1..], contents[1..], f)
  }

  lemma SpanText(a: string, b: string, c: string)
    requires AllDigits(a) && AllDigits(b) && AllDigits(c) && a != "" && b != ""
    ensures ReadSpan(a + "-" + b + "/" + c) == Some((DecNumber(a), DecNumber(b), DecNumber(c)))
  {
    hide DigitRun, DecNumber, AllDigits;
    var t := b + ['/'] + c;
    assert a + "-" + b + "/" + c == a + ['-'] + t;
    DigitsTo(a, '-', t);
    DigitsTo(b, '/', c);
  }

  lemma DigitsTo(a: string, sep: char, t: string)
    requires AllDigits(a) && !IsDigit(sep)
    ensures var s := a + [sep] + t; DigitRun(s) == a && |s| > |a| && s[|a|] == sep && s[|a| + 1..] == t
  {
    var s := a + [sep] + t;
    assert s == a + ([sep] + t);
    DigitRunStops(a, [sep] + t);
  }

  lemma SpanReads(a: nat, b: nat, c: nat)
    ensures ReadSpan(Dec(a) + "-" + Dec(b) + "/" + Dec(c)) == Some((a, b, c))
  {
    hide Dec, ReadSpan, DecNumber;
    SpanText(Dec(a), Dec(b), Dec(c));
    DecReads(a);
    DecReads(b);
    DecReads(c);
  }

  lemma LineTaken(line: string, rest: string, h: Head)
    requires line != "" && '\r' !in line
    ensures ReadHead(line + CRLF + rest, h) == ReadHead(rest, ReadLine(line, h))
  {
    var s := line + CRLF + rest;
    AbsentFirstByte(line, CRLF);
    FindAfter(line, CRLF, rest);
    assert s[..|line|] == line && s[|line| + 2..] == rest;
  }

  lemma BlankTaken(rest: string, h: Head)
    ensures ReadHead(CRLF + rest, h) == Some((h, rest))
  {
    AbsentFirstByte("", CRLF);
    FindAfter("", CRLF, rest);
    assert "" + CRLF + rest == CRLF + rest;
    assert (CRLF + rest)[2..] == rest;
  }

  function RangeLine(r: Range, f: Framing): string {
    "Content-Range: " + ContentRange(ExtentOf(r, f.bodySize), f.bodySize)
  }

  lemma RangeLineReads(r: Range, f: Framing, h: Head)
    ensures var e, line := ExtentOf(r, f.bodySize), RangeLine(r, f);
            && line != "" && '\r' !in line
            && ReadLine(line, h) == h.(range := Some((e.offset, Size(e.offset + e.length - 1), f.bodySize)))
  {
    hide Dec, ExtentOf, ReadSpan;
    var e := ExtentOf(r, f.bodySize);
    var a, b, c := Dec(e.offset), Dec(Size(e.offset + e.length - 1)), Dec(f.bodySize);
    RangeLineText(a, b, c, h);
    SpanReads(e.offset, Size(e.offset + e.length - 1), f.bodySize);
    NoReturn(a, b, c);
  }

  lemma RangeLineText(a: string, b: string, c: string, h: Head)
    ensures var line, span := "Content-Range: " + ("bytes " + a + "-" + b + "/" + c), a + "-" + b + "/" + c;
            line == "Content-Range: bytes " + span && ReadLine(line, h) == h.(range := ReadSpan(span))
  {
    hide ReadSpan;
    var span := a + "-" + b + "/" + c;
    var line := "Content-Range: bytes " + span;
    assert line == "Content-Range: " + ("bytes " + a + "-" + b + "/" + c);
    assert line[21..] == span;
    assert line[8] == 'R' && "Content-Type: "[8] == 'T';
  }

  lemma NoReturn(a: string, b: string, c: string)
    requires AllDigits(a) && AllDigits(b) && AllDigits(c)
    ensures '\r' !in "Content-Range: bytes " + (a + "-" + b + "/" + c)
  {
  }

  function TypeLine(f: Framing): string {
    if f.contentType == "" then "" else "Content-Type: " + f.contentType + CRLF
  }

  /** The header of a written part. */
  lemma HeadReads(r: Range, f: Framing, rest: string)
    requires '\r' !in f.contentType
    ensures var e := ExtentOf(r, f.bodySize);
            ReadHead(TypeLine(f) + (RangeLine(r, f) + CRLF + (CRLF + rest)), Head("", None)) ==
            Some((Head(f.contentType, Some((e.offset, Size(e.offset + e.length - 1), f.bodySize))), rest))
  {
    hide ReadHead, RangeLine, ExtentOf, ReadSpan;
    var lines := RangeLine(r, f) + CRLF + (CRLF + rest);
    var h := Head(f.contentType, None);
    if f.contentType != "" {
      var line := "Content-Type: " + f.contentType;
      assert line[14..] == f.contentType;
      LineTaken(line, lines, Head("", None));
      assert line + CRLF + lines == "Content-Type: " + f.contentType + CRLF + lines;
    } else {
      assert "" + lines == lines;
    }
    RangeLineReads(r, f, h);
    LineTaken(RangeLine(r, f), CRLF + rest, h);
    BlankTaken(rest, h.(range := ReadLine(RangeLine(r, f), h).range));
  }

  lemma FlatPair(a: seq<string>, b: seq<string>)
    ensures Flat(a + b) == Flat(a) + Flat(b)
    decreases |b|
  {
    if b == [] {
      assert a + b == a && Flat(a) + "" == Flat(a);
    } else {
      var n := |b| - 1;
      FlatPair(a, b[..n]);
      assert (a + b)[..|a| + n] == a + b[..n];
      Assoc(Flat(a), Flat(b[..n]), b[n]);
    }
  }

  lemma FlatOne(a: string)
    ensures Flat([a]) == a
  {
    assert [a][..0] == [];
  }

  lemma FlatThree(a: string, b: string, c: string)
    ensures Flat([a, b, c]) == a + b + c
  {
    FlatOne(a);
    FlatOne(b);
    FlatOne(c);
    FlatPair([a], [b]);
    FlatPair([a, b], [c]);
    assert [a] + [b] == [a, b] && [a, b] + [c] == [a, b, c];
  }

  lemma HeadText(r: Range, f: Framing)
    ensures Flat(HeadTokens(r, f)) ==
            "--" + f.boundary + CRLF +
            (TypeLine(f) + (RangeLine(r, f) + CRLF + CRLF))
  {
    hide ExtentOf, ContentRange;
    var span := ContentRange(ExtentOf(r, f.bodySize), f.bodySize);
    var a, b := ["--", f.boundary, CRLF], if f.contentType == "" then [] else ["Content-Type: ", f.contentType, CRLF];
    var c := ["Content-Range: ", span, CRLF, CRLF];
    FlatPair(a + b, c);
    FlatPair(a, b);
    FlatThree("--", f.boundary, CRLF);
    if f.contentType != "" {
      FlatThree("Content-Type: ", f.contentType, CRLF);
    }
    FlatThree("Content-Range: ", span, CRLF);
    FlatOne(CRLF);
    FlatPair(["Content-Range: ", span, CRLF], [CRLF]);
    assert ["Content-Range: ", span, CRLF] + [CRLF] == c;
    Assoc(Flat(a), Flat(b), Flat(c));
  }

  /** A written part ahead of anything. */
  lemma PartReads(r: Range, content: string, f: Framing, later: string)
    requires '\r' !in f.contentType && Plain(r, f) && |content| == ExtentOf(r, f.bodySize).length
    ensures ReadParts(Part(r, content, f) + later, f.boundary) ==
            match ReadParts(later, f.boundary)
            case None => None
            case Some(parts) => Some([Expected(r, content, f)] + parts)
  {
    hide ExtentOf, RangeLine, TypeLine, ReadHead, ContentRange, HeadTokens, Flat;
    var open, lines := "--" + f.boundary, TypeLine(f) + (RangeLine(r, f) + CRLF + (CRLF + (content + CRLF + later)));
    var s := Part(r, content, f) + later;
    HeadText(r, f);
    WrittenPart(open, TypeLine(f), RangeLine(r, f), content, later);
    assert s == open + (CRLF + lines);
    HeadReads(r, f, content + CRLF + later);
    var e := ExtentOf(r, f.bodySize);
    SizeSmall(e.offset + |content| - 1);
    var head := Head(f.contentType, Some((e.offset, e.offset + |content| - 1, f.bodySize)));
    OnePartRead(f.boundary, lines, head, content, later);
  }

  lemma OnePartRead(boundary: string, lines: string, head: Head, content: string, later: string)
    requires content != "" && head.range.Some?
    requires ReadHead(lines, Head("", None)) == Some((head, content + CRLF + later)) && |later| < |lines|
    requires var (first, last, _) := head.range.value; last - first + 1 == |content|
    ensures var (first, last, total) := head.range.value;
            ReadParts("--" + boundary + (CRLF + lines), boundary) ==
            match ReadParts(later, boundary)
            case None => None
            case Some(parts) => Some([Body(head.contentType, first, last, total, content)] + parts)
  {
    hide ReadHead;
    OpenTaken("--" + boundary, lines);
    ContentTaken(content, later);
    HeadShortens(lines, Head("", None));
  }

  lemma {:induction false} HeadShortens(s: string, h: Head)
    ensures var r := ReadHead(s, h); r.Some? ==> |r.value.1| < |s|
    decreases |s|
  {
    var p := Find(s, CRLF);
    if 0 < p < |s| {
      HeadShortens(s[p + 2..], ReadLine(s[..p], h));
    }
  }

  lemma WrittenPart(open: string, kind: string, line: string, content: string, later: string)
    ensures open + CRLF + (kind + (line + CRLF + CRLF)) + content + CRLF + later ==
            open + (CRLF + (kind + (line + CRLF + (CRLF + (content + CRLF + later)))))
  {
  }

  lemma OpenTaken(open: string, lines: string)
    ensures var s := open + (CRLF + lines);
            && open <= s && s[|open|..] == CRLF + lines && CRLF <= s[|open|..] && !("--\r\n" <= s[|open|..])
            && s[|open|..][2..] == lines
  {
    var r := (open + (CRLF + lines))[|open|..];
    assert r == CRLF + lines && r[0] == '\r';
  }

  lemma ContentTaken(content: string, later: string)
    ensures var rest, n := content + CRLF + later, |content|;
            rest[..n] == content && rest[n..n + 2] == CRLF && rest[n + 2..] == later
  {
  }

  lemma {:induction false} PartsFirst(ranges: seq<Range>, contents: seq<string>, f: Framing)
    requires ranges != [] && |ranges| == |contents|
    ensures Parts(ranges, contents, f) == Part(ranges[0], contents[0], f) + Parts(ranges[1..], contents[1..], f)
  {
    hide Part;
    var k := |ranges| - 1;
    if k == 0 {
      assert Parts(ranges[..0], contents[..0], f) == "" == Parts(ranges[1..], contents[1..], f);
      var p := Part(ranges[0], contents[0], f);
      assert "" + p == p && p + "" == p;
    } else {
      PartsFirst(ranges[..k], contents[..k], f);
      assert ranges[..k][1..] == ranges[1..][..k - 1] && contents[..k][1..] == contents[1..][..k - 1];
      Assoc(Part(ranges[0], contents[0], f), Parts(ranges[1..][..k - 1], contents[1..][..k - 1], f),
            Part(ranges[k], contents[k], f));
    }
  }

  /** The body of ranges that do not wrap around reads back as those ranges, each with its bytes. */
  lemma {:induction false} BodyReads(ranges: seq<Range>, contents: seq<string>, f: Framing)
    requires '\r' !in f.contentType && Complete(ranges, contents, f)
    requires forall i | 0 <= i < |ranges| :: Plain(ranges[i], f)
    ensures ReadParts(RangesText(ranges, contents, f), f.boundary) == Some(AllExpected(ranges, contents, f))
    decreases |ranges|
  {
    hide ReadParts, Part, ExtentOf, Flat;
    if ranges == [] {
      EndReads(f);
      assert "" + Flat(EndTokens(f)) == Flat(EndTokens(f));
    } else {
      var later := RangesText(ranges[1..], contents[1..], f);
      PartsFirst(ranges, contents, f);
      Assoc(Part(ranges[0], contents[0], f), Parts(ranges[1..], contents[1..], f), Flat(EndTokens(f)));
      BodyReads(ranges[1..], contents[1..], f);
      PartReads(ranges[0], contents[0], f, later);
    }
  }

  lemma EndReads(f: Framing)
    ensures ReadParts(Flat(EndTokens(f)), f.boundary) == Some([])
  {
    FlatThree("--", f.boundary, "--\r\n");
    var open := "--" + f.boundary;
    var s := open + "--\r\n";
    assert s[|open|..] == "--\r\n";
  }
}
