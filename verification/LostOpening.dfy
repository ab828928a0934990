/** What becomes of a serialized form when its opening delimiter is split between two `parse` calls: the items
    never come back, whatever the later calls hold and however they are cut. */
module LostOpening {
  import opened Multipart
  import opened MultipartRoundTrip
  import opened Text

  // ---------- The text of a form, item by item ----------

  function Head(f: FileInfo): string {
    HeaderLines(f) + CRLF
  }

  /** What is fixed during the proof: the items that were sent, their header blocks and the delimiter. */
  datatype Form = Form(items: seq<Part>, heads: seq<string>, d: Delimiter)

  function Heads(items: seq<Part>): (r: seq<string>)
    ensures |r| == |items| && forall i | 0 <= i < |r| :: r[i] == Head(items[i].file)
  {
    seq(|items|, i requires 0 <= i < |items| => Head(items[i].file))
  }

  /** The text from the start of item `k`, from its content on, and from after its delimiter on. */
  function Entry(form: Form, k: nat): string
    requires k < |form.items| == |form.heads|
    decreases |form.items| - k, 2
  {
    form.heads[k] + Rest(form, k)
  }

  function Rest(form: Form, k: nat): string
    requires k < |form.items| == |form.heads|
    decreases |form.items| - k, 1
  {
    form.items[k].content + (form.d + Tail(form, k))
  }

  function Tail(form: Form, k: nat): string
    requires k < |form.items| == |form.heads|
    decreases |form.items| - k, 0
  {
    if k + 1 == |form.items| then DASH_CRLF else CRLF + Entry(form, k + 1)
  }

  lemma {:induction false} EntryIsAfterOpening(form: Form, k: nat)
    requires k < |form.items| && form.heads == Heads(form.items)
    ensures Entry(form, k) == AfterOpening(form.items[k..], form.d)
    decreases |form.items| - k
  {
    var items, d := form.items[k..], form.d;
    if k + 1 < |form.items| {
      EntryIsAfterOpening(form, k + 1);
      assert items[1..] == form.items[k + 1..];
    }
    Assoc(Head(items[0].file), items[0].content, d);
    Assoc(Head(items[0].file), items[0].content + d, Tail(form, k));
    Assoc(items[0].content, d, Tail(form, k));
  }

  // ---------- Delimiters among header lines ----------

  /** Line breaks inside a header block, and what stands before and after them. */
  lemma HeadBreaks(f: FileInfo, i: nat)
    requires Quotable(f) && LineText(f.contentType) && i < |Head(f)| - 2 && Head(f)[i] == '\r'
    ensures Head(f)[i + 2] != '-'
    ensures i > 0 && (Head(f)[i - 1] == '"' || (f.contentType != "" && i == |Head(f)| - 4))
  {
    var line := DispositionLine(f);
    DispositionOneLine(f);
    DispositionQuoted(f);
    var h := Head(f);
    if f.contentType == "" {
      assert h == line + "\r\n\r\n";
    } else {
      var typeLine := ContentTypeLine(f);
      assert h == line + ("\r\n" + typeLine + "\r\n\r\n");
      assert typeLine[0] == 'C' && '\r' !in typeLine;
    }
  }

  lemma DispositionQuoted(f: FileInfo)
    ensures var line := DispositionLine(f); |line| > 0 && line[0] == 'C' && line[|line| - 1] == '"'
  {
  }

  /** No line of `h` begins with a hyphen. */
  ghost predicate NoHyphenLine(h: string) {
    h != "" && h[0] != '-' && forall i | 0 <= i < |h| - 2 && h[i] == '\r' :: h[i + 2] != '-'
  }

  lemma HeadHasNoHyphenLine(f: FileInfo)
    requires Quotable(f) && LineText(f.contentType)
    ensures NoHyphenLine(Head(f))
  {
    DispositionQuoted(f);
    forall i | 0 <= i < |Head(f)| - 2 && Head(f)[i] == '\r' ensures Head(f)[i + 2] != '-' {
      HeadBreaks(f, i);
    }
  }

  /** A delimiter after the one before an entry ends no earlier than the entry's header block. */
  lemma DelimiterPastHead(h: string, d: string, rest: string, w: string, o: nat)
    requires NoHyphenLine(h) && w == d + (CRLF + (h + rest))
    requires |d| >= 4 && d[0] == '\r' && d[2] == '-' && '\r' !in d[1..]
    requires o > 0 && OccursAt(w, d, o)
    ensures o >= |d| + |h|
  {
    assert w[o + 0] == '\r' && w[o + 2] == '-';
    assert forall i | 0 < i < |d| :: d[i] == d[1..][i - 1];
    assert w[|d| + 1] == '\n' && w[|d| + 2] == h[0];
    assert forall i | |d| + 2 <= i < |d| + 2 + |h| :: w[i] == h[i - |d| - 2];
  }

  /** An opening delimiter that ends inside a header block ends with its content type. */
  lemma OpeningInHead(f: FileInfo, boundary: string, rest: string, p: nat)
    requires Quotable(f) && LineText(f.contentType) && BoundaryCharsValid(boundary)
    requires var opening := DashBoundaryCrlf(boundary);
             OccursAt(Head(f) + rest, opening, p) && p + |opening| < |Head(f)|
    ensures f.contentType != "" && p + |DashBoundaryCrlf(boundary)| == |Head(f)| - 2
  {
    var opening, h := DashBoundaryCrlf(boundary), Head(f);
    var q := |opening| - 2;
    assert opening[q] == '\r' && opening[q - 1] != '"';
    assert (h + rest)[p + q] == opening[q] && (h + rest)[p + (q - 1)] == opening[q - 1];
    HeadBreaks(f, p + q);
  }

  /** Opening delimiters cannot overlap. */
  lemma OpeningsApart(boundary: string, rest: string, p: nat)
    requires BoundaryCharsValid(boundary)
    requires p > 0 && OccursAt(DashBoundaryCrlf(boundary) + rest, DashBoundaryCrlf(boundary), p)
    ensures p >= |DashBoundaryCrlf(boundary)|
  {
    var opening := DashBoundaryCrlf(boundary);
    var s, q := opening + rest, |opening| - 2;
    assert s[q] == '\r' && s[q + 1] == '\n';
    assert s[p + 0] == opening[0] == '-';
    forall i | p <= i < p + |opening| ensures s[i] == opening[i - p] {
      assert s[p + (i - p)] == opening[i - p];
    }
  }

  // ---------- Positions in the text ----------

  predicate Suffix(x: string, s: string) {
    |x| <= |s| && x == s[|s| - |x|..]
  }

  /** `x` starts a line of `s`, or all of it. */
  predicate AtLine(x: string, s: string) {
    Suffix(x, s) && (|x| == |s| || s[|s| - |x| - 1] == '\n')
  }

  lemma SuffixDrop(x: string, s: string, n: nat)
    requires Suffix(x, s) && n <= |x|
    ensures Suffix(x[n..], s)
  {
    assert x[n..] == s[|s| - |x[n..]|..];
  }

  lemma SuffixNarrow(x: string, a: string, b: string)
    requires Suffix(x, a + b) && |x| <= |b|
    ensures Suffix(x, b)
  {
    assert b == (a + b)[|a|..];
  }

  lemma SuffixOccurs(x: string, s: string, d: string, p: nat)
    requires Suffix(x, s) && OccursAt(x, d, p)
    ensures OccursAt(s, d, |s| - |x| + p)
  {
    var o := |s| - |x| + p;
    forall k | 0 <= k < |d| ensures s[o + k] == d[k] {
      assert x[p + k] == s[o + k];
    }
  }

  /** Reading up to a line break leads to the start of a line. */
  lemma LineDrop(x: string, s: string, n: nat)
    requires Suffix(x, s) && 0 < n <= |x| && x[n - 1] == '\n'
    ensures AtLine(x[n..], s)
  {
    SuffixDrop(x, s, n);
    assert s[|s| - |x[n..]| - 1] == x[n - 1];
  }

  /** What the body state delivers in the end of the bytes `r` still to come. */
  function FinalContent(r: string, d: Delimiter): string {
    if Find(r, d) < |r| then r[..Find(r, d)]
    else if |r| > |d| then r[..|r| - |d|]
    else ""
  }

  /** Delivering early changes nothing in this. */
  lemma FinalContentShifts(x: string, y: string, d: Delimiter)
    requires |y| >= |d| && forall i | 0 <= i < |x| :: !OccursAt(x + y, d, i)
    ensures FinalContent(x + y, d) == x + FinalContent(y, d)
    ensures Find(x + y, d) == |x| + Find(y, d)
  {
    FindShifted(x, y, d);
    if Find(y, d) < |y| {
      Cut(x, y, Find(y, d));
    } else {
      Cut(x, y, |y| - |d|);
    }
  }

  // ---------- The invariant of a lost form ----------

  ghost predicate DelimiterShape(d: Delimiter) {
    |d| >= 4 && d[..4] == "\r\n--" && '\r' !in d[1..]
  }

  /** All the proof needs to know of header blocks and delimiters. */
  ghost predicate Shaped(form: Form) {
    && form.items != [] && |form.heads| == |form.items| && DelimiterShape(form.d)
    && forall i | 0 <= i < |form.heads| :: NoHyphenLine(form.heads[i])
  }

  /** About to read the header of part `m`, with everything before it right so far: but the reader is already
      past the header of item `m`, or was let in between its content type and its blank line. */
  ghost predicate Entering(form: Form, c: Conf, r: string, parts: seq<Part>)
    requires Shaped(form)
  {
    var items, m := form.items, |parts|;
    && parts <= items && m < |items|
    && (AtLine(r, Rest(form, m)) ||
        (&& m == 0 && items[0].file.contentType != "" && r == CRLF + Rest(form, 0)
         && (c.phase.Headers? ==> c.file == NoFile)))
  }

  /** After part `m - 1`, with everything right so far, but past the header of item `m`. */
  ghost predicate Between(form: Form, r: string, parts: seq<Part>)
    requires Shaped(form)
  {
    parts <= form.items && |parts| < |form.items| && Suffix(r, Rest(form, |parts|))
  }

  /** The parts but for the content of the last are the items. */
  ghost predicate RightSoFar(form: Form, parts: seq<Part>) {
    var items, k := form.items, |parts| - 1;
    0 <= k < |items| && parts[..k] == items[..k] && parts[k].file == items[k].file
  }

  /** Reading the content of the last part: a part is already wrong; or its content will be; or it never ends
      and parts are missing; or after it the reader is past the header of the next item. */
  ghost predicate InBody(form: Form, r: string, parts: seq<Part>)
    requires Shaped(form)
  {
    var d, m := form.d, |parts|;
    && m > 0
    && (|| !RightSoFar(form, parts)
        || parts[m - 1].content + FinalContent(r, d) != form.items[m - 1].content
        || (m < |form.items| && Find(r, d) == |r|)
        || (m < |form.items| && Find(r, d) < |r| && Suffix(r[Find(r, d) + |d|..], Rest(form, m))))
  }

  /** The reader, with `b` still to be fed, has lost the form. */
  ghost predicate Lost(form: Form, c: Conf, b: string, parts: seq<Part>)
    requires Shaped(form)
  {
    var r := c.buf + b;
    match c.phase
    case Preamble => false
    case Body => InBody(form, r, parts)
    case Boundary => !(parts <= form.items) || Between(form, r, parts)
    case _ => !(parts <= form.items) || Entering(form, c, r, parts)
  }

  // ---------- Entering a part ----------

  lemma ContentCutShort(content: string, w: string, d: Delimiter, o: nat)
    requires 0 < o <= |content| && d <= w
    ensures FinalContent((content + w)[o..], d) != content
  {
    var r, k := (content + w)[o..], |content| - o;
    assert OccursAt(r, d, k) by {
      assert forall i | 0 <= i < |d| :: r[k + i] == w[i] == d[i];
    }
    FindSpec(r, d);
  }

  /** The last item: what follows its content holds no further delimiter. */
  lemma NoDelimiterAtEnd(d: Delimiter, o: nat)
    requires |d| >= 4 && d[..4] == "\r\n--" && '\r' !in d[1..] && 0 < o <= |d| + 4
    ensures var r := (d + DASH_CRLF)[o..]; Find(r, d) == |r|
  {
    var w := d + DASH_CRLF;
    var r := w[o..];
    assert forall k | 0 < k < |d| :: w[k] == d[1..][k - 1];
    forall i | 0 <= i <= |r| - |d| ensures !OccursAt(r, d, i) {
      assert r[i + 0] == w[o + i] != d[0];
    }
    FindUnique(r, d, |r|);
  }

  /** Where a line break can be once the content of item `m` is behind. */
  lemma BreakAfterContent(content: string, w: string, r: string)
    requires |w| >= 2 && w[0] == '\r' && Suffix(r, content + w) && CRLF <= r && |r| < |w| + 2
    ensures |r| <= |w|
  {
    var z := content + w;
    assert r[1] == z[|z| - |r| + 1] && z[|content|] == w[0];
  }

  /** Of what follows the content of the last item a line break starts all or the last two bytes. */
  lemma BreaksAtEnd(d: Delimiter, r: string)
    requires DelimiterShape(d) && CRLF <= r && Suffix(r, d + DASH_CRLF)
    ensures r == d + DASH_CRLF || |r| == 2
  {
    var w := d + DASH_CRLF;
    assert r[0] == w[|w| - |r|];
    assert forall k | 0 < k < |d| :: w[k] == d[1..][k - 1];
    assert |r| == |w| ==> r == w[0..] == w;
  }

  lemma BreakAtEnd(content: string, d: Delimiter, r: string)
    requires DelimiterShape(d) && CRLF <= r && |r| < |d| + 6
    requires AtLine(r, content + (d + DASH_CRLF))
    ensures r == d + DASH_CRLF
  {
    var w := d + DASH_CRLF;
    var z := content + w;
    BreakAfterContent(content, w, r);
    SuffixNarrow(r, content, w);
    BreaksAtEnd(d, r);
    assert z[|z| - 3] == w[|w| - 3] == '-';
  }

  lemma HyphensAtEnd(d: Delimiter)
    requires DelimiterShape(d)
    ensures FinalContent((d + DASH_CRLF)[2..], d) == "--"
  {
    NoDelimiterAtEnd(d, 2);
    assert (d + DASH_CRLF)[2..][..2] == "--";
  }

  /** The last item is never completed. */
  lemma LastNotCompleted(content: string, d: Delimiter, r: string)
    requires DelimiterShape(d) && CRLF <= r && AtLine(r, content + (d + DASH_CRLF))
    ensures FinalContent(r[2..], d) != content
  {
    var w := d + DASH_CRLF;
    var z := content + w;
    if |r| >= |w| + 2 {
      assert r[2..] == z[|z| - |r| + 2..];
      ContentCutShort(content, w, d, |z| - |r| + 2);
    } else {
      BreakAtEnd(content, d, r);
      HyphensAtEnd(d);
      assert content != "" ==> z[|z| - |r| - 1] == content[|content| - 1];
    }
  }

  /** Another item: the next delimiter, if there is one, leads past the header of the item after it. */
  lemma NextEntered(d: Delimiter, h: string, rest: string, w: string, r: string, p: nat)
    requires DelimiterShape(d) && NoHyphenLine(h) && w == d + (CRLF + (h + rest))
    requires Suffix(r, w) && |r| < |w| && OccursAt(r, d, p)
    ensures Suffix(r[p + |d|..], rest)
  {
    SuffixOccurs(r, w, d, p);
    DelimiterPastHead(h, d, rest, w, |w| - |r| + p);
    SuffixDrop(r, w, p + |d|);
    assert |w| == |d| + 2 + |h| + |rest|;
    TailNarrow(d, h, rest, w, r[p + |d|..]);
  }

  lemma NextFound(d: Delimiter, h: string, rest: string, w: string, r: string)
    requires DelimiterShape(d) && NoHyphenLine(h) && w == d + (CRLF + (h + rest))
    requires Suffix(r, w) && |r| < |w|
    ensures Find(r, d) < |r| ==> Suffix(r[Find(r, d) + |d|..], rest)
  {
    if Find(r, d) < |r| {
      FindSpec(r, d);
      NextEntered(d, h, rest, w, r, Find(r, d));
    }
  }

  lemma TailNarrow(d: string, h: string, rest: string, w: string, x: string)
    requires w == d + (CRLF + (h + rest)) && Suffix(x, w) && |x| <= |rest|
    ensures Suffix(x, rest)
  {
    assert w == d + (CRLF + h) + rest;
    SuffixNarrow(x, d + (CRLF + h), rest);
  }

  /** Past the content of an item a line break leads into the text after it. */
  lemma PastContent(content: string, w: string, r: string)
    requires |w| >= 2 && w[0] == '\r' && Suffix(r, content + w) && CRLF <= r && |r| < |w| + 2
    ensures Suffix(r[2..], w) && |r[2..]| < |w|
  {
    BreakAfterContent(content, w, r);
    SuffixNarrow(r, content, w);
    SuffixDrop(r, w, 2);
  }

  lemma AppendedRight(form: Form, parts: seq<Part>, f: FileInfo)
    requires parts <= form.items && |parts| < |form.items| && f == form.items[|parts|].file
    ensures var parts' := parts + [Part(f, "")]; RightSoFar(form, parts') && parts'[|parts|].content == ""
  {
  }

  /** Past the header of an item its content is cut short, or never ends, or ends past the header of the next. */
  ghost predicate Missed(content: string, d: Delimiter, rest: string, r: string) {
    FinalContent(r, d) != content || Find(r, d) == |r| || Suffix(r[Find(r, d) + |d|..], rest)
  }

  lemma TailStarts(d: Delimiter, tail: string, w: string)
    requires DelimiterShape(d) && w == d + tail
    ensures d <= w && |w| >= 2 && w[0] == '\r'
  {
    assert d[0] == d[..4][0];
  }

  lemma StartMissed(content: string, d: Delimiter, w: string, r: string)
    requires d <= w && Suffix(r, content + w) && |r| >= |w| + 2
    ensures FinalContent(r[2..], d) != content
  {
    var z := content + w;
    assert r[2..] == z[|z| - |r| + 2..];
    ContentCutShort(content, w, d, |z| - |r| + 2);
  }

  lemma ContentMissed(content: string, d: Delimiter, h: string, rest: string, w: string, r: string)
    requires DelimiterShape(d) && NoHyphenLine(h) && w == d + (CRLF + (h + rest))
    requires CRLF <= r && Suffix(r, content + w)
    ensures Missed(content, d, rest, r[2..])
  {
    TailStarts(d, CRLF + (h + rest), w);
    if |r| >= |w| + 2 {
      StartMissed(content, d, w, r);
    } else {
      PastContent(content, w, r);
      NextFound(d, h, rest, w, r[2..]);
    }
  }

  lemma MissedInBody(form: Form, r: string, parts: seq<Part>)
    requires Shaped(form) && 0 < |parts| < |form.items| && parts[|parts| - 1].content == ""
    requires Missed(form.items[|parts| - 1].content, form.d, Rest(form, |parts|), r)
    ensures InBody(form, r, parts)
  {
    assert "" + FinalContent(r, form.d) == FinalContent(r, form.d);
  }

  lemma LastEntered(form: Form, r: string, parts: seq<Part>, f: FileInfo)
    requires Shaped(form) && parts <= form.items && |parts| + 1 == |form.items|
    requires f == form.items[|parts|].file && AtLine(r, Rest(form, |parts|)) && CRLF <= r
    ensures InBody(form, r[2..], parts + [Part(f, "")])
  {
    var d, content := form.d, form.items[|parts|].content;
    AppendedRight(form, parts, f);
    assert Rest(form, |parts|) == content + (d + DASH_CRLF);
    LastNotCompleted(content, d, r);
    assert "" + FinalContent(r[2..], d) == FinalContent(r[2..], d);
  }

  lemma MiddleEntered(form: Form, r: string, parts: seq<Part>, f: FileInfo)
    requires Shaped(form) && parts <= form.items && |parts| + 1 < |form.items|
    requires f == form.items[|parts|].file && Suffix(r, Rest(form, |parts|)) && CRLF <= r
    ensures InBody(form, r[2..], parts + [Part(f, "")])
  {
    var m, d, content := |parts|, form.d, form.items[|parts|].content;
    AppendedRight(form, parts, f);
    var h, rest := form.heads[m + 1], Rest(form, m + 1);
    assert Tail(form, m) == CRLF + (h + rest);
    ContentMissed(content, d, h, rest, d + Tail(form, m), r);
    MissedInBody(form, r[2..], parts + [Part(f, "")]);
  }

  /** The blank line that starts a part leads into a part that is lost. */
  lemma BlankEntered(form: Form, c: Conf, r: string, parts: seq<Part>)
    requires Shaped(form) && c.phase.Headers? && Entering(form, c, r, parts) && CRLF <= r
    ensures InBody(form, r[2..], parts + [Part(c.file, "")])
  {
    var items, m := form.items, |parts|;
    if c.file != items[m].file {
      assert (parts + [Part(c.file, "")])[m].file != items[m].file;
    } else if m + 1 == |items| {
      LastEntered(form, r, parts, c.file);
    } else {
      MiddleEntered(form, r, parts, c.file);
    }
  }

  // ---------- Every step keeps it ----------

  /** A reader of the form that refuses nothing. */
  ghost predicate Reads(form: Form, env: Env) {
    Shaped(form) && env.delimiter == form.d && AcceptsAll(env)
  }

  ghost predicate StaysLost(form: Form, s: Outcome, b: string, parts: seq<Part>)
    requires Shaped(form)
  {
    s.Next? || s.ok ==> Lost(form, s.conf, b, Collect(parts, s.events))
  }

  lemma CollectOne(parts: seq<Part>, e: Event)
    ensures Collect(parts, [e]) == Apply(parts, e)
  {
    assert [e][1..] == [];
  }

  lemma DropFront(x: string, b: string, n: nat)
    requires n <= |x|
    ensures x[n..] + b == (x + b)[n..] && x[..n] == (x + b)[..n]
  {
  }

  lemma WrongAppended(form: Form, parts: seq<Part>, p: Part)
    requires !(parts <= form.items)
    ensures !RightSoFar(form, parts + [p])
  {
    assert (parts + [p])[..|parts|] == parts;
  }

  lemma BlankAtFront(x: string, b: string)
    requires |x| >= 2
    ensures CRLF <= x + b <==> OccursAt(x, CRLF, 0)
  {
    assert OccursAt(x, CRLF, 0) ==> x[0 + 0] == CRLF[0] && x[0 + 1] == CRLF[1];
  }

  /** A header line that is not blank. */
  lemma LineRead(form: Form, c: Conf, c': Conf, b: string, parts: seq<Part>, pos: nat)
    requires Shaped(form) && c.phase.Headers? && Entering(form, c, c.buf + b, parts)
    requires 0 < pos == Find(c.buf, CRLF) < |c.buf| && c'.phase.Headers? && c'.buf == c.buf[pos + 2..]
    ensures Entering(form, c', c'.buf + b, parts)
  {
    var r := c.buf + b;
    FindSpec(c.buf, CRLF);
    assert c.buf[pos + 1] == CRLF[1];
    BlankAtFront(c.buf, b);
    assert AtLine(r, Rest(form, |parts|));
    DropFront(c.buf, b, pos + 2);
    LineDrop(r, Rest(form, |parts|), pos + 2);
  }

  lemma BlankRead(form: Form, c: Conf, b: string, parts: seq<Part>)
    requires Shaped(form) && c.phase.Headers? && Lost(form, c, b, parts)
    requires 0 == Find(c.buf, CRLF) < |c.buf|
    ensures InBody(form, c.buf[2..] + b, parts + [Part(c.file, "")])
  {
    FindSpec(c.buf, CRLF);
    assert c.buf[0 + 0] == CRLF[0] && c.buf[0 + 1] == CRLF[1];
    DropFront(c.buf, b, 2);
    if parts <= form.items {
      BlankEntered(form, c, c.buf + b, parts);
    } else {
      WrongAppended(form, parts, Part(c.file, ""));
    }
  }

  lemma HeadersLost(form: Form, env: Env, c: Conf, b: string, parts: seq<Part>)
    requires Reads(form, env) && c.phase.Headers? && Lost(form, c, b, parts)
    ensures StaysLost(form, StepHeaders(c, env), b, parts)
  {
    var pos, s := Find(c.buf, CRLF), StepHeaders(c, env);
    if s.Next? && pos == 0 {
      BlankRead(form, c, b, parts);
      CollectOne(parts, Header(c.file));
    } else if s.Next? && parts <= form.items {
      LineRead(form, c, s.conf, b, parts, pos);
    }
  }

  lemma BoundaryLost(form: Form, c: Conf, b: string, parts: seq<Part>)
    requires Shaped(form) && c.phase.Boundary? && Lost(form, c, b, parts)
    ensures StaysLost(form, StepBoundary(c), b, parts)
  {
    if parts <= form.items {
      var r, z := c.buf + b, Rest(form, |parts|);
      if |c.buf| >= 2 && CRLF <= c.buf {
        DropFront(c.buf, b, 2);
        LineDrop(r, z, 2);
      } else if DASH_CRLF <= c.buf {
        DropFront(c.buf, b, |c.buf|);
        assert "" + b == b && c.buf[|c.buf|..] == "";
        SuffixDrop(r, z, |c.buf|);
      }
    }
  }

  /** The last part with `x` added to its content. */
  function Grown(parts: seq<Part>, x: string): (r: seq<Part>)
    requires parts != []
    ensures |r| == |parts|
  {
    Apply(parts, Content(x))
  }

  lemma GrownRight(form: Form, parts: seq<Part>, x: string)
    requires parts != []
    ensures RightSoFar(form, Grown(parts, x)) <==> RightSoFar(form, parts)
    ensures Grown(parts, x)[|parts| - 1].content == parts[|parts| - 1].content + x
  {
    var k := |parts| - 1;
    assert Grown(parts, x)[..k] == parts[..k];
  }

  lemma GrownPrefix(form: Form, parts: seq<Part>, x: string)
    requires parts != [] && Grown(parts, x) <= form.items
    ensures RightSoFar(form, parts) && parts[|parts| - 1].content + x == form.items[|parts| - 1].content
  {
    GrownRight(form, parts, x);
    var k, g := |parts| - 1, Grown(parts, x);
    assert g[k] == form.items[k] && g[..k] == form.items[..k];
  }

  /** A delimiter in the buffer ends the part. */
  lemma BodyEnds(form: Form, x: string, b: string, parts: seq<Part>)
    requires Shaped(form) && InBody(form, x + b, parts) && Find(x, form.d) < |x|
    ensures var p := Find(x, form.d);
            var parts' := Grown(parts, x[..p]);
            !(parts' <= form.items) || Between(form, x[p + |form.d|..] + b, parts')
  {
    var d, p := form.d, Find(x, form.d);
    FindAppend(x, b, d);
    DropFront(x, b, p);
    DropFront(x, b, p + |d|);
    if Grown(parts, x[..p]) <= form.items {
      GrownPrefix(form, parts, x[..p]);
    }
  }

  /** Bytes that cannot start a delimiter are delivered early. */
  lemma BodyGoesOn(form: Form, x: string, b: string, parts: seq<Part>)
    requires Shaped(form) && InBody(form, x + b, parts) && |x| > |form.d| && Find(x, form.d) == |x|
    ensures var len := |x| - |form.d|; InBody(form, x[len..] + b, Grown(parts, x[..len]))
  {
    var d, len := form.d, |x| - |form.d|;
    var r, r' := x + b, x[len..] + b;
    DropFront(x, b, len);
    assert r == x[..len] + r';
    NoEarlyDelimiter(x, b, d);
    FinalContentShifts(x[..len], r', d);
    GrownRight(form, parts, x[..len]);
    Assoc(parts[|parts| - 1].content, x[..len], FinalContent(r', d));
    if Find(r, d) < |r| {
      assert r[Find(r, d) + |d|..] == r'[Find(r', d) + |d|..];
    }
  }

  lemma BodyLost(form: Form, env: Env, c: Conf, b: string, parts: seq<Part>)
    requires Reads(form, env) && c.phase.Body? && Lost(form, c, b, parts)
    ensures StaysLost(form, StepBody(c, env), b, parts)
  {
    var x, d, pos := c.buf, form.d, Find(c.buf, form.d);
    var s := StepBody(c, env);
    if |d| <= |x| && pos < |x| {
      assert s == Next(c.(phase := Boundary, buf := x[pos + |d|..]), [Content(x[..pos])]);
      BodyEnds(form, x, b, parts);
      CollectOne(parts, Content(x[..pos]));
    } else if |x| > |d| {
      var len := |x| - |d|;
      assert s == Stop(true, c.(buf := x[len..]), [Content(x[..len])]);
      BodyGoesOn(form, x, b, parts);
      CollectOne(parts, Content(x[..len]));
    } else {
      assert s == Stop(true, c, []);
    }
  }

  lemma StepLost(form: Form, env: Env, c: Conf, b: string, parts: seq<Part>)
    requires Reads(form, env) && Lost(form, c, b, parts)
    ensures StaysLost(form, Step(c, env), b, parts)
  {
    match c.phase
    case NewEntry =>
    case Headers(_) => HeadersLost(form, env, c, b, parts);
    case Body => BodyLost(form, env, c, b, parts);
    case Boundary => BoundaryLost(form, c, b, parts);
  }

  // ---------- Whole calls ----------

  /** In the body state a call leaves no delimiter behind, and no byte that could have been delivered. */
  ghost predicate Settled(form: Form, c: Conf) {
    c.phase.Body? ==> |c.buf| <= |form.d| && Find(c.buf, form.d) == |c.buf|
  }

  lemma StopSettles(form: Form, env: Env, c: Conf)
    requires Reads(form, env) && (Step(c, env).Stop? && Step(c, env).ok)
    ensures Settled(form, Step(c, env).conf)
  {
    var d, len := form.d, |c.buf| - |form.d|;
    if c.phase.Body? && len > 0 {
      NoEarlyDelimiter(c.buf, "", d);
      assert c.buf + "" == c.buf;
      var y := c.buf[len..];
      assert !OccursAt(c.buf, d, len);
      assert !OccursAt(y, d, 0) by {
        assert forall i | 0 <= i < |y| :: y[i] == c.buf[len + i];
      }
      FindUnique(y, d, |y|);
    }
  }

  lemma {:induction false} DrainLost(form: Form, env: Env, c: Conf, b: string, parts: seq<Part>)
    requires Reads(form, env) && Lost(form, c, b, parts)
    ensures var r := Drain(c, env);
            r.ok ==> Settled(form, r.conf) && Lost(form, r.conf, b, Collect(parts, r.events))
    decreases |c.buf|, c.phase == NewEntry
  {
    if !Idle(c) {
      var s := Step(c, env);
      StepLost(form, env, c, b, parts);
      if s.Next? {
        StepShrinks(c, env);
        DrainLost(form, env, s.conf, b, Collect(parts, s.events));
        CollectConcat(parts, s.events, Drain(s.conf, env).events);
      } else if s.ok {
        StopSettles(form, env, c);
      }
    }
  }

  lemma LostIsNotRead(form: Form, c: Conf, parts: seq<Part>)
    requires Shaped(form) && Settled(form, c) && Lost(form, c, "", parts)
    ensures parts != form.items
  {
    assert c.buf + "" == c.buf;
    if c.phase.Body? {
      var k := |parts| - 1;
      assert FinalContent(c.buf, form.d) == "";
      assert parts[k].content + "" == parts[k].content;
    }
  }

  /** However the rest of the body is cut, its items do not come back. */
  lemma {:induction false} PiecesLost(form: Form, env: Env, c: Conf, pieces: seq<string>, parts: seq<Part>)
    requires Reads(form, env) && Settled(form, c) && Lost(form, c, Join(pieces), parts)
    ensures var r := ParsePieces(c, pieces, env); r.ok ==> Collect(parts, r.events) != form.items
    decreases |pieces|
  {
    if pieces == [] {
      LostIsNotRead(form, c, parts);
    } else {
      var c0, b := Append(c, pieces[0]), Join(pieces[1..]);
      assert c.buf + Join(pieces) == c0.buf + b;
      DrainLost(form, env, c0, b, parts);
      var r := Drain(c0, env);
      if r.ok {
        PiecesLost(form, env, r.conf, pieces[1..], Collect(parts, r.events));
        CollectConcat(parts, r.events, ParsePieces(r.conf, pieces[1..], env).events);
      }
    }
  }

  // ---------- Opening delimiters found late ----------

  function FormOf(items: seq<Part>, d: Delimiter): Form {
    Form(items, Heads(items), d)
  }

  lemma FormShaped(items: seq<Part>, boundary: string)
    requires items != [] && AllTransparent(items, CrlfDashBoundary(boundary)) && BoundaryCharsValid(boundary)
    ensures Shaped(FormOf(items, CrlfDashBoundary(boundary)))
  {
    var d := CrlfDashBoundary(boundary);
    assert d[..4] == "\r\n--" && d[1..] == "\n--" + boundary;
    forall i | 0 <= i < |items| ensures NoHyphenLine(Heads(items)[i]) {
      HeadHasNoHyphenLine(items[i].file);
    }
  }

  lemma HeadEnds(f: FileInfo)
    ensures var h := Head(f); |h| >= 2 && h[|h| - 2..] == CRLF
  {
  }

  /** What follows an opening delimiter in an entry is past its header, but for one place. */
  lemma AfterLateOpening(f: FileInfo, boundary: string, rest: string, p: nat)
    requires Quotable(f) && LineText(f.contentType) && BoundaryCharsValid(boundary)
    requires OccursAt(Head(f) + rest, DashBoundaryCrlf(boundary), p)
    ensures var y := (Head(f) + rest)[p + |DashBoundaryCrlf(boundary)|..];
            AtLine(y, rest) || (f.contentType != "" && y == CRLF + rest)
  {
    var opening, h := DashBoundaryCrlf(boundary), Head(f);
    var t, e := h + rest, p + |opening|;
    var y := t[e..];
    if e < |h| {
      OpeningInHead(f, boundary, rest, p);
      HeadEnds(f);
      assert y == h[|h| - 2..] + rest;
    } else {
      assert t[p + (|opening| - 1)] == opening[|opening| - 1] == '\n';
      assert y == rest[e - |h|..];
      assert e > |h| ==> rest[e - |h| - 1] == t[e - 1];
    }
  }

  lemma OccursLater(a: string, t: string, d: string, p: nat)
    requires |a| <= p && OccursAt(a + t, d, p)
    ensures OccursAt(t, d, p - |a|)
  {
    forall k | 0 <= k < |d| ensures t[p - |a| + k] == d[k] {
      assert (a + t)[p + k] == d[k];
    }
  }

  lemma LateOpeningLost(form: Form, boundary: string, y: string, b: string, p: nat)
    requires Shaped(form) && BoundaryCharsValid(boundary)
    requires var f := form.items[0].file; form.heads[0] == Head(f) && Quotable(f) && LineText(f.contentType)
    requires var opening, t := DashBoundaryCrlf(boundary), Entry(form, 0);
             p > 0 && OccursAt(opening + t, opening, p) && y + b == (opening + t)[p + |opening|..]
    ensures Lost(form, Conf(NewEntry, NoFile, false, y), b, [])
  {
    var f, rest := form.items[0].file, Rest(form, 0);
    LateInEntry(f, boundary, rest, p, y + b);
    assert Entering(form, Conf(NewEntry, NoFile, false, y), y + b, []);
  }

  lemma LateInEntry(f: FileInfo, boundary: string, rest: string, p: nat, y: string)
    requires Quotable(f) && LineText(f.contentType) && BoundaryCharsValid(boundary)
    requires var opening, t := DashBoundaryCrlf(boundary), Head(f) + rest;
             p > 0 && OccursAt(opening + t, opening, p) && y == (opening + t)[p + |opening|..]
    ensures AtLine(y, rest) || (f.contentType != "" && y == CRLF + rest)
  {
    var opening, t := DashBoundaryCrlf(boundary), Head(f) + rest;
    OpeningsApart(boundary, t, p);
    OccursLater(opening, t, opening, p);
    assert y == t[p - |opening| + |opening|..];
    AfterLateOpening(f, boundary, rest, p - |opening|);
  }

  lemma {:induction false} FirstWhole(pieces: seq<string>, opening: string) returns (k: nat)
    requires opening != ""
    ensures k <= |pieces| && forall i | 0 <= i < k :: Find(pieces[i], opening) == |pieces[i]|
    ensures k < |pieces| ==> Find(pieces[k], opening) < |pieces[k]|
  {
    if pieces == [] || Find(pieces[0], opening) < |pieces[0]| {
      k := 0;
    } else {
      k := FirstWhole(pieces[1..], opening);
      k := k + 1;
    }
  }

  lemma {:induction false} JoinAround(pieces: seq<string>, k: nat)
    requires k < |pieces|
    ensures Join(pieces) == Join(pieces[..k]) + pieces[k] + Join(pieces[k + 1..])
  {
    if k > 0 {
      JoinAround(pieces[1..], k - 1);
      assert pieces[1..][..k - 1] == pieces[..k][1..] && pieces[1..][k..] == pieces[k + 1..];
      Assoc(pieces[0], Join(pieces[..k][1..]), pieces[k]);
      Assoc(pieces[0], Join(pieces[..k][1..]) + pieces[k], Join(pieces[k + 1..]));
    }
  }

  /** When nothing comes before the first whole opening delimiter it is not split. */
  lemma {:induction false} WholeAtStart(pieces: seq<string>, k: nat, opening: string)
    requires opening != "" && k < |pieces| && Find(pieces[k], opening) < |pieces[k]| && Join(pieces[..k]) == ""
    ensures OpeningInOnePiece(pieces, opening)
  {
    if k > 0 {
      assert pieces[0] == "" && Join(pieces[..k][1..]) == "";
      assert pieces[..k][1..] == pieces[1..][..k - 1];
      WholeAtStart(pieces[1..], k - 1, opening);
      assert Join(pieces) == Join(pieces[1..]);
    }
  }

  lemma OneReached(form: Form, env: Env, c1: Conf, pieces: seq<string>)
    requires Reads(form, env) && pieces != [] && Reaches(Append(Initial, pieces[0]), c1, [], env)
    requires Lost(form, c1, Join(pieces[1..]), [])
    ensures var r := ParsePieces(Initial, pieces, env); r.ok ==> Collect([], r.events) != form.items
  {
    DrainLost(form, env, c1, Join(pieces[1..]), []);
    var r := Drain(Append(Initial, pieces[0]), env);
    assert [] + Drain(c1, env).events == Drain(c1, env).events;
    if r.ok {
      PiecesLost(form, env, r.conf, pieces[1..], Collect([], r.events));
      CollectConcat([], r.events, ParsePieces(r.conf, pieces[1..], env).events);
    }
  }

  lemma SerializedEntry(items: seq<Part>, boundary: string)
    requires items != []
    ensures Serialize(items, boundary, true) ==
            DashBoundaryCrlf(boundary) + Entry(FormOf(items, CrlfDashBoundary(boundary)), 0)
  {
    SerializedShape(items, boundary);
    EntryIsAfterOpening(FormOf(items, CrlfDashBoundary(boundary)), 0);
    assert items[0..] == items;
  }

  lemma LateStateLost(form: Form, boundary: string, before: string, x: string, b: string, q: nat)
    requires Shaped(form) && BoundaryCharsValid(boundary) && before != ""
    requires var f := form.items[0].file; form.heads[0] == Head(f) && Quotable(f) && LineText(f.contentType)
    requires before + (x + b) == DashBoundaryCrlf(boundary) + Entry(form, 0)
    requires OccursAt(x, DashBoundaryCrlf(boundary), q)
    ensures Lost(form, Conf(NewEntry, NoFile, false, x[q + |DashBoundaryCrlf(boundary)|..]), b, [])
  {
    var opening := DashBoundaryCrlf(boundary);
    OccursInside(before, x, b, opening, q);
    LateOpeningLost(form, boundary, x[q + |opening|..], b, |before| + q);
  }

  lemma LateStart(form: Form, boundary: string, env: Env, before: string, x: string, b: string) returns (c: Conf)
    requires Reads(form, env) && env.opening == DashBoundaryCrlf(boundary) && BoundaryCharsValid(boundary)
    requires var f := form.items[0].file; form.heads[0] == Head(f) && Quotable(f) && LineText(f.contentType)
    requires before != "" && before + (x + b) == env.opening + Entry(form, 0) && Find(x, env.opening) < |x|
    ensures Lost(form, c, b, []) && Reaches(Append(Initial, x), c, [], env)
  {
    var q := Find(x, env.opening);
    c := Conf(NewEntry, NoFile, false, x[q + |env.opening|..]);
    assert Lost(form, c, b, []) by {
      FindSpec(x, env.opening);
      LateStateLost(form, boundary, before, x, b, q);
    }
    OpeningTaken(x, q, Append(Initial, x), c, env);
  }

  lemma LateReaderLost(form: Form, boundary: string, env: Env, before: string, pieces: seq<string>)
    requires Reads(form, env) && env.opening == DashBoundaryCrlf(boundary) && BoundaryCharsValid(boundary)
    requires var f := form.items[0].file; form.heads[0] == Head(f) && Quotable(f) && LineText(f.contentType)
    requires before != "" && pieces != [] && before + Join(pieces) == env.opening + Entry(form, 0)
    requires Find(pieces[0], env.opening) < |pieces[0]|
    ensures var r := ParsePieces(Initial, pieces, env); r.ok ==> Collect([], r.events) != form.items
  {
    var c := LateStart(form, boundary, env, before, pieces[0], Join(pieces[1..]));
    OneReached(form, env, c, pieces);
  }

  /** Parsing that starts late in the body does not bring back the items. */
  lemma LatePiecesLost(items: seq<Part>, boundary: string, accept: Event -> bool, before: string, pieces: seq<string>)
    requires BoundaryCharsValid(boundary) && forall e :: accept(e)
    requires items != [] && AllTransparent(items, CrlfDashBoundary(boundary))
    requires before != "" && pieces != [] && before + Join(pieces) == Serialize(items, boundary, true)
    requires Find(pieces[0], DashBoundaryCrlf(boundary)) < |pieces[0]|
    ensures var r := ParsePieces(Initial, pieces, EnvFor(boundary, accept)); r.ok ==> Collect([], r.events) != items
  {
    FormShaped(items, boundary);
    SerializedEntry(items, boundary);
    LateReaderLost(FormOf(items, CrlfDashBoundary(boundary)), boundary, EnvFor(boundary, accept), before, pieces);
  }

  lemma OccursInside(before: string, x: string, b: string, d: string, q: nat)
    requires OccursAt(x, d, q)
    ensures OccursAt(before + (x + b), d, |before| + q)
    ensures (before + (x + b))[|before| + q + |d|..] == x[q + |d|..] + b
  {
    var s, o := before + (x + b), |before| + q;
    forall k | 0 <= k < |d| ensures s[o + k] == d[k] {
      assert s[o + k] == x[q + k];
    }
  }

  lemma OpeningTaken(x: string, q: nat, c: Conf, c1: Conf, env: Env)
    requires q == Find(x, env.opening) < |x| && c == Append(Initial, x)
    requires c1 == Conf(NewEntry, NoFile, false, x[q + |env.opening|..])
    ensures Reaches(c, c1, [], env)
  {
    hide Drain, Regular, Find, OccursAt;
    assert c.buf == x;
    assert StepPreamble(c, env) == Next(c1, []) by {
      FindSpec(x, env.opening);
      PrefixAt(x, env.opening, q);
    }
    ReachesStep(c, c1, [], env);
  }

  lemma PrefixAt(x: string, p: string, q: nat)
    requires OccursAt(x, p, q)
    ensures p <= x[q..] && x[q..][|p|..] == x[q + |p|..]
  {
    assert forall k | 0 <= k < |p| :: x[q + k] == p[k];
  }

  /** The items of a serialized form come back from `parse` calls exactly when no call ends in the middle of
      its opening delimiter, and then the form is valid. */
  lemma ItemsBackIff(items: seq<Part>, boundary: string, accept: Event -> bool, pieces: seq<string>)
    requires BoundaryCharsValid(boundary) && forall e :: accept(e)
    requires items != [] && AllTransparent(items, CrlfDashBoundary(boundary)) && AllShort(items)
    requires Join(pieces) == Serialize(items, boundary, true)
    ensures var p := ParsePieces(Initial, pieces, EnvFor(boundary, accept));
            && (p.ok && Collect([], p.events) == items <==> OpeningInOnePiece(pieces, DashBoundaryCrlf(boundary)))
            && (OpeningInOnePiece(pieces, DashBoundaryCrlf(boundary)) ==> p.conf.valid && p.conf.buf == "")
  {
    if OpeningInOnePiece(pieces, DashBoundaryCrlf(boundary)) {
      CutRoundTrip(items, boundary, accept, pieces);
    } else {
      SplitLosesItems(items, boundary, accept, pieces);
    }
  }

  lemma SplitLosesItems(items: seq<Part>, boundary: string, accept: Event -> bool, pieces: seq<string>)
    requires BoundaryCharsValid(boundary) && forall e :: accept(e)
    requires items != [] && AllTransparent(items, CrlfDashBoundary(boundary))
    requires Join(pieces) == Serialize(items, boundary, true)
    requires !OpeningInOnePiece(pieces, DashBoundaryCrlf(boundary))
    ensures var p := ParsePieces(Initial, pieces, EnvFor(boundary, accept)); p.ok ==> Collect([], p.events) != items
  {
    var env, opening := EnvFor(boundary, accept), DashBoundaryCrlf(boundary);
    var k := FirstWhole(pieces, opening);
    if k == |pieces| {
      SplitOpening(pieces, env);
    } else {
      PiecesDropped(pieces, k, env);
      JoinAround(pieces, k);
      if Join(pieces[..k]) == "" {
        WholeAtStart(pieces, k, opening);
        assert false;
      }
      assert pieces[k..][1..] == pieces[k + 1..];
      Assoc(Join(pieces[..k]), pieces[k], Join(pieces[k + 1..]));
      LatePiecesLost(items, boundary, accept, Join(pieces[..k]), pieces[k..]);
    }
  }

  // ---------- A form that loses its first item ----------

  lemma NotAcrossBlankLine(h: string, t: string, boundary: string, i: nat)
    requires BoundaryCharsValid(boundary) && |h| >= 4 && h[|h| - 4..] == "\r\n\r\n"
    requires i < |h| <= i + |DashBoundaryCrlf(boundary)|
    ensures !OccursAt(h + t, DashBoundaryCrlf(boundary), i)
  {
    var opening, s := DashBoundaryCrlf(boundary), h + t;
    var q, k := |opening| - 2, |h| - 2 - i;
    assert h[|h| - 1] == h[|h| - 4..][3] && h[|h| - 2] == h[|h| - 4..][2] && h[|h| - 3] == h[|h| - 4..][1];
    assert opening[0] == '-' && opening[q - 1] != '\n';
    if |s| >= i + |opening| {
      if k == -1 {
        assert s[i + 0] != opening[0];
      } else if k == q {
        assert s[i + (q - 1)] != opening[q - 1];
      } else {
        assert s[i + k] == '\r' != opening[k];
      }
    }
  }

  lemma NotAfterHead(h: string, content: string, rest: string, opening: string, i: nat)
    requires opening != "" && opening[0] == '-' && '-' !in content && |h| <= i < |h| + |content| + 2
    ensures !OccursAt(h + (content + (CRLF + rest)), opening, i)
  {
    var s := h + (content + (CRLF + rest));
    assert i < |h| + |content| ==> s[i] == content[i - |h|];
    assert s[i + 0] != opening[0];
  }

  /** No opening delimiter starts in the header block or content of such an item. */
  lemma NoOpeningInItem(f: FileInfo, content: string, boundary: string, rest: string, i: nat)
    requires Quotable(f) && f.contentType == "" && '-' !in content && BoundaryCharsValid(boundary)
    requires i < |Head(f)| + |content| + 2
    ensures !OccursAt(Head(f) + (content + (CRLF + rest)), DashBoundaryCrlf(boundary), i)
  {
    var h, t, opening := Head(f), content + (CRLF + rest), DashBoundaryCrlf(boundary);
    if i >= |h| {
      NotAfterHead(h, content, rest, opening, i);
    } else if i + |opening| >= |h| {
      assert h == DispositionLine(f) + "\r\n\r\n";
      NotAcrossBlankLine(h, t, boundary, i);
    } else if OccursAt(h + t, opening, i) {
      OpeningInHead(f, boundary, t, i);
      assert false;
    }
  }

  /** Such an item with the line end before it and after it. */
  function ItemText(item: Part): string {
    CRLF + (Head(item.file) + (item.content + CRLF))
  }

  lemma OpeningAfterItem(item: Part, boundary: string, later: string)
    requires Quotable(item.file) && item.file.contentType == "" && '-' !in item.content
    requires BoundaryCharsValid(boundary)
    ensures var opening := DashBoundaryCrlf(boundary);
            Find(ItemText(item) + (opening + later), opening) == |ItemText(item)|
  {
    var opening, h, x := DashBoundaryCrlf(boundary), Head(item.file), ItemText(item);
    var t := h + (item.content + (CRLF + (opening + later)));
    var y := x + (opening + later);
    assert y == CRLF + t;
    forall i | 0 <= i < |x| ensures !OccursAt(y, opening, i) {
      if i < 2 {
        assert y[i + 0] != opening[0];
      } else if OccursAt(y, opening, i) {
        OccursLater(CRLF, t, opening, i);
        NoOpeningInItem(item.file, item.content, boundary, opening + later, i - 2);
        assert false;
      }
    }
    assert OccursAt(y, opening, |x|);
    FindUnique(y, opening, |x|);
  }

  lemma CutInside(item: Part, boundary: string, later: string)
    ensures var opening, d := DashBoundaryCrlf(boundary), CrlfDashBoundary(boundary);
            opening + (Head(item.file) + (item.content + (d + (CRLF + later)))) ==
            ("--" + boundary) + (ItemText(item) + (opening + later))
  {
    Shuffle("--" + boundary, CRLF, Head(item.file), item.content, later);
    assert CrlfDashBoundary(boundary) == CRLF + ("--" + boundary);
  }

  lemma Shuffle(dashed: string, nl: string, h: string, content: string, later: string)
    ensures (dashed + nl) + (h + (content + ((nl + dashed) + (nl + later)))) ==
            dashed + ((nl + (h + (content + nl))) + ((dashed + nl) + later))
  {
  }

  lemma OnePiece(c: Conf, y: string, env: Env)
    ensures Join([y]) == y && ParsePieces(c, [y], env) == Drain(Append(c, y), env)
  {
    var r := Drain(Append(c, y), env);
    assert [y][1..] == [];
    assert y + "" == y && r.events + [] == r.events;
  }

  /** A call that is too short for an opening delimiter might as well not have been made. */
  lemma ShortCallDropped(a: string, y: string, env: Env)
    requires |a| < |env.opening|
    ensures Join([a, y]) == a + y && ParsePieces(Initial, [a, y], env) == Drain(Append(Initial, y), env)
  {
    var pieces := [a, y];
    assert Find(pieces[0], env.opening) == |pieces[0]|;
    PiecesDropped(pieces, 1, env);
    assert pieces[1..] == [y];
    OnePiece(Initial, y, env);
  }

  lemma DeliversFrom(c: Conf, c1: Conf, items: seq<Part>, env: Env)
    requires Reaches(c, c1, [], env) && Delivers(c1, items, env, [])
    ensures var r := Drain(c, env); r.ok && r.conf.valid && Collect([], r.events) == items
  {
    assert [] + Drain(c1, env).events == Drain(c1, env).events && [] + items == items;
  }

  lemma StartsAt(x: string, later: string, c: Conf, items: seq<Part>, env: Env)
    requires Find(x + (env.opening + later), env.opening) == |x| && c == Append(Initial, x + (env.opening + later))
    requires Delivers(Conf(NewEntry, NoFile, false, later), items, env, [])
    ensures var r := Drain(c, env); r.ok && r.conf.valid && Collect([], r.events) == items
  {
    var y, c1 := x + (env.opening + later), Conf(NewEntry, NoFile, false, later);
    assert y[|x| + |env.opening|..] == later;
    OpeningTaken(y, |x|, c, c1, env);
    DeliversFrom(c, c1, items, env);
  }

  lemma LostInFront(a: string, x: string, later: string, items: seq<Part>, env: Env)
    requires |a| < |env.opening| && Find(x + (env.opening + later), env.opening) == |x|
    requires Delivers(Conf(NewEntry, NoFile, false, later), items, env, [])
    ensures Join([a, x + (env.opening + later)]) == a + (x + (env.opening + later))
    ensures var p := ParsePieces(Initial, [a, x + (env.opening + later)], env);
            p.ok && p.conf.valid && Collect([], p.events) == items
  {
    var y := x + (env.opening + later);
    ShortCallDropped(a, y, env);
    StartsAt(x, later, Append(Initial, y), items, env);
  }

  lemma FirstItemCut(items: seq<Part>, boundary: string)
    requires |items| >= 2
    ensures var later := Entry(FormOf(items, CrlfDashBoundary(boundary)), 1);
            Serialize(items, boundary, true) ==
            ("--" + boundary) + (ItemText(items[0]) + (DashBoundaryCrlf(boundary) + later))
  {
    var d, form := CrlfDashBoundary(boundary), FormOf(items, CrlfDashBoundary(boundary));
    SerializedEntry(items, boundary);
    assert Tail(form, 0) == CRLF + Entry(form, 1);
    assert Rest(form, 0) == items[0].content + (d + Tail(form, 0));
    assert Entry(form, 0) == Head(items[0].file) + Rest(form, 0);
    CutInside(items[0], boundary, Entry(form, 1));
  }

  /** With two items or more, cutting inside the first delimiter drops such a first item without a trace: the
      other items come back and the form is valid. */
  lemma FirstItemLost(items: seq<Part>, boundary: string, accept: Event -> bool) returns (pieces: seq<string>)
    requires BoundaryCharsValid(boundary) && forall e :: accept(e)
    requires |items| >= 2 && AllTransparent(items, CrlfDashBoundary(boundary)) && DispositionsFit(items)
    requires items[0].file.contentType == "" && '-' !in items[0].content
    ensures Join(pieces) == Serialize(items, boundary, true)
    ensures var p := ParsePieces(Initial, pieces, EnvFor(boundary, accept));
            p.ok && p.conf.valid && Collect([], p.events) == items[1..]
  {
    var later := Entry(FormOf(items, CrlfDashBoundary(boundary)), 1);
    var x := ItemText(items[0]);
    pieces := ["--" + boundary, x + (DashBoundaryCrlf(boundary) + later)];
    FirstItemCut(items, boundary);
    OpeningAfterItem(items[0], boundary, later);
    RestDelivered(items, boundary, accept);
    LostInFront("--" + boundary, x, later, items[1..], EnvFor(boundary, accept));
  }

  lemma RestDelivered(items: seq<Part>, boundary: string, accept: Event -> bool)
    requires BoundaryCharsValid(boundary) && forall e :: accept(e)
    requires |items| >= 2 && AllTransparent(items, CrlfDashBoundary(boundary)) && DispositionsFit(items)
    ensures var form := FormOf(items, CrlfDashBoundary(boundary));
            Delivers(Conf(NewEntry, NoFile, false, Entry(form, 1)), items[1..], EnvFor(boundary, accept), [])
  {
    CleanFor(boundary, accept);
    EntryIsAfterOpening(FormOf(items, CrlfDashBoundary(boundary)), 1);
    ItemsDelivered(NoFile, false, items[1..], EnvFor(boundary, accept), []);
  }
}
