/** The multipart/form-data serializer of util/httplib.h, and the proof that the parser undoes it. */
module MultipartRoundTrip {
  import opened Machine
  import opened Text
  import opened Multipart

  // ---------- Serializer ----------

  function FilenameText(filename: string): string {
    if filename != "" then "; filename=\"" + filename + "\"" else ""
  }

  function DispositionLine(f: FileInfo): string {
    "Content-Disposition: form-data; name=\"" + f.name + "\"" + FilenameText(f.filename)
  }

  function ContentTypeLine(f: FileInfo): string {
    "Content-Type: " + f.contentType
  }

  function HeaderLines(f: FileInfo): string {
    DispositionLine(f) + CRLF + if f.contentType != "" then ContentTypeLine(f) + CRLF else ""
  }

  function ItemBegin(item: Part, boundary: string): string {
    "--" + boundary + CRLF + HeaderLines(item.file) + CRLF
  }

  function SerializeItems(items: seq<Part>, boundary: string): string {
    if items == [] then ""
    else ItemBegin(items[0], boundary) + (items[0].content + CRLF) + SerializeItems(items[1..], boundary)
  }

  function Serialize(items: seq<Part>, boundary: string, finish: bool): string {
    SerializeItems(items, boundary) + if finish then "--" + boundary + DASH_CRLF else ""
  }

  method SerializeFormData(items: seq<Part>, boundary: string, finish: bool) returns (body: string)
    ensures body == Serialize(items, boundary, finish)
  {
    body := "";
    for i := 0 to |items|
      invariant body + SerializeItems(items[i..], boundary) == SerializeItems(items, boundary)
    {
      assert items[i..][1..] == items[i + 1..];
      ghost var begin, content, rest :=
        ItemBegin(items[i], boundary), items[i].content + CRLF, SerializeItems(items[i + 1..], boundary);
      Assoc(body, begin, content);
      Assoc(body, begin + content, rest);
      body := body + ItemBegin(items[i], boundary);
      body := body + (items[i].content + CRLF);
    }
    assert items[|items|..] == [];
    if finish {
      body := body + ("--" + boundary + DASH_CRLF);
    }
  }

  /** A body can be written in several goes, all but the last of them unfinished. */
  lemma WrittenInParts(items: seq<Part>, more: seq<Part>, boundary: string, finish: bool)
    ensures Serialize(items, boundary, false) + Serialize(more, boundary, finish) ==
            Serialize(items + more, boundary, finish)
  {
    ItemsJoined(items, more, boundary);
    hide SerializeItems;
    var a, b := SerializeItems(items, boundary), SerializeItems(more, boundary);
    assert Serialize(items, boundary, false) == a + "" == a;
    Assoc(a, b, if finish then "--" + boundary + DASH_CRLF else "");
  }

  lemma {:induction false} ItemsJoined(items: seq<Part>, more: seq<Part>, boundary: string)
    ensures SerializeItems(items, boundary) + SerializeItems(more, boundary) == SerializeItems(items + more, boundary)
  {
    hide ItemBegin;
    var all, rest := items + more, SerializeItems(more, boundary);
    if items == [] {
      assert all == more && "" + rest == rest;
    } else {
      hide SerializeItems;
      ItemsJoined(items[1..], more, boundary);
      var first := FirstItem(items, boundary);
      assert all[0] == items[0] && all[1..] == items[1..] + more;
      var same := FirstItem(all, boundary);
      Assoc(first, SerializeItems(items[1..], boundary), rest);
    }
  }

  lemma FirstItem(items: seq<Part>, boundary: string) returns (first: string)
    requires items != []
    ensures first == ItemBegin(items[0], boundary) + (items[0].content + CRLF)
    ensures SerializeItems(items, boundary) == first + SerializeItems(items[1..], boundary)
  {
    first := ItemBegin(items[0], boundary) + (items[0].content + CRLF);
  }

  // ---------- Boundary ----------

  predicate IsBoundaryChar(c: char) {
    'a' <= c <= 'z' || 'A' <= c <= 'Z' || '0' <= c <= '9' || c == '-' || c == '_'
  }

  predicate BoundaryCharsValid(boundary: string) {
    forall i | 0 <= i < |boundary| :: IsBoundaryChar(boundary[i])
  }

  /** The letters and the digits of the C locale, the hyphen and the underscore. */
  lemma BoundaryCharacters(c: char)
    ensures BoundaryCharsValid([c]) <==> c in UPPER || c in LOWER || c in DIGITS || c in "-_"
  {
    LettersAndDigits(c);
    assert [c][0] == c;
  }

  method IsBoundaryCharsValid(boundary: string) returns (valid: bool)
    ensures valid == BoundaryCharsValid(boundary)
  {
    valid := true;
    for i := 0 to |boundary|
      invariant valid && forall k | 0 <= k < i :: IsBoundaryChar(boundary[k])
    {
      if !IsBoundaryChar(boundary[i]) {
        valid := false;
        break;
      }
    }
  }

  function ContentTypeFor(boundary: string): string {
    "multipart/form-data; boundary=" + boundary
  }

  function ParseBoundary(contentType: string): Option<string> {
    var pos := Find(contentType, "boundary=");
    if pos == |contentType| then None
    else
      var b := contentType[pos + 9..];
      var unquoted := if |b| >= 2 && b[0] == '"' && b[|b| - 1] == '"' then b[1..|b| - 1] else b;
      if unquoted == "" then None else Some(unquoted)
  }

  /** The boundary announced in the generated Content-Type is the one read back, unless it is empty. */
  lemma BoundaryRecovered(boundary: string)
    requires BoundaryCharsValid(boundary)
    ensures ParseBoundary(ContentTypeFor(boundary)) == if boundary == "" then None else Some(boundary)
  {
    var pre, key := "multipart/form-data; ", "boundary=";
    AbsentFirstByte(pre, key);
    FindAfter(pre, key, boundary);
    assert ContentTypeFor(boundary) == pre + key + boundary;
    assert ContentTypeFor(boundary)[|pre| + 9..] == boundary;
  }

  /** Quotes around a boundary are taken off, whatever is between them. */
  lemma QuotedBoundary(boundary: string)
    ensures ParseBoundary(ContentTypeFor("\"" + boundary + "\"")) == if boundary == "" then None else Some(boundary)
  {
    var pre, key, quoted := "multipart/form-data; ", "boundary=", "\"" + boundary + "\"";
    AbsentFirstByte(pre, key);
    FindAfter(pre, key, quoted);
    assert ContentTypeFor(quoted) == pre + key + quoted;
    assert ContentTypeFor(quoted)[|pre| + 9..] == quoted;
    assert quoted[1..|quoted| - 1] == boundary;
  }

  /** Anything that does not begin and end with a quote is taken as it is; a header without a boundary has none. */
  lemma PlainBoundary(pre: string, boundary: string)
    requires !Occurs(pre, "boundary=") && !(|boundary| >= 2 && boundary[0] == '"' && boundary[|boundary| - 1] == '"')
    ensures ParseBoundary(pre).None?
    ensures ParseBoundary(pre + "boundary=" + boundary) == if boundary == "" then None else Some(boundary)
  {
    FindSpec(pre, "boundary=");
    FindAfter(pre, "boundary=", boundary);
    assert (pre + "boundary=" + boundary)[|pre| + 9..] == boundary;
  }

  // ---------- Round trip ----------

  predicate LineText(s: string) {
    '\r' !in s && '\n' !in s
  }

  /** From `i` on no quote in `name` is followed by what could end the line, were it the closing quote. */
  predicate NameUnbroken(name: string, filename: string, i: nat) {
    forall k | i <= k < |name| && name[k] == '"' :: FilenameTail(name[k + 1..] + "\"" + FilenameText(filename)).None?
  }

  predicate FilenameUnbroken(filename: string, i: nat) {
    forall k | i <= k < |filename| && filename[k] == '"' :: !ExtendedNameTail(filename[k + 1..] + "\"")
  }

  /** The name and the filename can be read back from their line. */
  predicate Quotable(f: FileInfo) {
    && LineText(f.name) && NameUnbroken(f.name, f.filename, 0)
    && LineText(f.filename) && FilenameUnbroken(f.filename, 0)
  }

  /** What the serializer does not escape and the parser does not give back. */
  predicate Transparent(item: Part, delimiter: Delimiter) {
    && Quotable(item.file)
    && LineText(item.file.contentType) && Trimmed(item.file.contentType)
    && !Occurs(item.content, delimiter)
  }

  predicate AllTransparent(items: seq<Part>, delimiter: Delimiter) {
    forall i | 0 <= i < |items| :: Transparent(items[i], delimiter)
  }

  /** The body after its opening delimiter. */
  function AfterOpening(items: seq<Part>, delimiter: string): string
    requires items != []
  {
    HeaderLines(items[0].file) + CRLF + items[0].content + delimiter +
    if |items| == 1 then DASH_CRLF else CRLF + AfterOpening(items[1..], delimiter)
  }

  lemma Regroup(a: string, b: string, nl: string, c: string, d: string, e: string)
    ensures a + nl + b + nl + (c + nl) + (d + e) == a + nl + (b + nl + c + (nl + d) + e)
  {
  }

  lemma {:induction false} SerializedShape(items: seq<Part>, boundary: string)
    requires items != []
    ensures Serialize(items, boundary, true) ==
            DashBoundaryCrlf(boundary) + AfterOpening(items, CrlfDashBoundary(boundary))
  {
    var item, rest := items[0], items[1..];
    var open, d := "--" + boundary, CrlfDashBoundary(boundary);
    var tail := if |items| == 1 then DASH_CRLF else CRLF + AfterOpening(rest, d);
    assert Serialize(rest, boundary, true) == open + tail by {
      if rest == [] {
        assert "" + (open + DASH_CRLF) == open + DASH_CRLF;
      } else {
        SerializedShape(rest, boundary);
        Assoc(open, CRLF, AfterOpening(rest, d));
      }
    }
    Assoc(ItemBegin(item, boundary) + (item.content + CRLF), SerializeItems(rest, boundary), open + DASH_CRLF);
    Regroup(open, HeaderLines(item.file), CRLF, item.content, open, tail);
    Assoc(CRLF, "--", boundary);
  }

  lemma AfterLiteralConcat(literal: string, s: string)
    ensures AfterLiteral(literal + s, literal) == Some(s)
  {
    assert (literal + s)[|literal|..] == s;
  }

  lemma SkipOneSpace(s: string)
    requires s != "" && !IsSpace(s[0])
    ensures SkipSpaces(" " + s) == s
  {
    assert (" " + s)[1..] == s;
  }

  /** A match found from `j` on captures at least `j` characters. */
  lemma {:induction false} QuotedNameLength(r: string, j: nat)
    requires j <= |r|
    ensures QuotedName(r, j).Some? ==> |QuotedName(r, j).value.0| >= j
    decreases |r| - j
  {
    if j < |r| {
      QuotedNameLength(r, j + 1);
    }
  }

  /** The shortest match ends at the quote that was written exactly when no earlier quote could be it. */
  lemma {:induction false} QuotedNameFound(name: string, filename: string, i: nat)
    requires i <= |name|
    ensures QuotedName(name + "\"" + FilenameText(filename), i) == Some((name, filename)) <==>
            LineText(name[i..]) && NameUnbroken(name, filename, i)
            && FilenameTail(FilenameText(filename)) == Some(filename)
    decreases |name| - i
  {
    var r := name + "\"" + FilenameText(filename);
    assert r[i + 1..] == if i < |name| then name[i + 1..] + "\"" + FilenameText(filename) else FilenameText(filename);
    assert r[..i] == name[..i];
    QuotedNameLength(r, i + 1);
    if i == |name| {
      assert name[..i] == name;
    } else {
      assert r[i] == name[i] && name[i..] == [name[i]] + name[i + 1..];
      QuotedNameFound(name, filename, i + 1);
    }
  }

  lemma {:induction false} QuotedFilenameFound(filename: string, i: nat)
    requires i <= |filename|
    ensures QuotedFilename(filename + "\"", i) == Some(filename) <==>
            LineText(filename[i..]) && FilenameUnbroken(filename, i)
    decreases |filename| - i
  {
    var u := filename + "\"";
    assert u[i + 1..] == if i < |filename| then filename[i + 1..] + "\"" else "";
    assert u[..i] == filename[..i];
    if i == |filename| {
      assert filename[..i] == filename;
    } else {
      assert u[i] == filename[i] && filename[i..] == [filename[i]] + filename[i + 1..];
      QuotedFilenameFound(filename, i + 1);
    }
  }

  lemma FilenameTailFound(filename: string)
    ensures FilenameTail(FilenameText(filename)) == Some(filename) <==>
            LineText(filename) && FilenameUnbroken(filename, 0)
  {
    if filename != "" {
      var u := filename + "\"";
      var key := "filename=\"";
      var s := FilenameText(filename);
      assert s[1..] == " " + (key + u);
      SkipOneSpace(key + u);
      AfterLiteralConcat(key, u);
      QuotedFilenameFound(filename, 0);
      assert filename[0..] == filename;
    }
  }

  lemma MatchParts(r: string)
    ensures MatchDisposition("Content-Disposition:" + (" " + ("form-data;" + (" " + ("name=\"" + r))))) ==
            QuotedName(r, 0)
  {
    var b := "name=\"" + r;
    var a := "form-data;" + (" " + b);
    AfterLiteralConcat("Content-Disposition:", " " + a);
    SkipOneSpace(a);
    AfterLiteralConcat("form-data;", " " + b);
    SkipOneSpace(b);
    AfterLiteralConcat("name=\"", r);
  }

  lemma DispositionShape(name: string, tail: string)
    ensures "Content-Disposition: form-data; name=\"" + name + "\"" + tail ==
            "Content-Disposition:" + (" " + ("form-data;" + (" " + ("name=\"" + (name + "\"" + tail)))))
  {
    var r := name + "\"" + tail;
    assert "Content-Disposition: form-data; name=\"" ==
           "Content-Disposition:" + (" " + ("form-data;" + (" " + "name=\"")));
    Assoc("Content-Disposition: form-data; name=\"", name, "\"");
    Assoc("Content-Disposition: form-data; name=\"", name + "\"", tail);
    Assoc(" ", "name=\"", r);
    Assoc("form-data;", " " + "name=\"", r);
    Assoc(" ", "form-data;" + (" " + "name=\""), r);
    Assoc("Content-Disposition:", " " + ("form-data;" + (" " + "name=\"")), r);
  }

  /** A generated line is read as the name and filename it was made from exactly when they can be quoted. */
  lemma DispositionParsed(f: FileInfo)
    ensures MatchDisposition(DispositionLine(f)) == Some((f.name, f.filename)) <==> Quotable(f)
  {
    FilenameTailFound(f.filename);
    QuotedNameFound(f.name, f.filename, 0);
    assert f.name[0..] == f.name;
    DispositionShape(f.name, FilenameText(f.filename));
    MatchParts(f.name + "\"" + FilenameText(f.filename));
  }

  lemma DispositionHeader(f: FileInfo, g: FileInfo)
    requires Quotable(f)
    ensures ParseHeader(g, DispositionLine(f)) == Some(g.(name := f.name, filename := f.filename))
  {
    DispositionParsed(f);
    var line := DispositionLine(f);
    assert !StartsWithIgnoreCase(line, "content-type:") by {
      assert line[8] == 'D' && "content-type:"[8] == 't';
    }
  }

  lemma DispositionOneLine(f: FileInfo)
    requires Quotable(f)
    ensures '\r' !in DispositionLine(f)
  {
  }

  lemma {:induction false} TrimmedStays(s: string)
    requires Trimmed(s)
    ensures Trim(" " + s) == s
  {
    assert (" " + s)[1..] == s;
    assert TrimLeft(s) == s && TrimRight(s) == s;
  }

  lemma ContentTypeHeader(f: FileInfo, g: FileInfo)
    requires LineText(f.contentType) && Trimmed(f.contentType)
    ensures ParseHeader(g, ContentTypeLine(f)) == Some(g.(contentType := f.contentType))
    ensures '\r' !in ContentTypeLine(f)
  {
    var line := ContentTypeLine(f);
    assert line[13..] == " " + f.contentType;
    assert line == "Content-Type:" + (" " + f.contentType);
    assert StartsWithIgnoreCase(line, "content-type:");
    TrimmedStays(f.contentType);
  }

  /** A parser whose callbacks never refuse and whose delimiter cannot overlap itself. */
  ghost predicate Clean(env: Env) {
    && AcceptsAll(env)
    && (forall f, line :: env.header(f, line) == ParseHeader(f, line))
    && env.delimiter[0] !in env.delimiter[1..]
  }

  lemma CleanFor(boundary: string, accept: Event -> bool)
    requires BoundaryCharsValid(boundary) && forall e :: accept(e)
    ensures Clean(EnvFor(boundary, accept))
  {
    assert CrlfDashBoundary(boundary)[1..] == "\n--" + boundary;
  }

  /** One header line followed by anything. */
  lemma LineStep(c: Conf, line: string, rest: string, f: FileInfo, env: Env)
    requires c.phase.Headers? && c.buf == line + CRLF + rest
    requires '\r' !in line && line != "" && env.header(c.file, line) == Some(f)
    requires c.phase.inLoop || |line| <= HEADER_MAX_LENGTH
    ensures Step(c, env) == Next(c.(phase := Headers(true), file := f, buf := rest), [])
    ensures Find(c.buf, CRLF) == |line|
  {
    AbsentFirstByte(line, CRLF);
    FindAfter(line, CRLF, rest);
    assert c.buf[..|line|] == line && c.buf[|line| + 2..] == rest;
  }

  lemma BlankStep(c: Conf, rest: string, env: Env)
    requires AcceptsAll(env) && c.phase.Headers? && c.buf == CRLF + rest
    ensures Step(c, env) == Next(c.(phase := Body, buf := rest), [Header(c.file)])
    ensures Find(c.buf, CRLF) == 0
  {
    AbsentFirstByte("", CRLF);
    FindAfter("", CRLF, rest);
    assert c.buf == "" + CRLF + rest;
    assert c.buf[2..] == rest;
  }

  predicate ShortHeaders(f: FileInfo) {
    |DispositionLine(f)| < HEADER_MAX_LENGTH && |ContentTypeLine(f)| < HEADER_MAX_LENGTH
  }

  lemma TypeParsed(f: FileInfo, valid: bool, rest: string, env: Env)
    requires Clean(env) && LineText(f.contentType) && Trimmed(f.contentType)
    ensures var typeLine := if f.contentType != "" then ContentTypeLine(f) + CRLF else "";
            var c, c' := Conf(Headers(true), f.(contentType := ""), valid, typeLine + CRLF + rest),
                      Conf(Body, f, valid, rest);
            && Reaches(c, c', [Header(f)], env)
            && (ShortHeaders(f) && Regular(c', env) ==> Regular(c, env))
  {
    var c2 := Conf(Headers(true), f, valid, CRLF + rest);
    var c3 := Conf(Body, f, valid, rest);
    BlankStep(c2, rest, env);
    ReachesSelf(c3, env);
    ReachesNext(c2, c3, c3, [Header(f)], [], env);
    assert [Header(f)] + [] == [Header(f)];
    if f.contentType != "" {
      var c1 := Conf(Headers(true), f.(contentType := ""), valid, ContentTypeLine(f) + CRLF + CRLF + rest);
      Assoc(ContentTypeLine(f) + CRLF, CRLF, rest);
      ContentTypeHeader(f, c1.file);
      LineStep(c1, ContentTypeLine(f), CRLF + rest, f, env);
      ReachesNext(c1, c2, c3, [], [Header(f)], env);
      assert [] + [Header(f)] == [Header(f)];
    } else {
      assert "" + CRLF + rest == CRLF + rest;
    }
  }

  lemma HeadersParsed(f: FileInfo, valid: bool, rest: string, env: Env)
    requires Clean(env)
    requires Quotable(f) && LineText(f.contentType) && Trimmed(f.contentType)
    requires |DispositionLine(f)| <= HEADER_MAX_LENGTH
    ensures var c, c' := Conf(Headers(false), NoFile, valid, HeaderLines(f) + CRLF + rest), Conf(Body, f, valid, rest);
            && Reaches(c, c', [Header(f)], env)
            && (ShortHeaders(f) && Regular(c', env) ==> Regular(c, env))
  {
    var line := DispositionLine(f);
    var typeLine := if f.contentType != "" then ContentTypeLine(f) + CRLF else "";
    var c := Conf(Headers(false), NoFile, valid, line + CRLF + typeLine + CRLF + rest);
    var c1 := Conf(Headers(true), f.(contentType := ""), valid, typeLine + CRLF + rest);
    Assoc(line + CRLF, typeLine, CRLF);
    Assoc(line + CRLF, typeLine + CRLF, rest);
    DispositionHeader(f, NoFile);
    DispositionOneLine(f);
    LineStep(c, line, typeLine + CRLF + rest, c1.file, env);
    TypeParsed(f, valid, rest, env);
    ReachesNext(c, c1, Conf(Body, f, valid, rest), [], [Header(f)], env);
    assert [] + [Header(f)] == [Header(f)];
  }

  lemma BodyParsed(f: FileInfo, valid: bool, content: string, rest: string, env: Env)
    requires Clean(env)
    requires !Occurs(content, env.delimiter)
    ensures var c := Conf(Body, f, valid, content + env.delimiter + rest);
            Step(c, env) == Next(Conf(Boundary, f, valid, rest), [Content(content)])
  {
    var d := env.delimiter;
    FindAfter(content, d, rest);
    var buf := content + d + rest;
    assert buf[..|content|] == content && buf[|content| + |d|..] == rest;
  }

  lemma ItemParsed(file: FileInfo, valid: bool, item: Part, rest: string, env: Env)
    requires Clean(env)
    requires Transparent(item, env.delimiter) && |DispositionLine(item.file)| <= HEADER_MAX_LENGTH
    ensures var c := Conf(NewEntry, file, valid,
                          HeaderLines(item.file) + CRLF + item.content + env.delimiter + rest);
            var c' := Conf(Boundary, item.file, valid, rest);
            && Reaches(c, c', [Header(item.file), Content(item.content)], env)
            && (ShortHeaders(item.file) && Regular(c', env) ==> Regular(c, env))
  {
    var f, d := item.file, env.delimiter;
    var head, body := HeaderLines(f) + CRLF, item.content + d + rest;
    Assoc(head, item.content, d);
    Assoc(head, item.content + d, rest);
    var c := Conf(NewEntry, file, valid, head + body);
    var c0 := Conf(Headers(false), NoFile, valid, head + body);
    var c1 := Conf(Body, f, valid, body);
    var c2 := Conf(Boundary, f, valid, rest);
    HeadersParsed(f, valid, body, env);
    BodyParsed(f, valid, item.content, rest, env);
    StepsJoined(c, c0, c1, c2, Header(f), Content(item.content), env);
  }

  lemma StepsJoined(c: Conf, c0: Conf, c1: Conf, c2: Conf, h: Event, e: Event, env: Env)
    requires c.phase.NewEntry? && c.buf != "" && Step(c, env) == Next(c0, [])
    requires Reaches(c0, c1, [h], env)
    requires c1.phase.Body? && c1.buf != "" && Step(c1, env) == Next(c2, [e])
    ensures Reaches(c, c2, [h, e], env)
    ensures (Regular(c1, env) ==> Regular(c0, env)) && Regular(c2, env) ==> Regular(c, env)
  {
    ReachesStep(c, c0, [], env);
    ReachesStep(c1, c2, [e], env);
    ReachesTrans(c0, c1, c2, [h], [e], env);
    ReachesTrans(c, c0, c2, [], [h] + [e], env);
    assert [] + ([h] + [e]) == [h, e];
  }

  lemma ClosingStep(f: FileInfo, valid: bool, env: Env)
    ensures var c := Conf(Boundary, f, valid, DASH_CRLF);
            && Drain(c, env) == Run(true, Conf(Boundary, f, true, ""), [])
            && Regular(c, env)
  {
    var c := Conf(Boundary, f, valid, DASH_CRLF);
    assert c.buf[0] == '-';
    assert Step(c, env) == Next(Conf(Boundary, f, true, ""), []);
  }

  lemma SeparatorStep(f: FileInfo, valid: bool, rest: string, env: Env)
    ensures Step(Conf(Boundary, f, valid, CRLF + rest), env) == Next(Conf(NewEntry, f, valid, rest), [])
  {
    assert (CRLF + rest)[2..] == rest;
  }

  lemma CollectItem(parts: seq<Part>, item: Part, events: seq<Event>)
    ensures Collect(parts, [Header(item.file), Content(item.content)] + events) == Collect(parts + [item], events)
  {
    var e := [Header(item.file), Content(item.content)] + events;
    assert e[1..][1..] == events;
    assert "" + item.content == item.content;
    assert Apply(Apply(parts, e[0]), e[1]) == parts + [item];
  }

  predicate AllShort(items: seq<Part>) {
    forall i | 0 <= i < |items| :: ShortHeaders(items[i].file)
  }

  /** Draining `c` delivers the items after `parts` and ends valid with nothing left over. */
  ghost predicate Delivers(c: Conf, items: seq<Part>, env: Env, parts: seq<Part>) {
    var r := Drain(c, env);
    && r.ok && r.conf.valid && r.conf.buf == ""
    && Collect(parts, r.events) == parts + items
    && (AllShort(items) ==> Regular(c, env))
  }

  lemma LastDelivered(f: FileInfo, valid: bool, env: Env, parts: seq<Part>)
    ensures Delivers(Conf(Boundary, f, valid, DASH_CRLF), [], env, parts)
  {
    ClosingStep(f, valid, env);
  }

  lemma NextDelivered(f: FileInfo, valid: bool, rest: string, items: seq<Part>, env: Env, parts: seq<Part>)
    requires Delivers(Conf(NewEntry, f, valid, rest), items, env, parts)
    ensures Delivers(Conf(Boundary, f, valid, CRLF + rest), items, env, parts)
  {
    var c1, c2 := Conf(Boundary, f, valid, CRLF + rest), Conf(NewEntry, f, valid, rest);
    SeparatorStep(f, valid, rest, env);
    ReachesStep(c1, c2, [], env);
    assert [] + Drain(c2, env).events == Drain(c2, env).events;
    assert c1.buf[0] == '\r';
  }

  lemma ItemDelivered(file: FileInfo, valid: bool, item: Part, rest: string,
                      items: seq<Part>, env: Env, parts: seq<Part>)
    requires Clean(env)
    requires Transparent(item, env.delimiter) && |DispositionLine(item.file)| <= HEADER_MAX_LENGTH
    requires Delivers(Conf(Boundary, item.file, valid, rest), items, env, parts + [item])
    ensures Delivers(Conf(NewEntry, file, valid, HeaderLines(item.file) + CRLF + item.content + env.delimiter + rest),
                     [item] + items, env, parts)
  {
    hide Clean, Transparent, DispositionLine, HeaderLines, ShortHeaders, Drain, Regular, Collect;
    ItemParsed(file, valid, item, rest, env);
    CollectItem(parts, item, Drain(Conf(Boundary, item.file, valid, rest), env).events);
    assert parts + [item] + items == parts + ([item] + items);
    if AllShort([item] + items) {
      assert ShortHeaders(([item] + items)[0].file);
      forall i | 0 <= i < |items| ensures ShortHeaders(items[i].file) {
        assert items[i] == ([item] + items)[i + 1];
      }
    }
  }

  predicate DispositionsFit(items: seq<Part>) {
    forall i | 0 <= i < |items| :: |DispositionLine(items[i].file)| <= HEADER_MAX_LENGTH
  }

  lemma {:induction false} ItemsDelivered(file: FileInfo, valid: bool, items: seq<Part>, env: Env, parts: seq<Part>)
    requires Clean(env)
    requires items != [] && AllTransparent(items, env.delimiter) && DispositionsFit(items)
    ensures Delivers(Conf(NewEntry, file, valid, AfterOpening(items, env.delimiter)), items, env, parts)
    decreases |items|
  {
    var item, later := items[0], items[1..];
    if later == [] {
      LastDelivered(item.file, valid, env, parts + [item]);
      ItemDelivered(file, valid, item, DASH_CRLF, [], env, parts);
    } else {
      var rest := AfterOpening(later, env.delimiter);
      ItemsDelivered(item.file, valid, later, env, parts + [item]);
      NextDelivered(item.file, valid, rest, later, env, parts + [item]);
      ItemDelivered(file, valid, item, CRLF + rest, later, env, parts);
    }
    assert [item] + later == items;
  }

  lemma OpeningStep(rest: string, env: Env)
    ensures var opening := env.opening;
            && Find(opening + rest, opening) == 0
            && Step(Append(Initial, opening + rest), env) == Next(Conf(NewEntry, NoFile, false, rest), [])
  {
    var opening := env.opening;
    assert Initial.buf + (opening + rest) == opening + rest;
    assert OccursAt(opening + rest, opening, 0);
    assert (opening + rest)[0..] == opening + rest && (opening + rest)[|opening|..] == rest;
  }

  /** Parsing what was serialized gives back exactly the items and ends valid. */
  lemma RoundTrip(items: seq<Part>, boundary: string, accept: Event -> bool)
    requires BoundaryCharsValid(boundary) && forall e :: accept(e)
    requires items != [] && AllTransparent(items, CrlfDashBoundary(boundary)) && DispositionsFit(items)
    ensures Delivers(Append(Initial, Serialize(items, boundary, true)), items, EnvFor(boundary, accept), [])
  {
    var env := EnvFor(boundary, accept);
    CleanFor(boundary, accept);
    SerializedShape(items, boundary);
    ItemsDelivered(NoFile, false, items, env, []);
    OpeningDelivered(AfterOpening(items, env.delimiter), items, env);
  }

  /** The receiver needs nothing but the body and the generated Content-Type. */
  lemma SentFormReceived(items: seq<Part>, boundary: string, accept: Event -> bool)
    requires BoundaryCharsValid(boundary) && boundary != "" && forall e :: accept(e)
    requires items != [] && AllTransparent(items, CrlfDashBoundary(boundary)) && DispositionsFit(items)
    ensures var b := ParseBoundary(ContentTypeFor(boundary));
            b.Some? && Delivers(Append(Initial, Serialize(items, boundary, true)), items, EnvFor(b.value, accept), [])
  {
    BoundaryRecovered(boundary);
    RoundTrip(items, boundary, accept);
  }

  lemma OpeningDelivered(rest: string, items: seq<Part>, env: Env)
    requires Delivers(Conf(NewEntry, NoFile, false, rest), items, env, [])
    ensures Delivers(Append(Initial, env.opening + rest), items, env, [])
  {
    OpeningStep(rest, env);
    var c, c1 := Append(Initial, env.opening + rest), Conf(NewEntry, NoFile, false, rest);
    assert c.buf == env.opening + rest;
    ReachesStep(c, c1, [], env);
    assert [] + Drain(c1, env).events == Drain(c1, env).events;
  }

  /** The same however the serialized body is cut into `parse` calls outside the opening delimiter. */
  lemma CutRoundTrip(items: seq<Part>, boundary: string, accept: Event -> bool, pieces: seq<string>)
    requires BoundaryCharsValid(boundary) && forall e :: accept(e)
    requires items != [] && AllTransparent(items, CrlfDashBoundary(boundary)) && AllShort(items)
    requires Join(pieces) == Serialize(items, boundary, true)
    requires OpeningInOnePiece(pieces, DashBoundaryCrlf(boundary))
    ensures var p := ParsePieces(Initial, pieces, EnvFor(boundary, accept));
            p.ok && p.conf.valid && p.conf.buf == "" && Collect([], p.events) == items
  {
    RoundTrip(items, boundary, accept);
    CutAnywhere(pieces, EnvFor(boundary, accept));
    assert [] + items == items;
  }

  lemma LongLineRefused(file: FileInfo, valid: bool, f: FileInfo, rest: string, env: Env)
    requires Quotable(f) && |DispositionLine(f)| > HEADER_MAX_LENGTH
    ensures !Drain(Conf(NewEntry, file, valid, HeaderLines(f) + CRLF + rest), env).ok
  {
    var line, buf := DispositionLine(f), HeaderLines(f) + CRLF + rest;
    var typeLine := if f.contentType != "" then ContentTypeLine(f) + CRLF else "";
    Assoc(line + CRLF, typeLine, CRLF);
    Assoc(line + CRLF, typeLine + CRLF, rest);
    DispositionOneLine(f);
    AbsentFirstByte(line, CRLF);
    FindAfter(line, CRLF, typeLine + CRLF + rest);
    var c := Conf(Headers(false), NoFile, valid, buf);
    assert Step(c, env) == Stop(false, c, []);
    ReachesStep(Conf(NewEntry, file, valid, buf), c, [], env);
  }

  /** And one Content-Disposition line over the limit makes the parser refuse the body. */
  lemma {:induction false} ItemsRefused(file: FileInfo, valid: bool, items: seq<Part>, env: Env)
    requires Clean(env)
    requires AllTransparent(items, env.delimiter) && !DispositionsFit(items)
    ensures !Drain(Conf(NewEntry, file, valid, AfterOpening(items, env.delimiter)), env).ok
    decreases |items|
  {
    var item, later := items[0], items[1..];
    var d := env.delimiter;
    var rest := if |items| == 1 then DASH_CRLF else CRLF + AfterOpening(later, env.delimiter);
    if |DispositionLine(item.file)| > HEADER_MAX_LENGTH {
      Assoc(HeaderLines(item.file) + CRLF, item.content, d);
      Assoc(HeaderLines(item.file) + CRLF, item.content + d, rest);
      LongLineRefused(file, valid, item.file, item.content + d + rest, env);
    } else {
      var i :| 0 <= i < |items| && |DispositionLine(items[i].file)| > HEADER_MAX_LENGTH;
      assert later[i - 1] == items[i];
      ItemParsed(file, valid, item, rest, env);
      ItemsRefused(item.file, valid, later, env);
      SeparatorStep(item.file, valid, AfterOpening(later, env.delimiter), env);
      ReachesStep(Conf(Boundary, item.file, valid, rest),
                  Conf(NewEntry, item.file, valid, AfterOpening(later, env.delimiter)), [], env);
    }
  }

  /** The body of a transparent item list is accepted exactly when every Content-Disposition line fits. */
  lemma AcceptedIffFits(items: seq<Part>, boundary: string, accept: Event -> bool)
    requires BoundaryCharsValid(boundary) && forall e :: accept(e)
    requires items != [] && AllTransparent(items, CrlfDashBoundary(boundary))
    ensures Drain(Append(Initial, Serialize(items, boundary, true)), EnvFor(boundary, accept)).ok <==>
            DispositionsFit(items)
  {
    if DispositionsFit(items) {
      RoundTrip(items, boundary, accept);
    } else {
      var env := EnvFor(boundary, accept);
      var rest := AfterOpening(items, env.delimiter);
      CleanFor(boundary, accept);
      SerializedShape(items, boundary);
      OpeningStep(rest, env);
      ItemsRefused(NoFile, false, items, env);
      assert Append(Initial, env.opening + rest).buf == env.opening + rest;
      ReachesStep(Append(Initial, env.opening + rest), Conf(NewEntry, NoFile, false, rest), [], env);
    }
  }

  lemma ClosingHoldsNoOpening(boundary: string)
    ensures var s, opening := "--" + boundary + DASH_CRLF, DashBoundaryCrlf(boundary);
            Find(s, opening) == |s| || s[Find(s, opening)..] == opening
  {
    var s, opening := "--" + boundary + DASH_CRLF, DashBoundaryCrlf(boundary);
    FindSpec(s, opening);
    var k := |boundary| + 2;
    assert opening[k] == '\r' && s[0 + k] == '-' && s[1 + k] == '-';
    assert !OccursAt(s, opening, 0) && !OccursAt(s, opening, 1);
    if Find(s, opening) < |s| {
      assert forall i | 0 <= i < |opening| :: s[2..][i] == s[2 + i];
    }
  }

  /** Without items there is no opening delimiter, so the serialized body is never accepted as valid. */
  lemma EmptyListNotValid(boundary: string, accept: Event -> bool)
    ensures var r := Drain(Append(Initial, Serialize([], boundary, true)), EnvFor(boundary, accept));
            r.ok && !r.conf.valid && r.events == []
  {
    var s := "--" + boundary + DASH_CRLF;
    assert Serialize([], boundary, true) == s;
    ClosingHoldsNoOpening(boundary);
    NothingAfterOpening(s, EnvFor(boundary, accept));
  }

  lemma NothingAfterOpening(s: string, env: Env)
    requires Find(s, env.opening) == |s| || s[Find(s, env.opening)..] == env.opening
    ensures var r := Drain(Append(Initial, s), env);
            r.ok && !r.conf.valid && r.events == []
  {
    if Find(s, env.opening) < |s| {
      var c, c1 := Append(Initial, s), Conf(NewEntry, NoFile, false, "");
      assert c.buf == s && env.opening[|env.opening|..] == "";
      assert Step(c, env) == Next(c1, []);
      ReachesStep(c, c1, [], env);
    } else {
      DiscardedPiece(s, env);
    }
  }
}
