/** Where a serialized form may be cut between two `parse` calls without running into the limit on header lines. */
module HeaderCuts {
  import opened HeaderLimit
  import opened LostOpening
  import opened Machine
  import opened Multipart
  import opened MultipartRoundTrip
  import opened Text

  // ---------- Where calls may end ----------

  /** A check that finds `m` bytes from the start of a line of `n` bytes on, or all of it, finds it too long. */
  predicate OverLimit(n: nat, m: int) {
    (if m >= n + 2 then n else m) > HEADER_MAX_LENGTH
  }

  /** The offset after the Content-Disposition line of an item. */
  function DispositionEnd(f: FileInfo): nat {
    |DispositionLine(f)| + 2
  }

  /** The offset after an item and the delimiter that follows it. */
  function ItemEnd(item: Part, d: string): nat {
    |HeaderLines(item.file)| + 2 + |item.content| + |d|
  }

  /** A call that ends `m` bytes after the opening delimiter finds a Content-Disposition line too long. */
  predicate EntryTrips(items: seq<Part>, d: string, m: int) {
    items != [] &&
    (OverLimit(|DispositionLine(items[0].file)|, m) ||
     (var end := ItemEnd(items[0], d) + 2; m >= end && EntryTrips(items[1..], d, m - end)))
  }

  /** A call that ends there, after one that has ended `before`, inside the header of some item, finds the line
      in which that was too long. */
  predicate LateTrips(items: seq<Part>, d: string, before: int, m: int) {
    && items != [] && before > 0
    && var f, end := items[0].file, ItemEnd(items[0], d) + 2;
       if before < DispositionEnd(f) then OverLimit(|DispositionLine(f)|, m)
       else if before < |HeaderLines(f)| then OverLimit(|ContentTypeLine(f)|, m - DispositionEnd(f))
       else before >= end && LateTrips(items[1..], d, before - end, m - end)
  }

  /** A call may end `m` bytes after the opening delimiter when the one before has ended `before` bytes after it. */
  predicate EndsWell(items: seq<Part>, d: string, before: int, m: int) {
    !EntryTrips(items, d, m) && !LateTrips(items, d, before, m)
  }

  /** Where the first `k` calls end, counted from the end of the opening delimiter. */
  function EndOf(pieces: seq<string>, k: nat, opening: string): int
    requires k <= |pieces|
  {
    |Join(pieces[..k])| - |opening|
  }

  predicate AllEndWell(items: seq<Part>, d: string, opening: string, pieces: seq<string>) {
    forall k | 0 <= k < |pieces| :: EndsWell(items, d, EndOf(pieces, k, opening), EndOf(pieces, k + 1, opening))
  }

  // ---------- The parser on a part of a form ----------

  /** What is left of a header line when `m` bytes of an item `x` with header `f` are there; `later` after it. */
  function PartOf(f: FileInfo, x: string, m: nat, later: Option<string>): Option<string>
    requires m <= |x|
  {
    if m == 0 then None
    else if m < DispositionEnd(f) then Some(x[..m])
    else if m < |HeaderLines(f)| then Some(x[DispositionEnd(f)..m])
    else if m < |HeaderLines(f)| + 2 then Some(x[|HeaderLines(f)|..m])
    else later
  }

  /** The same for the first `m` bytes of a form after its opening delimiter. */
  function HeaderPart(items: seq<Part>, d: string, m: nat): Option<string>
    requires items != [] && m <= |AfterOpening(items, d)|
  {
    var end := ItemEnd(items[0], d) + 2;
    PartOf(items[0].file, AfterOpening(items, d), m,
           if m < end || |items| == 1 then None else HeaderPart(items[1..], d, m - end))
  }

  /** How draining `c` ends. */
  ghost predicate Stands(c: Conf, env: Env, trips: bool, part: Option<string>) {
    && Closes(c, env) && (Trips(c, env) <==> trips)
    && (!trips ==>
          var r := Drain(c, env);
          r.ok && r.conf.phase.Headers? == part.Some? && (part.Some? ==> r.conf.buf == part.value))
  }

  /** Draining `c` ends as draining `c'` does. */
  ghost predicate Leads(c: Conf, c': Conf, env: Env) {
    && Drain(c, env).ok == Drain(c', env).ok && Drain(c, env).conf == Drain(c', env).conf
    && (Trips(c, env) <==> Trips(c', env)) && (Closes(c, env) <==> Closes(c', env))
  }

  lemma LeadsStep(c: Conf, c': Conf, ev: seq<Event>, env: Env)
    requires !Idle(c) && Step(c, env) == Next(c', ev) && !(c.phase.Boundary? && DASH_CRLF <= c.buf)
    ensures Leads(c, c', env)
  {
  }

  lemma LineFound(line: string, x: string, y: string)
    requires '\r' !in line && y <= line + CRLF + x
    ensures Find(y, CRLF) == if |y| >= |line| + 2 then |line| else |y|
    ensures TooLong(y) <==> OverLimit(|line|, |y|)
  {
    if |y| >= |line| + 2 {
      var rest := y[|line| + 2..];
      assert y == line + CRLF + rest;
      AbsentFirstByte(line, CRLF);
      FindAfter(line, CRLF, rest);
    } else {
      forall i | 0 <= i <= |y| - 2 ensures !OccursAt(y, CRLF, i) {
        assert y[i + 0] == (line + CRLF + x)[i] == line[i];
        assert line[i] in line && CRLF[0] == '\r';
        assert y[i + 0] != CRLF[0];
      }
      FindUnique(y, CRLF, |y|);
    }
  }

  lemma HeadLeads(f: FileInfo, file: FileInfo, valid: bool, y: string, env: Env)
    requires Clean(env) && Quotable(f) && |DispositionLine(f)| <= HEADER_MAX_LENGTH
    ensures Leads(Conf(NewEntry, file, valid, DispositionLine(f) + CRLF + y),
                  Conf(Headers(true), f.(contentType := ""), valid, y), env)
  {
    hide DispositionLine;
    var line := DispositionLine(f);
    var c, c0 := Conf(NewEntry, file, valid, line + CRLF + y), Conf(Headers(false), NoFile, valid, line + CRLF + y);
    LeadsStep(c, c0, [], env);
    DispositionHeader(f, NoFile);
    DispositionOneLine(f);
    NotBlank(f);
    LineStep(c0, line, y, f.(contentType := ""), env);
    LeadsStep(c0, Conf(Headers(true), f.(contentType := ""), valid, y), [], env);
  }

  lemma NotBlank(f: FileInfo)
    ensures DispositionLine(f) != "" && ContentTypeLine(f) != ""
  {
  }

  lemma TypeLeads(f: FileInfo, valid: bool, y: string, env: Env)
    requires Clean(env) && LineText(f.contentType) && Trimmed(f.contentType)
    ensures Leads(Conf(Headers(true), f.(contentType := ""), valid, ContentTypeLine(f) + CRLF + y),
                  Conf(Headers(true), f, valid, y), env)
  {
    hide ContentTypeLine;
    var c := Conf(Headers(true), f.(contentType := ""), valid, ContentTypeLine(f) + CRLF + y);
    ContentTypeHeader(f, c.file);
    NotBlank(f);
    LineStep(c, ContentTypeLine(f), y, f, env);
    LeadsStep(c, Conf(Headers(true), f, valid, y), [], env);
  }

  lemma BlankLeads(f: FileInfo, valid: bool, y: string, env: Env)
    requires AcceptsAll(env)
    ensures Leads(Conf(Headers(true), f, valid, CRLF + y), Conf(Body, f, valid, y), env)
  {
    var c := Conf(Headers(true), f, valid, CRLF + y);
    BlankStep(c, y, env);
    LeadsStep(c, Conf(Body, f, valid, y), [Header(f)], env);
  }

  lemma BodyLeads(f: FileInfo, valid: bool, content: string, y: string, env: Env)
    requires Clean(env) && !Occurs(content, env.delimiter)
    ensures Leads(Conf(Body, f, valid, content + env.delimiter + y), Conf(Boundary, f, valid, y), env)
  {
    var c := Conf(Body, f, valid, content + env.delimiter + y);
    BodyParsed(f, valid, content, y, env);
    LeadsStep(c, Conf(Boundary, f, valid, y), [Content(content)], env);
  }

  lemma SeparatorLeads(f: FileInfo, valid: bool, y: string, env: Env)
    ensures Leads(Conf(Boundary, f, valid, CRLF + y), Conf(NewEntry, f, valid, y), env)
  {
    SeparatorStep(f, valid, y, env);
    var c := Conf(Boundary, f, valid, CRLF + y);
    assert c.buf[0] == '\r';
    LeadsStep(c, Conf(NewEntry, f, valid, y), [], env);
  }

  // ---------- Where a call stops ----------

  lemma StandsLeads(c: Conf, c': Conf, env: Env, trips: bool, part: Option<string>)
    requires Leads(c, c', env) && Stands(c', env, trips, part)
    ensures Stands(c, env, trips, part)
  {
  }

  lemma LineStands(g: FileInfo, valid: bool, y: string, env: Env)
    requires Find(y, CRLF) == |y|
    ensures Stands(Conf(Headers(true), g, valid, y), env, false, Some(y))
  {
    DrainStop(Conf(Headers(true), g, valid, y), env);
  }

  lemma EntryStands(file: FileInfo, valid: bool, y: string, env: Env)
    requires y != "" && (TooLong(y) || Find(y, CRLF) == |y|)
    ensures Stands(Conf(NewEntry, file, valid, y), env, TooLong(y), Some(y))
  {
    var c, c' := Conf(NewEntry, file, valid, y), Conf(Headers(false), NoFile, valid, y);
    LeadsStep(c, c', [], env);
    DrainStop(c', env);
  }

  lemma BodyStands(f: FileInfo, valid: bool, y: string, env: Env)
    requires AcceptsAll(env) && Find(y, env.delimiter) == |y|
    ensures Stands(Conf(Body, f, valid, y), env, false, None)
  {
    var c := Conf(Body, f, valid, y);
    if y != "" {
      DrainStop(c, env);
    }
  }

  lemma BoundaryStands(f: FileInfo, valid: bool, y: string, env: Env)
    requires y <= DASH_CRLF || y == "\r"
    ensures Stands(Conf(Boundary, f, valid, y), env, false, None)
  {
    var c := Conf(Boundary, f, valid, y);
    assert y != "" ==> y[0] == '-' || y == "\r";
    if y == DASH_CRLF {
      assert !(CRLF <= y);
      assert Step(c, env) == Next(Conf(Boundary, f, true, ""), []);
    } else if y != "" {
      assert !(CRLF <= y);
      DrainStop(c, env);
    }
  }

  lemma FreshStands(file: FileInfo, valid: bool, env: Env)
    ensures Stands(Conf(NewEntry, file, valid, ""), env, false, None)
  {
  }

  // ---------- The parts of a form ----------

  lemma PrefixSplit(a: string, b: string, m: nat)
    requires |a| <= m <= |a| + |b|
    ensures (a + b)[..m] == a + b[..m - |a|]
  {
  }

  lemma SliceSplit(a: string, b: string, m: nat)
    requires |a| <= m <= |a| + |b|
    ensures (a + b)[|a|..m] == b[..m - |a|]
  {
  }

  lemma PrefixStart(a: string, b: string, m: nat)
    requires m <= |a|
    ensures (a + b)[..m] == a[..m]
  {
  }

  function TypeText(f: FileInfo): string {
    if f.contentType != "" then ContentTypeLine(f) + CRLF else ""
  }

  lemma HeaderShape(f: FileInfo, x: string)
    ensures HeaderLines(f) + CRLF + x == DispositionLine(f) + CRLF + (TypeText(f) + (CRLF + x))
    ensures |HeaderLines(f)| == DispositionEnd(f) + |TypeText(f)|
  {
    Assoc(DispositionLine(f) + CRLF, TypeText(f), CRLF);
    Assoc(DispositionLine(f) + CRLF, TypeText(f) + CRLF, x);
    Assoc(TypeText(f), CRLF, x);
  }

  /** The blank line and what follows it. */
  lemma BlankStands(f: FileInfo, valid: bool, x: string, m: nat, env: Env, trips: bool, part: Option<string>)
    requires AcceptsAll(env) && m <= 2 + |x|
    requires m >= 2 ==> Stands(Conf(Body, f, valid, x[..m - 2]), env, trips, part)
    ensures Stands(Conf(Headers(true), f, valid, (CRLF + x)[..m]), env, m >= 2 && trips,
                   if m < 2 then Some((CRLF + x)[..m]) else part)
  {
    hide Stands, Leads;
    var y := (CRLF + x)[..m];
    if m < 2 {
      assert y <= "" + CRLF + x;
      LineFound("", x, y);
      LineStands(f, valid, y, env);
    } else {
      PrefixSplit(CRLF, x, m);
      BlankLeads(f, valid, x[..m - 2], env);
      StandsLeads(Conf(Headers(true), f, valid, y), Conf(Body, f, valid, x[..m - 2]), env, trips, part);
    }
  }

  /** The Content-Type line, if there is one, and what follows it. */
  lemma TypeStands(f: FileInfo, valid: bool, x: string, m: nat, env: Env, trips: bool, part: Option<string>)
    requires Clean(env) && LineText(f.contentType) && Trimmed(f.contentType) && m <= |TypeText(f)| + |x|
    requires m >= |TypeText(f)| ==> Stands(Conf(Headers(true), f, valid, x[..m - |TypeText(f)|]), env, trips, part)
    ensures Stands(Conf(Headers(true), f.(contentType := ""), valid, (TypeText(f) + x)[..m]), env,
                   m >= |TypeText(f)| && trips, if m < |TypeText(f)| then Some((TypeText(f) + x)[..m]) else part)
  {
    hide Stands, Leads, ContentTypeLine;
    var y := (TypeText(f) + x)[..m];
    if m < |TypeText(f)| {
      ContentTypeHeader(f, f);
      assert y <= ContentTypeLine(f) + CRLF + x;
      LineFound(ContentTypeLine(f), x, y);
      LineStands(f.(contentType := ""), valid, y, env);
    } else {
      PrefixSplit(TypeText(f), x, m);
      if f.contentType != "" {
        TypeLeads(f, valid, x[..m - |TypeText(f)|], env);
        StandsLeads(Conf(Headers(true), f.(contentType := ""), valid, y),
                    Conf(Headers(true), f, valid, x[..m - |TypeText(f)|]), env, trips, part);
      } else {
        assert "" + x[..m] == x[..m];
      }
    }
  }

  lemma DispositionStands(f: FileInfo, file: FileInfo, valid: bool, x: string, m: nat, env: Env,
                          trips: bool, part: Option<string>)
    requires Clean(env) && Quotable(f) && m <= DispositionEnd(f) + |x|
    requires m >= DispositionEnd(f) ==>
               Stands(Conf(Headers(true), f.(contentType := ""), valid, x[..m - DispositionEnd(f)]), env, trips, part)
    ensures var whole := DispositionLine(f) + CRLF + x;
            Stands(Conf(NewEntry, file, valid, whole[..m]), env,
                   OverLimit(|DispositionLine(f)|, m) || (m >= DispositionEnd(f) && trips),
                   if m == 0 then None else if m < DispositionEnd(f) then Some(whole[..m]) else part)
  {
    hide Stands, Leads, DispositionLine, Quotable;
    var line := DispositionLine(f);
    var y := (line + CRLF + x)[..m];
    DispositionOneLine(f);
    LineFound(line, x, y);
    if m == 0 {
      FreshStands(file, valid, env);
    } else if OverLimit(|line|, m) || m < DispositionEnd(f) {
      EntryStands(file, valid, y, env);
      if OverLimit(|line|, m) {
        TrippedAnyhow(Conf(NewEntry, file, valid, y), env, Some(y), part);
      }
    } else {
      PrefixSplit(line + CRLF, x, m);
      HeadLeads(f, file, valid, x[..m - DispositionEnd(f)], env);
      StandsLeads(Conf(NewEntry, file, valid, y),
                  Conf(Headers(true), f.(contentType := ""), valid, x[..m - DispositionEnd(f)]), env, trips, part);
    }
  }

  lemma TrippedAnyhow(c: Conf, env: Env, part: Option<string>, other: Option<string>)
    requires Stands(c, env, true, part)
    ensures Stands(c, env, true, other)
  {
  }

  /** The whole header of an item and what follows it. */
  lemma HeaderStands(f: FileInfo, file: FileInfo, valid: bool, x: string, m: nat, env: Env,
                     trips: bool, part: Option<string>)
    requires Clean(env) && Quotable(f) && LineText(f.contentType) && Trimmed(f.contentType)
    requires var head := |HeaderLines(f)| + 2;
             m <= head + |x| && (m >= head ==> Stands(Conf(Body, f, valid, x[..m - head]), env, trips, part))
    ensures var whole := HeaderLines(f) + CRLF + x;
            Stands(Conf(NewEntry, file, valid, whole[..m]), env,
                   OverLimit(|DispositionLine(f)|, m) || (m >= |HeaderLines(f)| + 2 && trips),
                   PartOf(f, whole, m, part))
  {
    hide Stands, HeaderLines, DispositionLine, Quotable, TypeText;
    var blank, line := CRLF + x, DispositionLine(f) + CRLF;
    var typed := TypeText(f) + blank;
    HeaderShape(f, x);
    var k, t := m - DispositionEnd(f), |TypeText(f)|;
    if m < DispositionEnd(f) {
      DispositionStands(f, file, valid, typed, m, env, false, None);
    } else {
      if k >= t {
        BlankStands(f, valid, x, k - t, env, trips, part);
        var part1 := if k - t < 2 then Some(blank[..k - t]) else part;
        TypeStands(f, valid, blank, k, env, k - t >= 2 && trips, part1);
        DispositionStands(f, file, valid, typed, m, env, k - t >= 2 && trips, part1);
        Slices(line, TypeText(f), blank, m);
      } else {
        TypeStands(f, valid, blank, k, env, false, None);
        DispositionStands(f, file, valid, typed, m, env, false, Some(typed[..k]));
        Slices(line, TypeText(f), blank, m);
      }
    }
  }

  lemma Slices(a: string, b: string, c: string, m: nat)
    requires |a| <= m <= |a| + |b| + |c|
    ensures (a + (b + c))[|a|..m] == (b + c)[..m - |a|]
    ensures m >= |a| + |b| ==> (a + (b + c))[|a| + |b|..m] == c[..m - |a| - |b|]
  {
  }

  /** The content, the delimiter after it and what follows. */
  lemma ContentStands(f: FileInfo, valid: bool, content: string, x: string, m: nat, env: Env,
                      trips: bool, part: Option<string>)
    requires Clean(env) && !Occurs(content, env.delimiter)
    requires var end := |content| + |env.delimiter|;
             m <= end + |x| && (m >= end ==> Stands(Conf(Boundary, f, valid, x[..m - end]), env, trips, part))
    ensures var end := |content| + |env.delimiter|;
            Stands(Conf(Body, f, valid, (content + env.delimiter + x)[..m]), env, m >= end && trips,
                   if m < end then None else part)
  {
    hide Stands, Leads;
    var d := env.delimiter;
    var end, y := |content| + |d|, (content + d + x)[..m];
    if m < end {
      NoDelimiterYet(content, d, x, m);
      BodyStands(f, valid, y, env);
    } else {
      PrefixSplit(content + d, x, m);
      BodyLeads(f, valid, content, x[..m - end], env);
      StandsLeads(Conf(Body, f, valid, y), Conf(Boundary, f, valid, x[..m - end]), env, trips, part);
    }
  }

  lemma NoDelimiterYet(content: string, d: Delimiter, x: string, m: nat)
    requires d[0] !in d[1..] && !Occurs(content, d) && m < |content| + |d|
    ensures Find((content + d + x)[..m], d) == m
  {
    var whole := content + d + x;
    var y := whole[..m];
    FindAfter(content, d, x);
    FindSpec(whole, d);
    assert whole == y + whole[m..];
    OccursAppend(y, whole[m..], d);
    FindUnique(y, d, m);
  }

  lemma SeparatorStands(f: FileInfo, valid: bool, x: string, m: nat, env: Env, trips: bool, part: Option<string>)
    requires m <= 2 + |x| && (m >= 2 ==> Stands(Conf(NewEntry, f, valid, x[..m - 2]), env, trips, part))
    ensures Stands(Conf(Boundary, f, valid, (CRLF + x)[..m]), env, m >= 2 && trips, if m < 2 then None else part)
  {
    hide Stands, Leads;
    var y := (CRLF + x)[..m];
    if m < 2 {
      assert y == "" || y == "\r";
      BoundaryStands(f, valid, y, env);
    } else {
      PrefixSplit(CRLF, x, m);
      SeparatorLeads(f, valid, x[..m - 2], env);
      StandsLeads(Conf(Boundary, f, valid, y), Conf(NewEntry, f, valid, x[..m - 2]), env, trips, part);
    }
  }

  /** What follows the content of the first item and its delimiter. */
  function AfterItem(items: seq<Part>, d: string): string
    requires items != []
  {
    if |items| == 1 then DASH_CRLF else CRLF + AfterOpening(items[1..], d)
  }

  lemma FormShape(items: seq<Part>, d: string)
    requires items != []
    ensures var item := items[0];
            AfterOpening(items, d) == HeaderLines(item.file) + CRLF + (item.content + d + AfterItem(items, d))
    ensures |AfterOpening(items, d)| == ItemEnd(items[0], d) + |AfterItem(items, d)|
  {
    var item := items[0];
    Assoc(HeaderLines(item.file) + CRLF, item.content, d);
    Assoc(HeaderLines(item.file) + CRLF, item.content + d, AfterItem(items, d));
  }

  /** The parser on the first `m` bytes after the opening delimiter. */
  lemma {:induction false} PrefixStands(items: seq<Part>, file: FileInfo, valid: bool, m: nat, env: Env)
    requires Clean(env) && items != [] && AllTransparent(items, env.delimiter)
    requires m <= |AfterOpening(items, env.delimiter)|
    ensures Stands(Conf(NewEntry, file, valid, AfterOpening(items, env.delimiter)[..m]), env,
                   EntryTrips(items, env.delimiter, m), HeaderPart(items, env.delimiter, m))
    decreases |items|, 1
  {
    hide Stands, HeaderLines, DispositionLine, Quotable, AfterOpening, PartOf;
    var d, item := env.delimiter, items[0];
    var f, later := item.file, items[1..];
    var head, end := |HeaderLines(f)| + 2, |item.content| + |d|;
    FormShape(items, d);
    var rest := AfterItem(items, d);
    var trips := m >= ItemEnd(item, d) + 2 && EntryTrips(later, d, m - ItemEnd(item, d) - 2);
    var part := if m < ItemEnd(item, d) + 2 || |items| == 1 then None
                else HeaderPart(later, d, m - ItemEnd(item, d) - 2);
    if m >= ItemEnd(item, d) {
      RestStands(items, valid, m - ItemEnd(item, d), env, trips, part);
    }
    if m >= head {
      ContentStands(f, valid, item.content, rest, m - head, env, trips, part);
    }
    HeaderStands(f, file, valid, item.content + d + rest, m, env, trips, part);
  }

  lemma {:induction false} RestStands(items: seq<Part>, valid: bool, m: nat, env: Env,
                                      trips: bool, part: Option<string>)
    requires Clean(env) && items != [] && AllTransparent(items, env.delimiter) && m <= |AfterItem(items, env.delimiter)|
    requires trips == (m >= 2 && EntryTrips(items[1..], env.delimiter, m - 2))
    requires part == if m < 2 || |items| == 1 then None else HeaderPart(items[1..], env.delimiter, m - 2)
    ensures Stands(Conf(Boundary, items[0].file, valid, AfterItem(items, env.delimiter)[..m]), env, trips, part)
    decreases |items|, 0
  {
    hide Stands, HeaderLines, DispositionLine, Quotable, AfterOpening, PartOf, EntryTrips, HeaderPart;
    var f, d := items[0].file, env.delimiter;
    if |items| == 1 {
      NoItemsTrip(d, m - 2);
      BoundaryStands(f, valid, DASH_CRLF[..m], env);
    } else {
      if m >= 2 {
        PrefixStands(items[1..], f, valid, m - 2, env);
      }
      SeparatorStands(f, valid, AfterOpening(items[1..], d), m, env, trips, part);
    }
  }

  lemma NoItemsTrip(d: string, m: int)
    ensures !EntryTrips([], d, m)
  {
  }

  // ---------- A call that begins inside a header ----------

  lemma LineLate(line: string, x: string, y: string, z: string, c: Conf)
    requires '\r' !in line && c.phase.Headers? && c.buf == y && y + z <= line + CRLF + x
    ensures Late(c, z) <==> OverLimit(|line|, |y| + |z|)
  {
    LineFound(line, x, y + z);
  }

  lemma SliceJoin(x: string, i: nat, j: nat, k: nat)
    requires i <= j <= k <= |x|
    ensures x[i..j] + x[j..k] == x[i..k]
  {
  }

  /** Whether the next call is late, when this one ends inside the header of the first item. */
  lemma HeaderLate(f: FileInfo, x: string, before: nat, m: nat, c: Conf)
    requires Quotable(f) && LineText(f.contentType) && before <= m <= |HeaderLines(f)| + 2 + |x|
    requires 0 < before < |HeaderLines(f)| + 2
    requires var whole := HeaderLines(f) + CRLF + x;
             c.phase.Headers? && PartOf(f, whole, before, None) == Some(c.buf)
    ensures var whole := HeaderLines(f) + CRLF + x;
            Late(c, whole[before..m]) <==>
            if before < DispositionEnd(f) then OverLimit(|DispositionLine(f)|, m)
            else before < |HeaderLines(f)| && OverLimit(|ContentTypeLine(f)|, m - DispositionEnd(f))
  {
    hide HeaderLines, DispositionLine, ContentTypeLine, Quotable, LineText, Late;
    var whole, line := HeaderLines(f) + CRLF + x, DispositionLine(f) + CRLF;
    var blank := CRLF + x;
    var z := whole[before..m];
    HeaderShape(f, x);
    if before >= DispositionEnd(f) {
      Slices(line, TypeText(f), blank, m);
    }
    if before < DispositionEnd(f) {
      SliceJoin(whole, 0, before, m);
      DispositionOneLine(f);
      LineLate(DispositionLine(f), TypeText(f) + blank, whole[..before], z, c);
    } else if before < |HeaderLines(f)| {
      SliceJoin(whole, DispositionEnd(f), before, m);
      TypeOneLine(f);
      LineLate(ContentTypeLine(f), blank, whole[DispositionEnd(f)..before], z, c);
    } else {
      SliceJoin(whole, |HeaderLines(f)|, before, m);
      LineLate("", x, whole[|HeaderLines(f)|..before], z, c);
    }
  }

  lemma TypeOneLine(f: FileInfo)
    requires LineText(f.contentType)
    ensures '\r' !in ContentTypeLine(f)
  {
  }

  lemma {:induction false} LateIff(items: seq<Part>, d: Delimiter, before: nat, m: nat, c: Conf)
    requires items != [] && AllTransparent(items, d) && before <= m <= |AfterOpening(items, d)|
    requires var part := HeaderPart(items, d, before);
             c.phase.Headers? == part.Some? && (part.Some? ==> c.buf == part.value)
    ensures Late(c, AfterOpening(items, d)[before..m]) <==> LateTrips(items, d, before, m)
    decreases |items|
  {
    hide HeaderLines, DispositionLine, ContentTypeLine, Quotable, LineText, Late, AfterOpening, OverLimit;
    var item := items[0];
    var f, end := item.file, ItemEnd(item, d) + 2;
    FormShape(items, d);
    HeaderShape(f, "");
    if before < |HeaderLines(f)| + 2 {
      if before > 0 {
        HeaderLate(f, item.content + d + AfterItem(items, d), before, m, c);
      } else {
        NotInHeader(c, AfterOpening(items, d)[before..m]);
      }
    } else if before < end || |items| == 1 {
      NotInHeader(c, AfterOpening(items, d)[before..m]);
    } else {
      LateIff(items[1..], d, before - end, m - end, c);
      LaterSlice(items, d, before, m);
    }
  }

  lemma NotInHeader(c: Conf, b: string)
    requires !c.phase.Headers?
    ensures !Late(c, b)
  {
  }

  lemma LaterSlice(items: seq<Part>, d: string, i: nat, j: nat)
    requires |items| > 1 && ItemEnd(items[0], d) + 2 <= i <= j <= |AfterOpening(items, d)|
    ensures var end := ItemEnd(items[0], d) + 2;
            j - end <= |AfterOpening(items[1..], d)|
            && AfterOpening(items, d)[i..j] == AfterOpening(items[1..], d)[i - end..j - end]
  {
    hide AfterOpening, HeaderLines;
    var item, later := items[0], AfterOpening(items[1..], d);
    var front := HeaderLines(item.file) + CRLF + (item.content + d + CRLF);
    FormShape(items, d);
    assert AfterOpening(items, d) == front + later;
    assert |front| == ItemEnd(item, d) + 2;
  }

  // ---------- All calls ----------

  /** Once anything has been received, so has the opening delimiter. */
  lemma {:induction false} OpeningWhole(pieces: seq<string>, opening: string, x: string, k: nat)
    requires opening != "" && Join(pieces) == opening + x && OpeningInOnePiece(pieces, opening) && k <= |pieces|
    ensures Received(pieces, k) == "" || |Received(pieces, k)| >= |opening|
    ensures Received(pieces, k) <= opening + x
    decreases |pieces|
  {
    PiecesAround(pieces, k);
    if k > 0 {
      assert pieces[..k][1..] == pieces[1..][..k - 1];
      OpeningFirst(opening, x);
      if Find(pieces[0], opening) < |pieces[0]| {
        FindAppend(pieces[0], Join(pieces[1..]), opening);
      } else {
        assert pieces[0] == "" && Join(pieces) == Join(pieces[1..]);
        OpeningWhole(pieces[1..], opening, x, k - 1);
        assert Received(pieces, k) == Received(pieces[1..], k - 1);
      }
    }
  }

  lemma OpeningFirst(opening: string, x: string)
    requires opening != ""
    ensures Find(opening + x, opening) == 0
  {
    assert OccursAt(opening + x, opening, 0);
    FindUnique(opening + x, opening, 0);
  }

  lemma {:induction false} PiecesAround(pieces: seq<string>, k: nat)
    requires k <= |pieces|
    ensures Join(pieces) == Received(pieces, k) + Join(pieces[k..])
  {
    if k == 0 {
      assert pieces[..0] == [] && pieces[0..] == pieces;
      assert "" + Join(pieces) == Join(pieces);
    } else {
      PiecesAround(pieces[1..], k - 1);
      assert pieces[..k][1..] == pieces[1..][..k - 1] && pieces[1..][k - 1..] == pieces[k..];
      Assoc(pieces[0], Received(pieces[1..], k - 1), Join(pieces[k..]));
    }
  }

  /** The parser on all that is received by the end of some call. */
  lemma ReceivedStands(items: seq<Part>, m: nat, env: Env)
    requires Clean(env) && items != [] && AllTransparent(items, env.delimiter)
    requires m <= |AfterOpening(items, env.delimiter)|
    ensures var c := Append(Initial, env.opening + AfterOpening(items, env.delimiter)[..m]);
            && PastOpening(c, env)
            && Stands(c, env, EntryTrips(items, env.delimiter, m), HeaderPart(items, env.delimiter, m))
  {
    hide Stands, AfterOpening, EntryTrips, HeaderPart;
    var y := AfterOpening(items, env.delimiter)[..m];
    var c, c' := Append(Initial, env.opening + y), Conf(NewEntry, NoFile, false, y);
    assert c.buf == env.opening + y;
    OpeningStep(y, env);
    LeadsStep(c, c', [], env);
    PrefixStands(items, NoFile, false, m, env);
    StandsLeads(c, c', env, EntryTrips(items, env.delimiter, m), HeaderPart(items, env.delimiter, m));
  }

  /** What is given: the calls make up the form, and its opening delimiter is not cut. */
  ghost predicate Given(items: seq<Part>, pieces: seq<string>, env: Env) {
    && Clean(env) && items != [] && AllTransparent(items, env.delimiter)
    && Join(pieces) == env.opening + AfterOpening(items, env.delimiter)
    && OpeningInOnePiece(pieces, env.opening)
  }

  lemma ReceivedText(items: seq<Part>, pieces: seq<string>, k: nat, env: Env)
    requires Given(items, pieces, env) && k <= |pieces|
    ensures var x, m := AfterOpening(items, env.delimiter), EndOf(pieces, k, env.opening);
            Received(pieces, k) == "" || (0 <= m <= |x| && Received(pieces, k) == env.opening + x[..m])
  {
    hide AfterOpening, OpeningInOnePiece, AllTransparent, Clean;
    var x, m := AfterOpening(items, env.delimiter), EndOf(pieces, k, env.opening);
    OpeningWhole(pieces, env.opening, x, k);
    if Received(pieces, k) != "" {
      PrefixSplit(env.opening, x, |Received(pieces, k)|);
    }
  }

  lemma CallsWellFormed(items: seq<Part>, pieces: seq<string>, k: nat, env: Env)
    requires Given(items, pieces, env) && k <= |pieces|
    ensures WellFormed(pieces, k, env)
    ensures var c := Append(Initial, Received(pieces, k));
            Trips(c, env) <==> EntryTrips(items, env.delimiter, EndOf(pieces, k, env.opening))
  {
    hide AfterOpening, OpeningInOnePiece, AllTransparent, Clean, Closes, Trips, Drain;
    ReceivedText(items, pieces, k, env);
    var m := EndOf(pieces, k, env.opening);
    if Received(pieces, k) == "" {
      NothingYet(env);
      NothingTrips(items, env.delimiter, m);
    } else {
      ReceivedStands(items, m, env);
    }
  }

  lemma NothingTrips(items: seq<Part>, d: string, m: int)
    requires m < 0
    ensures !EntryTrips(items, d, m)
  {
  }

  /** A call is refused exactly where it should not end. */
  lemma CallTripsIff(items: seq<Part>, pieces: seq<string>, k: nat, env: Env)
    requires Given(items, pieces, env) && k < |pieces|
    requires !EntryTrips(items, env.delimiter, EndOf(pieces, k, env.opening))
    ensures CallTrips(pieces, k, env) <==>
            !EndsWell(items, env.delimiter, EndOf(pieces, k, env.opening), EndOf(pieces, k + 1, env.opening))
  {
    hide AfterOpening, OpeningInOnePiece, AllTransparent, Clean, Closes, Trips, Drain, Late, EntryTrips, HeaderPart;
    var d := env.delimiter;
    var x, before, m := AfterOpening(items, d), EndOf(pieces, k, env.opening), EndOf(pieces, k + 1, env.opening);
    CallsWellFormed(items, pieces, k + 1, env);
    ReceivedText(items, pieces, k, env);
    ReceivedText(items, pieces, k + 1, env);
    ReceivedMore(pieces, k);
    if Received(pieces, k) == "" {
      NothingYet(env);
      NotInHeader(Initial, pieces[k]);
    } else {
      ReceivedStands(items, before, env);
      LateIff(items, d, before, m, AtOnce(pieces, k, env).conf);
      PieceText(env.opening, x, before, m, pieces[k]);
    }
  }

  lemma PieceText(opening: string, x: string, before: nat, m: nat, piece: string)
    requires before <= m <= |x| && opening + x[..m] == opening + x[..before] + piece
    ensures piece == x[before..m]
  {
    assert (opening + x[..m])[|opening| + before..] == x[before..m];
    assert (opening + x[..before] + piece)[|opening| + before..] == piece;
  }

  lemma NoneTripsIff(items: seq<Part>, pieces: seq<string>, env: Env)
    requires Given(items, pieces, env)
    ensures (forall k | 0 <= k < |pieces| :: !CallTrips(pieces, k, env)) <==>
            AllEndWell(items, env.delimiter, env.opening, pieces)
  {
    hide Given, CallTrips, EntryTrips, LateTrips;
    var i := FirstBad(items, pieces, |pieces|, env);
    if i < |pieces| {
      CallTripsIff(items, pieces, i, env);
    } else {
      forall k | 0 <= k < |pieces|
        ensures !CallTrips(pieces, k, env)
        ensures EndsWell(items, env.delimiter, EndOf(pieces, k, env.opening), EndOf(pieces, k + 1, env.opening))
      {
        NothingBefore(items, pieces, k, env);
        CallTripsIff(items, pieces, k, env);
      }
    }
  }

  /** The first of `n` calls that ends badly. */
  lemma {:induction false} FirstBad(items: seq<Part>, pieces: seq<string>, n: nat, env: Env) returns (i: nat)
    requires Given(items, pieces, env) && n <= |pieces|
    ensures i <= n && !EntryTrips(items, env.delimiter, EndOf(pieces, i, env.opening))
    ensures forall k | 0 <= k < i ::
              EndsWell(items, env.delimiter, EndOf(pieces, k, env.opening), EndOf(pieces, k + 1, env.opening))
    ensures i < n ==>
              !EndsWell(items, env.delimiter, EndOf(pieces, i, env.opening), EndOf(pieces, i + 1, env.opening))
  {
    hide Given, EntryTrips, LateTrips;
    if n == 0 {
      i := 0;
      StartsWell(items, pieces, env);
    } else {
      i := FirstBad(items, pieces, n - 1, env);
      if i == n - 1 &&
         EndsWell(items, env.delimiter, EndOf(pieces, i, env.opening), EndOf(pieces, i + 1, env.opening)) {
        i := n;
      }
    }
  }

  lemma StartsWell(items: seq<Part>, pieces: seq<string>, env: Env)
    requires Given(items, pieces, env)
    ensures !EntryTrips(items, env.delimiter, EndOf(pieces, 0, env.opening))
  {
    assert pieces[..0] == [];
    NothingTrips(items, env.delimiter, EndOf(pieces, 0, env.opening));
  }

  lemma NothingBefore(items: seq<Part>, pieces: seq<string>, k: nat, env: Env)
    requires Given(items, pieces, env) && k <= |pieces|
    requires forall j | 0 <= j < k ::
               EndsWell(items, env.delimiter, EndOf(pieces, j, env.opening), EndOf(pieces, j + 1, env.opening))
    ensures !EntryTrips(items, env.delimiter, EndOf(pieces, k, env.opening))
  {
    hide Given, EntryTrips, LateTrips;
    if k == 0 {
      StartsWell(items, pieces, env);
    } else {
      assert EndsWell(items, env.delimiter, EndOf(pieces, k - 1, env.opening), EndOf(pieces, (k - 1) + 1, env.opening));
    }
  }

  /** Where the last call may end every Content-Disposition line fits. */
  lemma {:induction false} EndFits(items: seq<Part>, d: string)
    requires items != [] && !EntryTrips(items, d, |AfterOpening(items, d)|)
    ensures DispositionsFit(items)
    decreases |items|
  {
    hide HeaderLines, DispositionLine, AfterOpening;
    FormShape(items, d);
    HeaderShape(items[0].file, "");
    if |items| > 1 {
      LaterSlice(items, d, ItemEnd(items[0], d) + 2, |AfterOpening(items, d)|);
      EndFits(items[1..], d);
      assert forall i | 0 < i < |items| :: items[i] == items[1..][i - 1];
    }
  }

  /** With the opening delimiter whole, the calls succeed exactly when all end well, and then deliver the items. */
  lemma WholeOpening(items: seq<Part>, boundary: string, accept: Event -> bool, pieces: seq<string>)
    requires BoundaryCharsValid(boundary) && forall e :: accept(e)
    requires Given(items, pieces, EnvFor(boundary, accept))
    ensures var p, env := ParsePieces(Initial, pieces, EnvFor(boundary, accept)), EnvFor(boundary, accept);
            && (p.ok <==> AllEndWell(items, env.delimiter, env.opening, pieces))
            && (p.ok ==> p.conf.valid && p.conf.buf == "" && Collect([], p.events) == items)
  {
    hide Drain, AllEndWell, CallTrips, AllTransparent, Given, Serialize;
    var env := EnvFor(boundary, accept);
    forall k | 0 <= k <= |pieces| ensures WellFormed(pieces, k, env) {
      CallsWellFormed(items, pieces, k, env);
    }
    GivenAccepts(items, pieces, env);
    Calls(pieces, |pieces|, env);
    NoneTripsIff(items, pieces, env);
    assert pieces[..|pieces|] == pieces;
    if AllEndWell(items, env.delimiter, env.opening, pieces) {
      AllDelivered(items, boundary, accept, pieces);
    }
  }

  lemma GivenAccepts(items: seq<Part>, pieces: seq<string>, env: Env)
    requires Given(items, pieces, env)
    ensures AcceptsAll(env)
  {
  }

  lemma AllDelivered(items: seq<Part>, boundary: string, accept: Event -> bool, pieces: seq<string>)
    requires BoundaryCharsValid(boundary) && forall e :: accept(e)
    requires Given(items, pieces, EnvFor(boundary, accept))
    requires var env := EnvFor(boundary, accept); AllEndWell(items, env.delimiter, env.opening, pieces)
    ensures var whole := AtOnce(pieces, |pieces|, EnvFor(boundary, accept));
            whole.ok && whole.conf.valid && whole.conf.buf == "" && Collect([], whole.events) == items
  {
    hide Drain, AfterOpening, EntryTrips, LateTrips, Collect, AllTransparent, Clean, Regular;
    var env := EnvFor(boundary, accept);
    var x, n := AfterOpening(items, env.delimiter), |pieces|;
    assert pieces[..n] == pieces;
    assert EndOf(pieces, n, env.opening) == |x|;
    assert EndsWell(items, env.delimiter, EndOf(pieces, n - 1, env.opening), EndOf(pieces, (n - 1) + 1, env.opening));
    EndFits(items, env.delimiter);
    SerializedShape(items, boundary);
    RoundTrip(items, boundary, accept);
    assert [] + items == items;
  }

  /**
   * However a serialized form is cut into `parse` calls: its items come back exactly when no call ends inside its
   * opening delimiter and no call comes to a header line over the limit where it looks at the length; and then the
   * form is valid.
   */
  lemma ItemsBackExactly(items: seq<Part>, boundary: string, accept: Event -> bool, pieces: seq<string>)
    requires BoundaryCharsValid(boundary) && forall e :: accept(e)
    requires items != [] && AllTransparent(items, CrlfDashBoundary(boundary))
    requires Join(pieces) == Serialize(items, boundary, true)
    ensures var p := ParsePieces(Initial, pieces, EnvFor(boundary, accept));
            var opening := DashBoundaryCrlf(boundary);
            && (p.ok && Collect([], p.events) == items <==>
                OpeningInOnePiece(pieces, opening) && AllEndWell(items, CrlfDashBoundary(boundary), opening, pieces))
            && (p.ok && OpeningInOnePiece(pieces, opening) ==> p.conf.valid && p.conf.buf == "")
  {
    hide Drain, AllEndWell, AllTransparent, OpeningInOnePiece, ParsePieces, Collect, Serialize;
    if OpeningInOnePiece(pieces, DashBoundaryCrlf(boundary)) {
      CleanFor(boundary, accept);
      SerializedShape(items, boundary);
      WholeOpening(items, boundary, accept, pieces);
    } else {
      SplitLosesItems(items, boundary, accept, pieces);
    }
  }

  /** A form that is accepted in one call, and refused when a call ends before a Content-Type line over the limit. */
  lemma LongTypeCut(items: seq<Part>, boundary: string, accept: Event -> bool) returns (pieces: seq<string>)
    requires BoundaryCharsValid(boundary) && forall e :: accept(e)
    requires items != [] && AllTransparent(items, CrlfDashBoundary(boundary)) && DispositionsFit(items)
    requires items[0].file.contentType != "" && |ContentTypeLine(items[0].file)| > HEADER_MAX_LENGTH
    ensures Join(pieces) == Serialize(items, boundary, true)
    ensures Drain(Append(Initial, Join(pieces)), EnvFor(boundary, accept)).ok
    ensures !ParsePieces(Initial, pieces, EnvFor(boundary, accept)).ok
  {
    hide Drain, AllEndWell, AllTransparent, Serialize, AfterOpening, ContentTypeLine;
    var env := EnvFor(boundary, accept);
    AcceptedIffFits(items, boundary, accept);
    CleanFor(boundary, accept);
    SerializedShape(items, boundary);
    pieces := CutBeforeType(items, env);
    WholeOpening(items, boundary, accept, pieces);
  }

  /** The cut at the end of the first Content-Disposition line. */
  lemma CutBeforeType(items: seq<Part>, env: Env) returns (pieces: seq<string>)
    requires Clean(env) && items != [] && AllTransparent(items, env.delimiter)
    requires items[0].file.contentType != "" && |ContentTypeLine(items[0].file)| > HEADER_MAX_LENGTH
    ensures Given(items, pieces, env) && !AllEndWell(items, env.delimiter, env.opening, pieces)
  {
    hide AfterOpening, HeaderLines, ContentTypeLine, AllTransparent, Clean, EntryTrips, Join;
    var f, x := items[0].file, AfterOpening(items, env.delimiter);
    var end := DispositionEnd(f);
    FormShape(items, env.delimiter);
    HeaderShape(f, "");
    var a, b := env.opening + x[..end], x[end..];
    pieces := [a, b];
    TwoPieces(a, b);
    assert a + b == env.opening + x;
    OpeningFirst(env.opening, x[..end]);
    assert OpeningInOnePiece(pieces, env.opening);
    assert EndOf(pieces, 1, env.opening) == end && EndOf(pieces, 2, env.opening) == |x|;
    assert |TypeText(f)| == |ContentTypeLine(f)| + 2;
    assert LateTrips(items, env.delimiter, end, |x|);
    assert !EndsWell(items, env.delimiter, EndOf(pieces, 1, env.opening), EndOf(pieces, 1 + 1, env.opening));
  }

  lemma TwoPieces(a: string, b: string)
    ensures Join([a, b]) == a + b && Join([a, b][..1]) == a && Join([a, b][..2]) == a + b
  {
    assert [a, b][1..] == [b] && [b][1..] == [] && [a, b][..1] == [a] && [a][1..] == [] && [a, b][..2] == [a, b];
    assert Join([b]) == b + "" == b && Join([a]) == a + "" == a;
  }
}
