/** The multipart/form-data parser of util/httplib.h as a machine over its unread bytes, and the proof
    that it does not matter how a body is cut into `parse` calls. */
module Multipart {
  import opened Machine
  import opened Text

  datatype FileInfo = FileInfo(name: string, filename: string, contentType: string)

  const NoFile := FileInfo("", "", "")

  /** The two callbacks a caller passes to `parse`. */
  datatype Event = Header(file: FileInfo) | Content(data: string)

  const HEADER_MAX_LENGTH := 8192

  const DASH_CRLF := "--\r\n"

  // ---------- Header lines ----------

  function SkipNonSpace(s: string): string {
    if s != "" && !IsSpace(s[0]) then SkipNonSpace(s[1..]) else s
  }

  function AfterLiteral(s: string, literal: string): Option<string> {
    if StartsWithIgnoreCase(s, literal) then Some(s[|literal|..]) else None
  }

  /** What follows `;\s*key` at the start of `s`. */
  function AfterParameter(s: string, key: string): Option<string> {
    if s != "" && s[0] == ';' then AfterLiteral(SkipSpaces(s[1..]), key) else None
  }

  /** `(?:;\s*filename\*=\S+)?\s*$` */
  predicate ExtendedNameTail(s: string) {
    SkipSpaces(s) == "" ||
    match AfterParameter(s, "filename*=")
    case None => false
    case Some(u) => u != "" && !IsSpace(u[0]) && SkipSpaces(SkipNonSpace(u)) == ""
  }

  /** The shortest `u[..i]` closed by a quote such that the rest of the line matches. */
  function QuotedFilename(u: string, i: nat): Option<string>
    requires i <= |u|
    decreases |u| - i
  {
    if i == |u| || u[i] == '\r' || u[i] == '\n' then None
    else if u[i] == '"' && ExtendedNameTail(u[i + 1..]) then Some(u[..i])
    else QuotedFilename(u, i + 1)
  }

  /** `(?:;\s*filename="(.*?)")?(?:;\s*filename\*=\S+)?\s*$`; an absent group captures nothing. */
  function FilenameTail(s: string): Option<string> {
    var quoted := match AfterParameter(s, "filename=\"")
      case None => None
      case Some(u) => QuotedFilename(u, 0);
    if quoted.Some? then quoted
    else if ExtendedNameTail(s) then Some("")
    else None
  }

  function QuotedName(r: string, i: nat): Option<(string, string)>
    requires i <= |r|
    decreases |r| - i
  {
    if i == |r| || r[i] == '\r' || r[i] == '\n' then None
    else if r[i] == '"' && FilenameTail(r[i + 1..]).Some? then
      Some((r[..i], FilenameTail(r[i + 1..]).value))
    else QuotedName(r, i + 1)
  }

  /** The Content-Disposition expression: the captured name and filename. */
  function MatchDisposition(line: string): Option<(string, string)> {
    match AfterLiteral(line, "Content-Disposition:")
    case None => None
    case Some(a) =>
      match AfterLiteral(SkipSpaces(a), "form-data;")
      case None => None
      case Some(b) =>
        match AfterLiteral(SkipSpaces(b), "name=\"")
        case None => None
        case Some(r) => QuotedName(r, 0)
  }

  /** The file description after one header line, or `None` for a line the parser rejects. */
  function ParseHeader(file: FileInfo, line: string): Option<FileInfo> {
    if StartsWithIgnoreCase(line, "content-type:") then
      Some(file.(contentType := Trim(line[|"content-type:"|..])))
    else
      match MatchDisposition(line)
      case None => None
      case Some(m) => Some(file.(name := m.0, filename := m.1))
  }

  // ---------- The machine ----------

  /** `Headers(true)` is the inner header loop, where the length of a line is not checked again. */
  datatype Phase = Preamble | NewEntry | Headers(inLoop: bool) | Body | Boundary

  datatype Conf = Conf(phase: Phase, file: FileInfo, valid: bool, buf: string)

  const Initial := Conf(Preamble, NoFile, false, "")

  function Append(c: Conf, data: string): Conf {
    c.(buf := c.buf + data)
  }

  datatype Outcome =
    | Next(conf: Conf, events: seq<Event>)
    | Stop(ok: bool, conf: Conf, events: seq<Event>)

  /** What a parser is given: the boundary, the caller's callbacks and how it reads a header line. */
  datatype Env = Env(opening: Delimiter, delimiter: Delimiter, accept: Event -> bool,
                     header: (FileInfo, string) -> Option<FileInfo>)

  type Delimiter = s: string | s != "" witness "-"

  function DashBoundaryCrlf(boundary: string): string {
    "--" + boundary + CRLF
  }

  function CrlfDashBoundary(boundary: string): string {
    CRLF + "--" + boundary
  }

  /** The parser after `set_boundary`. */
  function EnvFor(boundary: string, accept: Event -> bool): Env {
    Env(DashBoundaryCrlf(boundary), CrlfDashBoundary(boundary), accept, ParseHeader)
  }

  function StepPreamble(c: Conf, env: Env): Outcome {
    var b := c.buf[Find(c.buf, env.opening)..];
    if |env.opening| > |b| then Stop(true, c.(buf := b), [])
    else if !(env.opening <= b) then Stop(false, c.(buf := b), [])
    else Next(c.(phase := NewEntry, buf := b[|env.opening|..]), [])
  }

  function StepHeaders(c: Conf, env: Env): Outcome
    requires c.phase.Headers?
  {
    var pos := Find(c.buf, CRLF);
    if !c.phase.inLoop && pos > HEADER_MAX_LENGTH then Stop(false, c, [])
    else if pos == |c.buf| then Stop(true, c.(phase := Headers(false)), [])
    else if pos == 0 then
      var e := Header(c.file);
      if env.accept(e) then Next(c.(phase := Body, buf := c.buf[|CRLF|..]), [e])
      else Stop(false, c.(phase := Headers(false), valid := false), [e])
    else
      match env.header(c.file, c.buf[..pos])
      case None => Stop(false, c.(phase := Headers(false), valid := false), [])
      case Some(f) => Next(c.(phase := Headers(true), file := f, buf := c.buf[pos + |CRLF|..]), [])
  }

  function StepBody(c: Conf, env: Env): Outcome {
    if |env.delimiter| > |c.buf| then Stop(true, c, [])
    else
      var pos := Find(c.buf, env.delimiter);
      if pos < |c.buf| then
        var e := Content(c.buf[..pos]);
        if env.accept(e) then Next(c.(phase := Boundary, buf := c.buf[pos + |env.delimiter|..]), [e])
        else Stop(false, c.(valid := false), [e])
      else
        var len := |c.buf| - |env.delimiter|;
        if len == 0 then Stop(true, c, [])
        else
          var e := Content(c.buf[..len]);
          if env.accept(e) then Stop(true, c.(buf := c.buf[len..]), [e])
          else Stop(false, c.(valid := false), [e])
  }

  function StepBoundary(c: Conf): Outcome {
    if |CRLF| > |c.buf| then Stop(true, c, [])
    else if CRLF <= c.buf then Next(c.(phase := NewEntry, buf := c.buf[|CRLF|..]), [])
    else if |DASH_CRLF| > |c.buf| then Stop(true, c, [])
    else if DASH_CRLF <= c.buf then Next(c.(valid := true, buf := ""), [])
    else Stop(true, c, [])
  }

  /** One turn of the parser's loop. */
  function Step(c: Conf, env: Env): Outcome {
    match c.phase
    case Preamble => StepPreamble(c, env)
    case NewEntry => Next(c.(phase := Headers(false), file := NoFile), [])
    case Headers(_) => StepHeaders(c, env)
    case Body => StepBody(c, env)
    case Boundary => StepBoundary(c)
  }

  /** The value `parse` returns, the parser it leaves and the callbacks it makes. */
  datatype Run = Run(ok: bool, conf: Conf, events: seq<Event>)

  predicate Idle(c: Conf) {
    c.buf == "" && c.phase != Headers(true)
  }

  /** The whole loop of one `parse` call on the bytes now in the buffer. */
  function Drain(c: Conf, env: Env): Run
    decreases |c.buf|, c.phase == NewEntry
  {
    if Idle(c) then Run(true, c, [])
    else
      match Step(c, env)
      case Stop(ok, c', ev) => Run(ok, c', ev)
      case Next(c', ev) => var r := Drain(c', env); r.(events := ev + r.events)
  }

  /** A body delivered in pieces; the caller stops feeding when `parse` returns false. */
  function ParsePieces(c: Conf, pieces: seq<string>, env: Env): Run
    decreases |pieces|
  {
    if pieces == [] then Run(true, c, [])
    else
      var r := Drain(Append(c, pieces[0]), env);
      if !r.ok then r
      else
        var s := ParsePieces(r.conf, pieces[1..], env);
        s.(events := r.events + s.events)
  }

  function Join(pieces: seq<string>): string {
    if pieces == [] then "" else pieces[0] + Join(pieces[1..])
  }

  // ---------- What a caller sees ----------

  datatype Part = Part(file: FileInfo, content: string)

  /** The parts a caller has after the callbacks: a header opens one, content extends the last. */
  function Collect(parts: seq<Part>, events: seq<Event>): seq<Part>
    decreases |events|
  {
    if events == [] then parts
    else Collect(Apply(parts, events[0]), events[1..])
  }

  function Apply(parts: seq<Part>, e: Event): seq<Part> {
    match e
    case Header(f) => parts + [Part(f, "")]
    case Content(d) =>
      if parts == [] then parts
      else parts[|parts| - 1 := parts[|parts| - 1].(content := parts[|parts| - 1].content + d)]
  }

  lemma {:induction false} CollectConcat(parts: seq<Part>, e1: seq<Event>, e2: seq<Event>)
    ensures Collect(parts, e1 + e2) == Collect(Collect(parts, e1), e2)
    decreases |e1|
  {
    if e1 == [] {
      assert e1 + e2 == e2;
    } else {
      assert (e1 + e2)[1..] == e1[1..] + e2;
      CollectConcat(Apply(parts, e1[0]), e1[1..], e2);
    }
  }

  /** Draining `c` makes the callbacks `ev` and then does what draining `c'` does. */
  ghost predicate Reaches(c: Conf, c': Conf, ev: seq<Event>, env: Env) {
    var r, r' := Drain(c, env), Drain(c', env);
    r == r'.(events := ev + r'.events)
  }

  lemma ReachesNext(c: Conf, c1: Conf, c2: Conf, e1: seq<Event>, e2: seq<Event>, env: Env)
    requires c.buf != "" && Step(c, env) == Next(c1, e1)
    requires Reaches(c1, c2, e2, env)
    ensures Reaches(c, c2, e1 + e2, env)
  {
    ReachesStep(c, c1, e1, env);
    ReachesTrans(c, c1, c2, e1, e2, env);
  }

  lemma ReachesTrans(c: Conf, c1: Conf, c2: Conf, e1: seq<Event>, e2: seq<Event>, env: Env)
    requires Reaches(c, c1, e1, env) && Reaches(c1, c2, e2, env)
    ensures Reaches(c, c2, e1 + e2, env)
  {
    ReachesJoin(Drain(c, env), Drain(c1, env), Drain(c2, env), e1, e2);
  }

  lemma DrainStop(c: Conf, env: Env)
    requires !Idle(c) && Step(c, env).Stop?
    ensures var s := Step(c, env); Drain(c, env) == Run(s.ok, s.conf, s.events)
  {
  }

  /** `drain` is draining in this environment, as a value that code can carry around unexpanded. */
  ghost predicate IsDrain(drain: Conf -> Run, env: Env) {
    forall c {:trigger Drain(c, env)} :: drain(c) == Drain(c, env)
  }

  /** A call that must end as `target` has made the callbacks `done` and stands at `c`. */
  ghost predicate Owes(c: Conf, done: seq<Event>, target: Run, drain: Conf -> Run) {
    var r := drain(c);
    target == r.(events := done + r.events)
  }

  lemma OwesStart(c: Conf, drain: Conf -> Run)
    ensures Owes(c, [], drain(c), drain)
  {
    var r := drain(c).events;
    assert [] + r == r;
  }

  lemma OwesNext(c: Conf, done: seq<Event>, target: Run, drain: Conf -> Run, env: Env)
    requires IsDrain(drain, env) && !Idle(c) && Step(c, env).Next? && Owes(c, done, target, drain)
    ensures var s := Step(c, env); Owes(s.conf, done + s.events, target, drain)
  {
    var s := Step(c, env);
    var r := Drain(s.conf, env).events;
    assert drain(c) == Drain(c, env);
    assert done + (s.events + r) == done + s.events + r;
  }

  lemma OwesStop(c: Conf, done: seq<Event>, target: Run, drain: Conf -> Run, env: Env)
    requires IsDrain(drain, env) && !Idle(c) && Step(c, env).Stop? && Owes(c, done, target, drain)
    ensures var s := Step(c, env); target == Run(s.ok, s.conf, done + s.events)
  {
    assert drain(c) == Drain(c, env);
  }

  lemma OwesIdle(c: Conf, done: seq<Event>, target: Run, drain: Conf -> Run, env: Env)
    requires IsDrain(drain, env) && Idle(c) && Owes(c, done, target, drain)
    ensures target == Run(true, c, done)
  {
    assert drain(c) == Drain(c, env);
    assert done + [] == done;
  }

  lemma StepShrinks(c: Conf, env: Env)
    requires !Idle(c) && Step(c, env).Next?
    ensures var c' := Step(c, env).conf;
            |c'.buf| < |c.buf| || (|c'.buf| == |c.buf| && c.phase.NewEntry? && !c'.phase.NewEntry?)
  {
  }

  lemma ReachesStep(c: Conf, c1: Conf, e1: seq<Event>, env: Env)
    requires !Idle(c) && Step(c, env) == Next(c1, e1)
    ensures Reaches(c, c1, e1, env)
  {
  }

  lemma ReachesJoin(r: Run, r1: Run, r2: Run, e1: seq<Event>, e2: seq<Event>)
    requires r == r1.(events := e1 + r1.events) && r1 == r2.(events := e2 + r2.events)
    ensures r == r2.(events := e1 + e2 + r2.events)
  {
    assert e1 + (e2 + r2.events) == e1 + e2 + r2.events;
  }

  lemma ReachesSelf(c: Conf, env: Env)
    ensures Reaches(c, c, [], env)
  {
    var r := Drain(c, env).events;
    assert [] + r == r;
  }

  // ---------- Cutting a body into pieces ----------

  ghost predicate AcceptsAll(env: Env) {
    forall e :: env.accept(e)
  }

  /** Inputs on which cutting is harmless, read off the bytes: every header line is shorter than the
      limit, and nothing follows the closing delimiter. */
  predicate Regular(c: Conf, env: Env)
    decreases |c.buf|, c.phase == NewEntry
  {
    Idle(c) ||
    (&& (c.phase.Headers? ==> ShortLine(c.buf))
     && (c.phase.Boundary? && DASH_CRLF <= c.buf ==> |c.buf| == 4)
     && match Step(c, env)
        case Stop(_, _, _) => true
        case Next(c', _) => Regular(c', env))
  }

  /** The first line is under the limit; an unfinished one may also hold its carriage return. */
  predicate ShortLine(s: string) {
    var pos := Find(s, CRLF);
    if pos < |s| then pos < HEADER_MAX_LENGTH else |s| <= HEADER_MAX_LENGTH
  }

  predicate PastOpening(c: Conf, env: Env) {
    c.phase.Preamble? ==> Find(c.buf, env.opening) < |c.buf|
  }

  lemma ShortLinePrefix(s: string, b: string)
    requires ShortLine(s + b)
    ensures ShortLine(s)
  {
    FindAppend(s, b, CRLF);
  }

  /** A step that goes on does the same with more input behind it. */
  ghost predicate Extends(s: Outcome, t: Outcome, b: string) {
    s.Next? ==> t.Next? && t.events == s.events && t.conf == Append(s.conf, b)
  }

  lemma PreambleStable(c: Conf, b: string, env: Env)
    requires Find(c.buf, env.opening) < |c.buf|
    ensures Extends(StepPreamble(c, env), StepPreamble(Append(c, b), env), b)
  {
    FindAppend(c.buf, b, env.opening);
    var p := Find(c.buf, env.opening);
    var x := c.buf[p..];
    assert (c.buf + b)[p..] == x + b;
    assert env.opening <= x ==> env.opening <= x + b;
    assert (x + b)[|env.opening|..] == x[|env.opening|..] + b;
    assert (x + b)[..|env.opening|] == x[..|env.opening|];
  }

  lemma HeadersStable(c: Conf, b: string, env: Env)
    requires c.phase.Headers?
    ensures Extends(StepHeaders(c, env), StepHeaders(Append(c, b), env), b)
  {
    var p := Find(c.buf, CRLF);
    if p < |c.buf| {
      assert Find(c.buf + b, CRLF) == p by { FindAppend(c.buf, b, CRLF); }
      assert (c.buf + b)[..p] == c.buf[..p];
      assert (c.buf + b)[p + 2..] == c.buf[p + 2..] + b;
    }
  }

  lemma BodyStable(c: Conf, b: string, env: Env)
    ensures Extends(StepBody(c, env), StepBody(Append(c, b), env), b)
  {
    var p := Find(c.buf, env.delimiter);
    if p < |c.buf| {
      assert Find(c.buf + b, env.delimiter) == p by { FindAppend(c.buf, b, env.delimiter); }
      assert (c.buf + b)[..p] == c.buf[..p];
      assert (c.buf + b)[p + |env.delimiter|..] == c.buf[p + |env.delimiter|..] + b;
    }
  }

  lemma BoundaryStable(c: Conf, b: string)
    requires DASH_CRLF <= c.buf ==> b == ""
    ensures Extends(StepBoundary(c), StepBoundary(Append(c, b)), b)
  {
    if |c.buf| >= 2 {
      assert (c.buf + b)[..2] == c.buf[..2];
      assert (c.buf + b)[2..] == c.buf[2..] + b;
      if b == "" {
        assert c.buf + b == c.buf;
      }
    }
  }

  lemma StepStable(c: Conf, b: string, env: Env)
    requires PastOpening(c, env)
    requires c.phase.Boundary? && DASH_CRLF <= c.buf ==> b == ""
    ensures Extends(Step(c, env), Step(Append(c, b), env), b)
  {
    match c.phase
    case Preamble => PreambleStable(c, b, env);
    case NewEntry =>
    case Headers(_) => HeadersStable(c, b, env);
    case Body => BodyStable(c, b, env);
    case Boundary => BoundaryStable(c, b);
  }

  /** Bytes that cannot start a delimiter shift the search by their length. */
  lemma FindShifted(x: string, y: string, d: string)
    requires d != ""
    requires forall i | 0 <= i < |x| :: !OccursAt(x + y, d, i)
    ensures Find(x + y, d) == |x| + Find(y, d)
  {
    var q := Find(y, d);
    FindSpec(y, d);
    forall i | 0 <= i <= |y| ensures OccursAt(y, d, i) <==> OccursAt(x + y, d, |x| + i) {
      if i <= |y| - |d| {
        assert forall k | 0 <= k < |d| :: (x + y)[|x| + i + k] == y[i + k] == y[i..][k];
      }
    }
    forall i | |x| <= i < |x| + q ensures !OccursAt(x + y, d, i) {
      assert i == |x| + (i - |x|);
      assert !OccursAt(y, d, i - |x|);
    }
    FindUnique(x + y, d, |x| + q);
  }

  /** Such bytes may be delivered early: the step over `x + y` is the one over `y` with `x` in front. */
  lemma StepBodyPrefix(c: Conf, x: string, y: string, env: Env) returns (z: string)
    requires AcceptsAll(env)
    requires c.buf == x + y && x != "" && |y| >= |env.delimiter|
    requires Find(x + y, env.delimiter) == |x| + Find(y, env.delimiter)
    ensures var s, t := StepBody(c, env), StepBody(c.(buf := y), env);
            && s.Next? == t.Next? && s.conf == t.conf && (s.Stop? ==> s.ok && t.ok)
            && s.events == [Content(x + z)] && (t.events == [Content(z)] || (t.events == [] && z == ""))
  {
    var k, q := |env.delimiter|, Find(y, env.delimiter);
    if q < |y| {
      z := y[..q];
      Cut(x, y, q);
      Cut(x, y, q + k);
    } else {
      z := y[..|y| - k];
      Cut(x, y, |y| - k);
    }
  }

  lemma Cut(x: string, y: string, i: nat)
    requires i <= |y|
    ensures (x + y)[..|x| + i] == x + y[..i]
    ensures (x + y)[|x| + i..] == y[i..]
  {
  }

  lemma BodyPrefix(c: Conf, x: string, y: string, env: Env, parts: seq<Part>)
    requires AcceptsAll(env)
    requires c.phase.Body? && c.buf == x + y && |y| >= |env.delimiter| && x != ""
    requires forall i | 0 <= i < |x| :: !OccursAt(x + y, env.delimiter, i)
    ensures var r, s := Drain(c, env), Drain(c.(buf := y), env);
            && r.ok == s.ok && r.conf == s.conf
            && Collect(parts, r.events) == Collect(Apply(parts, Content(x)), s.events)
    ensures Regular(c, env) ==> Regular(c.(buf := y), env)
  {
    FindShifted(x, y, env.delimiter);
    var z := StepBodyPrefix(c, x, y, env);
    var s, t := StepBody(c, env), StepBody(c.(buf := y), env);
    var rest := if s.Next? then Drain(s.conf, env).events else [];
    assert Drain(c, env).events == s.events + rest;
    assert Drain(c.(buf := y), env).events == t.events + rest;
    CollectMerged(parts, x, z, rest);
    if t.events == [] {
      CollectNothing(Apply(parts, Content(x)), z);
      assert t.events + rest == rest;
      assert ([Content(z)] + rest)[1..] == rest;
    }
  }

  lemma CollectMerged(parts: seq<Part>, x: string, y: string, rest: seq<Event>)
    ensures Collect(parts, [Content(x + y)] + rest) == Collect(Apply(parts, Content(x)), [Content(y)] + rest)
  {
    assert ([Content(x + y)] + rest)[1..] == rest;
    assert ([Content(y)] + rest)[1..] == rest;
    assert Apply(parts, Content(x + y)) == Apply(Apply(parts, Content(x)), Content(y)) by {
      if parts != [] {
        var last := parts[|parts| - 1].content;
        assert last + (x + y) == last + x + y;
      }
    }
  }

  lemma CollectNothing(parts: seq<Part>, x: string)
    requires x == ""
    ensures Apply(parts, Content(x)) == parts
  {
    if parts != [] {
      assert parts[|parts| - 1].content + x == parts[|parts| - 1].content;
    }
  }

  /** Whether the header loop is entered afresh only matters through the length check. */
  lemma HeaderEntry(c: Conf, env: Env)
    requires c.phase.Headers? && ShortLine(c.buf)
    ensures Drain(c.(phase := Headers(true)), env) == Drain(c.(phase := Headers(false)), env)
    ensures Regular(c.(phase := Headers(true)), env) == Regular(c.(phase := Headers(false)), env)
  {
    var t, f := c.(phase := Headers(true)), c.(phase := Headers(false));
    if c.buf == "" {
      assert Find("", CRLF) == 0;
    } else {
      assert Step(t, env) == Step(f, env);
    }
  }

  /** Stopping in the middle and going on with the rest is the same as having it all at once. */
  ghost predicate Resumes(c: Conf, b: string, env: Env, parts: seq<Part>) {
    var r, whole := Drain(c, env), Drain(Append(c, b), env);
    if r.ok then
      var s := Drain(Append(r.conf, b), env);
      && whole.ok == s.ok && whole.conf == s.conf
      && Collect(parts, whole.events) == Collect(Collect(parts, r.events), s.events)
      && !r.conf.phase.Preamble? && Regular(Append(r.conf, b), env)
    else
      && !whole.ok && whole.conf.valid == r.conf.valid
      && Collect(parts, whole.events) == Collect(parts, r.events)
  }

  lemma ResumeNext(c: Conf, b: string, env: Env, parts: seq<Part>)
    requires !Idle(c) && Step(c, env).Next?
    requires Extends(Step(c, env), Step(Append(c, b), env), b)
    requires var s := Step(c, env);
             Resumes(s.conf, b, env, Collect(parts, s.events))
    ensures Resumes(c, b, env, parts)
  {
    var s := Step(c, env);
    var r, whole := Drain(s.conf, env), Drain(Append(s.conf, b), env);
    CollectConcat(parts, s.events, r.events);
    CollectConcat(parts, s.events, whole.events);
  }

  lemma ResumeStop(c: Conf, b: string, env: Env, parts: seq<Part>)
    requires AcceptsAll(env)
    requires PastOpening(c, env) && Regular(Append(c, b), env)
    requires !Idle(c) && Step(c, env).Stop?
    ensures Resumes(c, b, env, parts)
  {
    match c.phase
    case Preamble =>
      FindSpec(c.buf, env.opening);
      assert false;
    case NewEntry =>
    case Headers(_) => ResumeHeaders(c, b, env, parts);
    case Body => ResumeBody(c, b, env, parts);
    case Boundary =>
  }

  lemma ResumeHeaders(c: Conf, b: string, env: Env, parts: seq<Part>)
    requires AcceptsAll(env) && c.phase.Headers?
    requires Regular(Append(c, b), env)
    requires !Idle(c) && Step(c, env).Stop?
    ensures Resumes(c, b, env, parts)
  {
    var pos := Find(c.buf, CRLF);
    if Append(c, b).buf == "" {
      assert c.buf == "" && b == "";
    } else {
      ShortLinePrefix(c.buf, b);
      if pos == |c.buf| {
        HeaderEntry(Append(c, b), env);
      } else {
        FindAppend(c.buf, b, CRLF);
        assert (c.buf + b)[..pos] == c.buf[..pos];
      }
    }
  }

  lemma ResumeBody(c: Conf, b: string, env: Env, parts: seq<Part>)
    requires AcceptsAll(env) && c.phase.Body?
    requires Regular(Append(c, b), env)
    requires !Idle(c) && Step(c, env).Stop?
    ensures Resumes(c, b, env, parts)
  {
    if |c.buf| > |env.delimiter| {
      var len := |c.buf| - |env.delimiter|;
      var x, y := c.buf[..len], c.buf[len..] + b;
      assert c.buf == x + c.buf[len..];
      Assoc(x, c.buf[len..], b);
      NoEarlyDelimiter(c.buf, b, env.delimiter);
      BodyPrefix(Append(c, b), x, y, env, parts);
      assert Step(c, env) == Stop(true, c.(buf := c.buf[len..]), [Content(x)]);
      DrainStop(c, env);
      assert Collect(parts, [Content(x)]) == Apply(parts, Content(x));
    } else {
      DrainStop(c, env);
    }
  }

  lemma NoEarlyDelimiter(s: string, b: string, d: string)
    requires d != "" && Find(s, d) == |s|
    ensures forall i | 0 <= i <= |s| - |d| :: !OccursAt(s + b, d, i)
  {
    FindAppend(s, b, d);
    FindSpec(s + b, d);
  }

  lemma ResumeIdle(c: Conf, b: string, env: Env, parts: seq<Part>)
    requires Idle(c) && !c.phase.Preamble? && Regular(Append(c, b), env)
    ensures Resumes(c, b, env, parts)
  {
  }

  lemma RegularNext(c: Conf, b: string, env: Env)
    requires c.buf != "" || c.phase == Headers(true)
    requires Regular(Append(c, b), env)
    ensures c.phase.Boundary? && DASH_CRLF <= c.buf ==> b == ""
    ensures Step(Append(c, b), env).Next? ==> Regular(Step(Append(c, b), env).conf, env)
  {
    if c.phase.Boundary? && DASH_CRLF <= c.buf {
      assert DASH_CRLF <= c.buf + b;
    }
  }

  lemma {:induction false} Resume(c: Conf, b: string, env: Env, parts: seq<Part>)
    requires AcceptsAll(env)
    requires PastOpening(c, env) && Regular(Append(c, b), env)
    ensures Resumes(c, b, env, parts)
    decreases |c.buf|, c.phase == NewEntry
  {
    if Idle(c) {
      ResumeIdle(c, b, env, parts);
    } else if Step(c, env).Next? {
      RegularNext(c, b, env);
      StepStable(c, b, env);
      var s := Step(c, env);
      StepShrinks(c, env);
      assert !s.conf.phase.Preamble?;
      Resume(s.conf, b, env, Collect(parts, s.events));
      ResumeNext(c, b, env, parts);
    } else {
      ResumeStop(c, b, env, parts);
    }
  }

  /** The same verdict, the same headers in the same order, the same content per part and the same validity;
      and unless parsing was refused the parser is in the same state. */
  ghost predicate Agree(p: Run, whole: Run, parts: seq<Part>) {
    && p.ok == whole.ok && p.conf.valid == whole.conf.valid
    && Collect(parts, p.events) == Collect(parts, whole.events)
    && (p.ok ==> p.conf == whole.conf)
  }

  /** Cutting what follows into `parse` calls at any points agrees with one call. */
  lemma {:induction false} PiecesFrom(c: Conf, pieces: seq<string>, env: Env, parts: seq<Part>)
    requires AcceptsAll(env) && pieces != []
    requires PastOpening(Append(c, pieces[0]), env)
    requires Regular(Append(c, Join(pieces)), env)
    ensures Agree(ParsePieces(c, pieces, env), Drain(Append(c, Join(pieces)), env), parts)
    decreases |pieces|
  {
    var c0, b := Append(c, pieces[0]), Join(pieces[1..]);
    assert c.buf + Join(pieces) == c0.buf + b;
    Resume(c0, b, env, parts);
    var r := Drain(c0, env);
    if r.ok {
      var s := ParsePieces(r.conf, pieces[1..], env);
      CollectConcat(parts, r.events, s.events);
      if pieces[1..] != [] {
        PiecesFrom(r.conf, pieces[1..], env, Collect(parts, r.events));
      } else {
        assert Append(c0, b) == c0 && r.events + s.events == r.events;
      }
    }
  }

  /** The opening delimiter lies inside one piece: no earlier piece ends in the middle of it. */
  predicate OpeningInOnePiece(pieces: seq<string>, opening: string)
    requires opening != ""
  {
    pieces != [] &&
    (Find(pieces[0], opening) < |pieces[0]| ||
     (&& Find(Join(pieces), opening) == |pieces[0]| + Find(Join(pieces[1..]), opening)
      && OpeningInOnePiece(pieces[1..], opening)))
  }

  lemma PreambleStepSkipped(x: string, y: string, env: Env)
    requires Find(x + y, env.opening) == |x| + Find(y, env.opening)
    ensures StepPreamble(Initial.(buf := x + y), env) == StepPreamble(Initial.(buf := y), env)
  {
    assert (x + y)[Find(x + y, env.opening)..] == y[Find(y, env.opening)..] by {
      Cut(x, y, Find(y, env.opening));
    }
  }

  lemma PreambleSkipped(x: string, y: string, env: Env)
    requires y != "" && Find(x + y, env.opening) == |x| + Find(y, env.opening)
    ensures Drain(Append(Initial, x + y), env) == Drain(Append(Initial, y), env)
    ensures Regular(Append(Initial, x + y), env) == Regular(Append(Initial, y), env)
  {
    PreambleStepSkipped(x, y, env);
    assert Append(Initial, x + y).buf == x + y && Append(Initial, y).buf == y;
    assert Append(Initial, x + y) == Initial.(buf := x + y) && Append(Initial, y) == Initial.(buf := y);
  }

  /** Cutting a whole body into `parse` calls at any points outside the opening delimiter agrees with one call. */
  lemma {:induction false} CutAnywhere(pieces: seq<string>, env: Env)
    requires AcceptsAll(env)
    requires OpeningInOnePiece(pieces, env.opening)
    requires Regular(Append(Initial, Join(pieces)), env)
    ensures Agree(ParsePieces(Initial, pieces, env), Drain(Append(Initial, Join(pieces)), env), [])
  {
    if Find(pieces[0], env.opening) < |pieces[0]| {
      assert Append(Initial, pieces[0]).buf == pieces[0];
      PiecesFrom(Initial, pieces, env, []);
    } else {
      DiscardedPiece(pieces[0], env);
      OpeningNotEmpty(pieces[1..], env.opening);
      PreambleSkipped(pieces[0], Join(pieces[1..]), env);
      CutAnywhere(pieces[1..], env);
      var s := ParsePieces(Initial, pieces[1..], env);
      assert [] + s.events == s.events;
    }
  }

  lemma {:induction false} OpeningNotEmpty(pieces: seq<string>, opening: string)
    requires opening != "" && OpeningInOnePiece(pieces, opening)
    ensures Join(pieces) != ""
  {
    if Find(pieces[0], opening) == |pieces[0]| {
      OpeningNotEmpty(pieces[1..], opening);
    }
  }

  /** Before the opening delimiter a piece without it is thrown away, partial delimiter and all. */
  lemma DiscardedPiece(x: string, env: Env)
    requires Find(x, env.opening) == |x|
    ensures Drain(Append(Initial, x), env) == Run(true, Initial, [])
  {
    assert Initial.buf + x == x;
    assert x[|x|..] == "";
  }

  /** So when no piece holds the opening delimiter whole, nothing is ever delivered, whatever the pieces
      make when joined. */
  lemma {:induction false} SplitOpening(pieces: seq<string>, env: Env)
    requires forall i | 0 <= i < |pieces| :: Find(pieces[i], env.opening) == |pieces[i]|
    ensures ParsePieces(Initial, pieces, env) == Run(true, Initial, [])
  {
    if pieces != [] {
      DiscardedPiece(pieces[0], env);
      SplitOpening(pieces[1..], env);
    }
  }

  /** In general parsing starts with the first piece that holds an opening delimiter whole: the pieces before
      it might as well not have been there. */
  lemma {:induction false} StartsWithFirstWhole(pieces: seq<string>, k: nat, env: Env)
    requires AcceptsAll(env) && k < |pieces|
    requires forall i | 0 <= i < k :: Find(pieces[i], env.opening) == |pieces[i]|
    requires Find(pieces[k], env.opening) < |pieces[k]|
    requires Regular(Append(Initial, Join(pieces[k..])), env)
    ensures Agree(ParsePieces(Initial, pieces, env), Drain(Append(Initial, Join(pieces[k..])), env), [])
  {
    PiecesDropped(pieces, k, env);
    assert Append(Initial, pieces[k..][0]).buf == pieces[k];
    PiecesFrom(Initial, pieces[k..], env, []);
  }

  /** Pieces without a whole opening delimiter leave no trace. */
  lemma {:induction false} PiecesDropped(pieces: seq<string>, k: nat, env: Env)
    requires k <= |pieces| && forall i | 0 <= i < k :: Find(pieces[i], env.opening) == |pieces[i]|
    ensures ParsePieces(Initial, pieces, env) == ParsePieces(Initial, pieces[k..], env)
  {
    if k > 0 {
      DiscardedPiece(pieces[0], env);
      PiecesDropped(pieces[1..], k - 1, env);
      assert pieces[1..][k - 1..] == pieces[k..];
      var s := ParsePieces(Initial, pieces[1..], env);
      assert [] + s.events == s.events;
    } else {
      assert pieces[0..] == pieces;
    }
  }

  /** Nothing after a closing delimiter is looked at in the same call; in a call of its own it is taken for
      another part, and refused when its first line is no header. */
  lemma EpilogueCut(f: FileInfo, valid: bool, line: string, env: Env)
    requires line != "" && Find(line + CRLF, CRLF) == |line| <= HEADER_MAX_LENGTH && env.header(NoFile, line).None?
    ensures var c, epilogue := Conf(Boundary, f, valid, ""), CRLF + (line + CRLF);
            && Drain(Append(c, DASH_CRLF + epilogue), env) == Run(true, c.(valid := true), [])
            && Drain(Append(c, DASH_CRLF), env) == Run(true, c.(valid := true), [])
            && !Drain(Append(c.(valid := true), epilogue), env).ok
  {
    hide Find, Drain;
    var c, epilogue := Conf(Boundary, f, valid, ""), CRLF + (line + CRLF);
    ClosingTaken(c, DASH_CRLF + epilogue, env);
    ClosingTaken(c, DASH_CRLF, env);
    EntryRefused(f, line, env);
    assert Append(c.(valid := true), epilogue) == Conf(Boundary, f, true, epilogue);
  }

  lemma EntryRefused(f: FileInfo, line: string, env: Env)
    requires line != "" && Find(line + CRLF, CRLF) == |line| <= HEADER_MAX_LENGTH && env.header(NoFile, line).None?
    ensures !Drain(Conf(Boundary, f, true, CRLF + (line + CRLF)), env).ok
  {
    hide Find;
    var buf := line + CRLF;
    var c0, c1 := Conf(Boundary, f, true, CRLF + buf), Conf(NewEntry, f, true, buf);
    var c2 := Conf(Headers(false), NoFile, true, buf);
    assert (CRLF + buf)[|CRLF|..] == buf && buf[..|line|] == line;
    assert Step(c0, env) == Next(c1, []);
    assert Step(c1, env) == Next(c2, []);
    assert Step(c2, env) == Stop(false, c2.(valid := false), []);
    assert !Drain(c2, env).ok && !Drain(c1, env).ok;
  }

  lemma ClosingTaken(c: Conf, b: string, env: Env)
    requires c.phase.Boundary? && c.buf == "" && DASH_CRLF <= b
    ensures Drain(Append(c, b), env) == Run(true, c.(valid := true), [])
  {
    var c0, c1 := Append(c, b), c.(valid := true);
    assert c0.buf == b && b[0] == '-';
    assert Step(c0, env) == Next(c1, []);
    assert Drain(c1, env) == Run(true, c1, []);
  }
}
