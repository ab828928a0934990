/** Which Content-Disposition lines the multipart parser of util/httplib.h accepts, and what it reads from them. */
module DispositionGrammar {
  import opened Machine
  import opened Text
  import opened Multipart
  import opened MultipartRoundTrip

  /** A parameter: a semicolon, blanks, its key and its value. */
  datatype Parameter = Parameter(blanks: string, key: string, value: string)

  /** What may follow the name: a quoted filename, an extended one, and blanks. */
  datatype Tail = Tail(filename: Option<Parameter>, extended: Option<Parameter>, end: string)

  datatype Line = Line(field: string, gap: string, kind: string, space: string, key: string, name: string, tail: Tail)

  /** Keys are compared without regard to case. */
  predicate Spells(key: string, literal: string) {
    |key| == |literal| && StartsWithIgnoreCase(key, literal)
  }

  predicate IsWord(s: string) {
    s != "" && forall i | 0 <= i < |s| :: !IsSpace(s[i])
  }

  predicate IsParameter(p: Parameter, literal: string) {
    Blanks(p.blanks) && Spells(p.key, literal)
  }

  predicate IsTail(t: Tail) {
    && (t.filename.Some? ==> IsParameter(t.filename.value, "filename=\"") && LineText(t.filename.value.value))
    && IsEnd(t.extended, t.end)
  }

  predicate IsEnd(extended: Option<Parameter>, end: string) {
    && (extended.Some? ==> IsParameter(extended.value, "filename*=") && IsWord(extended.value.value))
    && Blanks(end)
  }

  ghost predicate IsLine(l: Line) {
    && Spells(l.field, "Content-Disposition:") && Blanks(l.gap) && Spells(l.kind, "form-data;") && Blanks(l.space)
    && Spells(l.key, "name=\"") && LineText(l.name) && IsTail(l.tail)
  }

  function ParameterText(p: Parameter, rest: string): string {
    ";" + (p.blanks + (p.key + (p.value + rest)))
  }

  function EndText(extended: Option<Parameter>, end: string): string {
    if extended.Some? then ParameterText(extended.value, end) else end
  }

  function TailText(t: Tail): string {
    var end := EndText(t.extended, t.end);
    if t.filename.Some? then ParameterText(t.filename.value, "\"" + end) else end
  }

  function LineOf(l: Line): string {
    l.field + (l.gap + (l.kind + (l.space + (l.key + (l.name + ("\"" + TailText(l.tail)))))))
  }

  function Filename(t: Tail): string {
    if t.filename.Some? then t.filename.value.value else ""
  }

  /** Of two ways to read the end of a line the one with a filename is taken, and of those the shorter filename. */
  predicate TailPreferred(a: Tail, b: Tail) {
    b.filename.Some? ==> a.filename.Some? && |a.filename.value.value| <= |b.filename.value.value|
  }

  /** Of two ways to read a line the one with the shorter name is taken. */
  predicate Preferred(a: Line, b: Line) {
    |a.name| < |b.name| || (|a.name| == |b.name| && TailPreferred(a.tail, b.tail))
  }

  // ---------- Keys, parameters and words ----------

  lemma AfterSpelled(key: string, literal: string, rest: string)
    requires Spells(key, literal)
    ensures AfterLiteral(key + rest, literal) == Some(rest)
  {
    assert (key + rest)[|literal|..] == rest;
  }

  lemma AfterSplit(s: string, literal: string) returns (key: string)
    requires AfterLiteral(s, literal).Some?
    ensures Spells(key, literal) && s == key + AfterLiteral(s, literal).value
  {
    key := s[..|literal|];
  }

  /** Blanks and a key that starts with none. */
  lemma SpacedKey(blanks: string, key: string, literal: string, rest: string)
    requires Blanks(blanks) && Spells(key, literal) && literal != "" && !IsSpace(literal[0])
    ensures AfterLiteral(SkipSpaces(blanks + (key + rest)), literal) == Some(rest)
  {
    assert !IsSpace(key[0]);
    SpacesSkipped(blanks, key + rest);
    AfterSpelled(key, literal, rest);
  }

  lemma SpacedSplit(s: string, literal: string) returns (blanks: string, key: string)
    requires AfterLiteral(SkipSpaces(s), literal).Some?
    ensures Blanks(blanks) && Spells(key, literal)
    ensures s == blanks + (key + AfterLiteral(SkipSpaces(s), literal).value)
  {
    blanks := SpaceSplit(s);
    key := AfterSplit(SkipSpaces(s), literal);
  }

  lemma ParameterReads(p: Parameter, literal: string, rest: string)
    requires IsParameter(p, literal) && literal != "" && !IsSpace(literal[0])
    ensures AfterParameter(ParameterText(p, rest), literal) == Some(p.value + rest)
  {
    var s := p.blanks + (p.key + (p.value + rest));
    assert ParameterText(p, rest)[1..] == s;
    SpacedKey(p.blanks, p.key, literal, p.value + rest);
  }

  lemma ParameterSplit(s: string, literal: string) returns (blanks: string, key: string)
    requires AfterParameter(s, literal).Some?
    ensures Blanks(blanks) && Spells(key, literal)
    ensures s == ";" + (blanks + (key + AfterParameter(s, literal).value))
  {
    blanks, key := SpacedSplit(s[1..], literal);
    assert s == ";" + s[1..];
  }

  lemma {:induction false} WordSkipped(word: string, rest: string)
    requires (forall i | 0 <= i < |word| :: !IsSpace(word[i])) && (rest == "" || IsSpace(rest[0]))
    ensures SkipNonSpace(word + rest) == rest
  {
    if word == "" {
      assert word + rest == rest;
    } else {
      assert (word + rest)[1..] == word[1..] + rest;
      WordSkipped(word[1..], rest);
    }
  }

  lemma {:induction false} WordSplit(s: string) returns (word: string)
    ensures (forall i | 0 <= i < |word| :: !IsSpace(word[i])) && s == word + SkipNonSpace(s)
    ensures s != "" && !IsSpace(s[0]) ==> word != ""
  {
    if s != "" && !IsSpace(s[0]) {
      word := WordSplit(s[1..]);
      word := [s[0]] + word;
      assert s == [s[0]] + s[1..];
    } else {
      word := "";
    }
  }

  lemma OnlyBlanks(s: string)
    ensures SkipSpaces(s) == "" <==> Blanks(s)
  {
    if Blanks(s) {
      SpacesSkipped(s, "");
      assert s + "" == s;
    } else {
      var gap := SpaceSplit(s);
      assert gap + "" == gap;
    }
  }

  // ---------- The end of a line ----------

  lemma EndReads(extended: Option<Parameter>, end: string)
    requires IsEnd(extended, end)
    ensures ExtendedNameTail(EndText(extended, end))
  {
    OnlyBlanks(end);
    if extended.Some? {
      var p := extended.value;
      ParameterReads(p, "filename*=", end);
      WordSkipped(p.value, end);
      assert (p.value + end)[0] == p.value[0];
    }
  }

  lemma EndSplit(s: string) returns (extended: Option<Parameter>, end: string)
    requires ExtendedNameTail(s)
    ensures IsEnd(extended, end) && EndText(extended, end) == s
  {
    OnlyBlanks(s);
    if Blanks(s) {
      return None, s;
    }
    var u := AfterParameter(s, "filename*=").value;
    var blanks, key := ParameterSplit(s, "filename*=");
    var word := WordSplit(u);
    end := SkipNonSpace(u);
    OnlyBlanks(end);
    extended := Some(Parameter(blanks, key, word));
  }

  // ---------- The filename ----------

  /** A filename of `j` characters could end at its quote. */
  predicate FilenameAt(u: string, j: nat) {
    j < |u| && u[j] == '"' && LineText(u[..j]) && ExtendedNameTail(u[j + 1..])
  }

  /** The search finds the first quote that can close the filename. */
  lemma {:induction false} FirstFilename(u: string, i: nat)
    requires i <= |u| && LineText(u[..i]) && forall j | 0 <= j < i :: !FilenameAt(u, j)
    ensures match QuotedFilename(u, i)
            case None => forall j: nat :: !FilenameAt(u, j)
            case Some(v) => FilenameAt(u, |v|) && v == u[..|v|] && forall j | 0 <= j < |v| :: !FilenameAt(u, j)
    decreases |u| - i
  {
    if i < |u| {
      assert u[..i + 1] == u[..i] + [u[i]];
      if u[i] == '\r' || u[i] == '\n' {
        assert forall j | i < j < |u| :: u[i] in u[..j] by {
          assert forall j | i < j < |u| :: u[..j][i] == u[i];
        }
      } else if !FilenameAt(u, i) {
        FirstFilename(u, i + 1);
      }
    }
  }

  lemma FilenameReads(t: Tail)
    requires IsTail(t) && t.filename.Some?
    ensures var u := AfterParameter(TailText(t), "filename=\"");
            u.Some? && FilenameAt(u.value, |Filename(t)|) && Filename(t) <= u.value
  {
    var p, end := t.filename.value, EndText(t.extended, t.end);
    ParameterReads(p, "filename=\"", "\"" + end);
    EndReads(t.extended, t.end);
    var u := p.value + ("\"" + end);
    assert u[..|p.value|] == p.value && u[|p.value| + 1..] == end;
  }

  lemma TailReads(t: Tail)
    requires IsTail(t)
    ensures FilenameTail(TailText(t)).Some?
  {
    EndReads(t.extended, t.end);
    if t.filename.Some? {
      FilenameReads(t);
      FirstFilename(AfterParameter(TailText(t), "filename=\"").value, 0);
    }
  }

  /** The filename after its key, if it is closed by a quote. */
  ghost function FilenameIn(s: string): Option<string> {
    match AfterParameter(s, "filename=\"")
    case None => None
    case Some(u) => QuotedFilename(u, 0)
  }

  lemma FilenameSplit(s: string) returns (t: Tail)
    requires FilenameIn(s).Some?
    ensures IsTail(t) && TailText(t) == s && t.filename.Some? && Filename(t) == FilenameIn(s).value
  {
    hide FilenameTail, QuotedFilename, ExtendedNameTail, AfterParameter;
    var u, v := AfterParameter(s, "filename=\"").value, FilenameIn(s).value;
    FirstFilename(u, 0);
    var blanks, key := ParameterSplit(s, "filename=\"");
    var extended, end := EndSplit(u[|v| + 1..]);
    t := Tail(Some(Parameter(blanks, key, v)), extended, end);
    assert u == v + ("\"" + u[|v| + 1..]);
  }

  /** No way to read the tail gives a shorter filename. */
  lemma ShortestFilename(t: Tail)
    requires IsTail(t) && t.filename.Some?
    ensures FilenameIn(TailText(t)).Some? && |FilenameIn(TailText(t)).value| <= |Filename(t)|
  {
    hide IsTail, TailText, ExtendedNameTail, AfterParameter, QuotedFilename;
    FilenameReads(t);
    FirstFilename(AfterParameter(TailText(t), "filename=\"").value, 0);
  }

  lemma TailSplit(s: string) returns (t: Tail)
    requires FilenameTail(s).Some?
    ensures IsTail(t) && TailText(t) == s && Filename(t) == FilenameTail(s).value
    ensures forall b | IsTail(b) && TailText(b) == s :: TailPreferred(t, b)
  {
    hide ExtendedNameTail, AfterParameter, QuotedFilename;
    if FilenameIn(s).Some? {
      t := FilenameSplit(s);
    } else {
      var extended, end := EndSplit(s);
      t := Tail(None, extended, end);
    }
    hide IsTail, TailText;
    forall b | IsTail(b) && TailText(b) == s ensures TailPreferred(t, b) {
      if b.filename.Some? {
        ShortestFilename(b);
      }
    }
  }

  // ---------- The name ----------

  predicate NameAt(r: string, j: nat) {
    j < |r| && r[j] == '"' && LineText(r[..j]) && FilenameTail(r[j + 1..]).Some?
  }

  lemma {:induction false} FirstName(r: string, i: nat)
    requires i <= |r| && LineText(r[..i]) && forall j | 0 <= j < i :: !NameAt(r, j)
    ensures match QuotedName(r, i)
            case None => forall j: nat :: !NameAt(r, j)
            case Some((n, f)) =>
              && NameAt(r, |n|) && n == r[..|n|] && FilenameTail(r[|n| + 1..]) == Some(f)
              && forall j | 0 <= j < |n| :: !NameAt(r, j)
    decreases |r| - i
  {
    hide FilenameTail;
    if i < |r| {
      assert r[..i + 1] == r[..i] + [r[i]];
      if r[i] == '\r' || r[i] == '\n' {
        assert forall j | i < j < |r| :: r[i] in r[..j] by {
          assert forall j | i < j < |r| :: r[..j][i] == r[i];
        }
      } else if !NameAt(r, i) {
        FirstName(r, i + 1);
      }
    }
  }

  // ---------- The line ----------

  /** What is searched for the end of the name. */
  function Quoted(l: Line): string {
    l.name + ("\"" + TailText(l.tail))
  }

  ghost predicate SearchedIn(r: string, line: string) {
    var a := AfterLiteral(line, "Content-Disposition:");
    a.Some? &&
    var b := AfterLiteral(SkipSpaces(a.value), "form-data;");
    b.Some? && AfterLiteral(SkipSpaces(b.value), "name=\"") == Some(r)
  }

  lemma LineReads(l: Line)
    requires IsLine(l)
    ensures SearchedIn(Quoted(l), LineOf(l))
    ensures NameAt(Quoted(l), |l.name|)
    ensures Quoted(l)[..|l.name|] == l.name && Quoted(l)[|l.name| + 1..] == TailText(l.tail)
  {
    hide IsTail, TailText, FilenameTail, QuotedName;
    var r := Quoted(l);
    var b := l.space + (l.key + r);
    AfterSpelled(l.field, "Content-Disposition:", l.gap + (l.kind + b));
    SpacedKey(l.gap, l.kind, "form-data;", b);
    SpacedKey(l.space, l.key, "name=\"", r);
    assert r[..|l.name|] == l.name && r[|l.name| + 1..] == TailText(l.tail);
    TailReads(l.tail);
  }

  lemma HeadSplit(line: string, r: string) returns (l: Line)
    requires SearchedIn(r, line)
    ensures Spells(l.field, "Content-Disposition:") && Blanks(l.gap) && Spells(l.kind, "form-data;") && Blanks(l.space)
    ensures Spells(l.key, "name=\"") && line == l.field + (l.gap + (l.kind + (l.space + (l.key + r))))
  {
    hide AfterLiteral, SkipSpaces, Spells, Blanks;
    var a := AfterLiteral(line, "Content-Disposition:").value;
    var field := AfterSplit(line, "Content-Disposition:");
    var gap, kind := SpacedSplit(a, "form-data;");
    var b := AfterLiteral(SkipSpaces(a), "form-data;").value;
    var space, key := SpacedSplit(b, "name=\"");
    l := Line(field, gap, kind, space, key, "", Tail(None, None, ""));
  }

  lemma Searched(line: string) returns (r: string)
    requires MatchDisposition(line).Some?
    ensures SearchedIn(r, line) && MatchDisposition(line) == QuotedName(r, 0)
  {
    var a := AfterLiteral(line, "Content-Disposition:").value;
    var b := AfterLiteral(SkipSpaces(a), "form-data;").value;
    r := AfterLiteral(SkipSpaces(b), "name=\"").value;
  }

  /** A line that is read is a Content-Disposition line, read in the way that is preferred. */
  lemma LineSplit(line: string) returns (l: Line)
    requires MatchDisposition(line).Some?
    ensures IsLine(l) && LineOf(l) == line && MatchDisposition(line).value == (l.name, Filename(l.tail))
    ensures forall m | IsLine(m) && LineOf(m) == line :: Preferred(l, m)
  {
    hide MatchDisposition, FilenameTail, QuotedName, IsTail, TailText, TailPreferred, Filename, Spells, Blanks;
    var r := Searched(line);
    l := HeadSplit(line, r);
    FirstName(r, 0);
    var name := QuotedName(r, 0).value.0;
    var tail := TailSplit(r[|name| + 1..]);
    l := l.(name := name, tail := tail);
    assert r == name + ("\"" + r[|name| + 1..]);
    assert LineOf(l) == line;
    hide LineOf;
    forall m | IsLine(m) && LineOf(m) == line ensures Preferred(l, m) {
      LineReads(m);
    }
  }

  /**
   * The name and the filename that are read are those of the preferred way to write the line as the expression
   * asks; when there is no way, nothing is read.
   */
  lemma DispositionIff(line: string, name: string, filename: string)
    ensures MatchDisposition(line) == Some((name, filename)) <==>
            exists l :: && IsLine(l) && LineOf(l) == line && l.name == name && Filename(l.tail) == filename
                        && forall m | IsLine(m) && LineOf(m) == line :: Preferred(l, m)
    ensures MatchDisposition(line).Some? <==> exists l :: IsLine(l) && LineOf(l) == line
  {
    hide LineOf, IsLine, Filename, Preferred;
    if MatchDisposition(line).Some? {
      var l := LineSplit(line);
      forall m | IsLine(m) && LineOf(m) == line && Preferred(m, l)
        ensures m.name == l.name && Filename(m.tail) == Filename(l.tail)
      {
        SameReading(l, m);
      }
    } else {
      forall l | IsLine(l) ensures LineOf(l) != line {
        LineReads(l);
        FirstName(Quoted(l), 0);
      }
    }
  }

  lemma SameReading(l: Line, m: Line)
    requires IsLine(l) && IsLine(m) && LineOf(l) == LineOf(m) && Preferred(l, m) && Preferred(m, l)
    ensures l.name == m.name && Filename(l.tail) == Filename(m.tail)
  {
    hide LineOf;
    LineReads(l);
    LineReads(m);
    if l.tail.filename.Some? {
      FilenameReads(l.tail);
      FilenameReads(m.tail);
    }
  }
}
