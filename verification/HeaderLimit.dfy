/** The limit on header lines when a body arrives in several `parse` calls: which calls refuse it, for any body. */
module HeaderLimit {
  import opened Multipart
  import opened Text

  /** What is compared with the limit: the length of the first line, or of all there is when it has no end. */
  predicate TooLong(s: string) {
    Find(s, CRLF) > HEADER_MAX_LENGTH
  }

  /** Draining `c` comes to a header line that is too long where the length is checked. */
  predicate Trips(c: Conf, env: Env)
    decreases |c.buf|, c.phase == NewEntry
  {
    && !Idle(c)
    && ((c.phase == Headers(false) && TooLong(c.buf)) ||
        match Step(c, env)
        case Stop(_, _, _) => false
        case Next(c', _) => Trips(c', env))
  }

  /** Nothing follows the closing delimiter. */
  predicate Closes(c: Conf, env: Env)
    decreases |c.buf|, c.phase == NewEntry
  {
    Idle(c) ||
    (&& (c.phase.Boundary? && DASH_CRLF <= c.buf ==> |c.buf| == 4)
     && match Step(c, env)
        case Stop(_, _, _) => true
        case Next(c', _) => Closes(c', env))
  }

  /** A call that finds the parser at `c` in the middle of the header and adds `b` finds a line that is too long. */
  predicate Late(c: Conf, b: string) {
    c.phase.Headers? && c.buf + b != "" && TooLong(c.buf + b)
  }

  lemma {:induction false} TripsRefuses(c: Conf, env: Env)
    requires Trips(c, env)
    ensures !Drain(c, env).ok
    decreases |c.buf|, c.phase == NewEntry
  {
    if !(c.phase == Headers(false) && TooLong(c.buf)) {
      TripsRefuses(Step(c, env).conf, env);
    }
  }

  /** One turn of the loop that does not trip. */
  lemma TripsNext(c: Conf, env: Env)
    requires !Idle(c) && Step(c, env).Next?
    ensures Trips(c, env) <==> Trips(Step(c, env).conf, env)
  {
  }

  lemma {:induction false} ClosesPrefix(c: Conf, b: string, env: Env)
    requires PastOpening(c, env) && Closes(Append(c, b), env)
    ensures Closes(c, env)
    decreases |c.buf|, c.phase == NewEntry
  {
    hide Step;
    if !Idle(c) {
      ClosingLast(c, b, env);
      if Step(c, env).Next? {
        StepStable(c, b, env);
        StepShrinks(c, env);
        PreamblePassed(c, env);
        ClosesPrefix(Step(c, env).conf, b, env);
      }
    }
  }

  lemma PreamblePassed(c: Conf, env: Env)
    requires Step(c, env).Next?
    ensures !Step(c, env).conf.phase.Preamble?
  {
  }

  lemma ClosingLast(c: Conf, b: string, env: Env)
    requires !Idle(c) && Closes(Append(c, b), env)
    ensures c.phase.Boundary? && DASH_CRLF <= c.buf ==> b == "" && |c.buf| == 4
    ensures Step(Append(c, b), env).Next? ==> Closes(Step(Append(c, b), env).conf, env)
  {
    if c.phase.Boundary? && DASH_CRLF <= c.buf {
      assert DASH_CRLF <= c.buf + b;
    }
  }

  /** A call on `c` and a call on `b` against one call on both: the second refuses if one call would, or if it is
      late; otherwise both ways end in the same state and deliver the same. */
  ghost predicate Continues(c: Conf, b: string, env: Env, parts: seq<Part>) {
    var r, whole := Drain(c, env), Drain(Append(c, b), env);
    r.ok ==>
      var s := Drain(Append(r.conf, b), env);
      && !r.conf.phase.Preamble?
      && (Trips(Append(r.conf, b), env) <==> Trips(Append(c, b), env) || Late(r.conf, b))
      && (!Late(r.conf, b) ==>
            && whole.ok == s.ok && whole.conf == s.conf
            && Collect(parts, whole.events) == Collect(Collect(parts, r.events), s.events))
  }

  lemma ContinueNext(c: Conf, b: string, env: Env, parts: seq<Part>)
    requires !Idle(c) && Step(c, env).Next? && Extends(Step(c, env), Step(Append(c, b), env), b)
    requires Continues(Step(c, env).conf, b, env, Collect(parts, Step(c, env).events))
    ensures Continues(c, b, env, parts)
  {
    hide Late;
    var s := Step(c, env);
    var r, whole := Drain(s.conf, env), Drain(Append(s.conf, b), env);
    TripsNext(Append(c, b), env);
    CollectConcat(parts, s.events, r.events);
    CollectConcat(parts, s.events, whole.events);
  }

  lemma ContinueSame(c: Conf, b: string, env: Env, parts: seq<Part>)
    requires Drain(c, env) == Run(true, c, []) && !c.phase.Preamble? && !Trips(c, env)
    requires c.phase.Headers? ==> c.phase == Headers(false)
    ensures Continues(c, b, env, parts)
  {
  }

  lemma ContinueIdle(c: Conf, b: string, env: Env, parts: seq<Part>)
    requires Idle(c) && !c.phase.Preamble?
    ensures Continues(c, b, env, parts)
  {
    ContinueSame(c, b, env, parts);
  }

  /** Stopped in the middle of a header line: the next call looks at the whole line again. */
  lemma ContinueHeaders(c: Conf, b: string, env: Env, parts: seq<Part>)
    requires c.phase.Headers? && !Idle(c) && Step(c, env).Stop? && !Trips(c, env)
    ensures Continues(c, b, env, parts)
  {
    DrainStop(c, env);
    if Find(c.buf, CRLF) == |c.buf| {
      LineGoesOn(c, b, env);
    }
  }

  lemma LineGoesOn(c: Conf, b: string, env: Env)
    requires c.phase.Headers? && Find(c.buf, CRLF) == |c.buf|
    ensures var again := Append(c.(phase := Headers(false)), b);
            && (Trips(again, env) <==> Trips(Append(c, b), env) || Late(again.(buf := c.buf), b))
            && (!Late(again.(buf := c.buf), b) ==> Drain(again, env) == Drain(Append(c, b), env))
  {
    var again := Append(c.(phase := Headers(false)), b);
    if c.buf + b == "" {
      assert Find("", CRLF) == 0;
    } else if !TooLong(c.buf + b) {
      assert Step(again, env) == Step(Append(c, b), env);
    }
  }

  lemma ContinueBody(c: Conf, b: string, env: Env, parts: seq<Part>)
    requires AcceptsAll(env) && c.phase.Body? && !Idle(c) && Step(c, env).Stop?
    ensures Continues(c, b, env, parts)
  {
    DrainStop(c, env);
    if |c.buf| > |env.delimiter| {
      var len := |c.buf| - |env.delimiter|;
      var x, y := c.buf[..len], c.buf[len..] + b;
      assert c.buf == x + c.buf[len..];
      Assoc(x, c.buf[len..], b);
      NoEarlyDelimiter(c.buf, b, env.delimiter);
      BodyPrefix(Append(c, b), x, y, env, parts);
      BodyTrips(Append(c, b), x, y, env);
      assert Step(c, env) == Stop(true, c.(buf := c.buf[len..]), [Content(x)]);
      assert Collect(parts, [Content(x)]) == Apply(parts, Content(x));
    } else {
      ContinueSame(c, b, env, parts);
    }
  }

  /** Content that is delivered early has nothing to do with header lines. */
  lemma BodyTrips(c: Conf, x: string, y: string, env: Env)
    requires AcceptsAll(env) && c.phase.Body? && c.buf == x + y && |y| >= |env.delimiter| && x != ""
    requires forall i | 0 <= i < |x| :: !OccursAt(x + y, env.delimiter, i)
    ensures Trips(c, env) <==> Trips(c.(buf := y), env)
  {
    FindShifted(x, y, env.delimiter);
    var z := StepBodyPrefix(c, x, y, env);
  }

  lemma ContinueStop(c: Conf, b: string, env: Env, parts: seq<Part>)
    requires AcceptsAll(env) && PastOpening(c, env)
    requires !Idle(c) && Step(c, env).Stop? && !Trips(c, env)
    ensures Continues(c, b, env, parts)
  {
    match c.phase
    case Preamble =>
      FindSpec(c.buf, env.opening);
      assert false;
    case NewEntry =>
    case Headers(_) => ContinueHeaders(c, b, env, parts);
    case Body => ContinueBody(c, b, env, parts);
    case Boundary =>
      DrainStop(c, env);
      ContinueSame(c, b, env, parts);
  }

  /** For every body that ends with its closing delimiter. */
  lemma {:induction false} Continue(c: Conf, b: string, env: Env, parts: seq<Part>)
    requires AcceptsAll(env) && PastOpening(c, env) && Closes(Append(c, b), env) && !Trips(c, env)
    ensures Continues(c, b, env, parts)
    decreases |c.buf|, c.phase == NewEntry
  {
    hide Step, Continues;
    if Idle(c) {
      ContinueIdle(c, b, env, parts);
    } else if Step(c, env).Next? {
      ClosingLast(c, b, env);
      StepStable(c, b, env);
      StepShrinks(c, env);
      PreamblePassed(c, env);
      TripsNext(c, env);
      Continue(Step(c, env).conf, b, env, Collect(parts, Step(c, env).events));
      ContinueNext(c, b, env, parts);
    } else {
      ContinueStop(c, b, env, parts);
    }
  }

  // ---------- A sequence of calls ----------

  function Received(pieces: seq<string>, k: nat): string
    requires k <= |pieces|
  {
    Join(pieces[..k])
  }

  /** All that has been received by the end of call `k`, in one call. */
  function AtOnce(pieces: seq<string>, k: nat, env: Env): Run
    requires k <= |pieces|
  {
    Drain(Append(Initial, Received(pieces, k)), env)
  }

  /** Call `k` is refused for the length of a header line. */
  predicate CallTrips(pieces: seq<string>, k: nat, env: Env)
    requires k < |pieces|
  {
    Trips(Append(Initial, Received(pieces, k + 1)), env) || Late(AtOnce(pieces, k, env).conf, pieces[k])
  }

  /** What is received begins with the opening delimiter, from the first call that brings anything; up to a long
      header line all of it is well formed; and nothing follows the closing delimiter. */
  ghost predicate WellFormed(pieces: seq<string>, k: nat, env: Env)
    requires k <= |pieces|
  {
    var c := Append(Initial, Received(pieces, k));
    c.buf == "" || (PastOpening(c, env) && Closes(c, env) && (Trips(c, env) || Drain(c, env).ok))
  }

  lemma {:induction false} JoinMore(pieces: seq<string>, last: string)
    ensures Join(pieces + [last]) == Join(pieces) + last
  {
    if pieces == [] {
      assert [last][1..] == [] && Join([]) == "";
      assert pieces + [last] == [last];
      assert last + "" == "" + last;
    } else {
      assert (pieces + [last])[1..] == pieces[1..] + [last];
      JoinMore(pieces[1..], last);
      Assoc(pieces[0], Join(pieces[1..]), last);
    }
  }

  lemma {:induction false} ParseMore(c: Conf, pieces: seq<string>, last: string, env: Env)
    ensures var p, q := ParsePieces(c, pieces, env), ParsePieces(c, pieces + [last], env);
            if !p.ok then !q.ok
            else var s := Drain(Append(p.conf, last), env); q == s.(events := p.events + s.events)
    decreases |pieces|
  {
    hide Drain;
    if pieces == [] {
      assert (pieces + [last])[1..] == [];
      var s := Drain(Append(c, last), env).events;
      assert s + [] == s && [] + s == s;
    } else {
      assert (pieces + [last])[0] == pieces[0] && (pieces + [last])[1..] == pieces[1..] + [last];
      var r := Drain(Append(c, pieces[0]), env);
      if r.ok {
        ParseMore(r.conf, pieces[1..], last, env);
        var p := ParsePieces(r.conf, pieces[1..], env);
        if p.ok {
          AssocEvents(r.events, p.events, Drain(Append(p.conf, last), env).events);
        }
      }
    }
  }

  lemma AssocEvents(a: seq<Event>, b: seq<Event>, c: seq<Event>)
    ensures a + (b + c) == a + b + c
  {
  }

  lemma ReceivedMore(pieces: seq<string>, k: nat)
    requires k < |pieces|
    ensures Received(pieces, k + 1) == Received(pieces, k) + pieces[k]
  {
    assert pieces[..k + 1] == pieces[..k] + [pieces[k]];
    JoinMore(pieces[..k], pieces[k]);
  }

  /** One more call, from the state that one call on everything before leaves. */
  lemma OneMoreCall(pieces: seq<string>, k: nat, env: Env)
    requires AcceptsAll(env) && k < |pieces| && WellFormed(pieces, k, env) && WellFormed(pieces, k + 1, env)
    requires AtOnce(pieces, k, env).ok
    ensures var r, s := AtOnce(pieces, k, env), Drain(Append(AtOnce(pieces, k, env).conf, pieces[k]), env);
            var whole := AtOnce(pieces, k + 1, env);
            && (s.ok <==> !CallTrips(pieces, k, env))
            && (s.ok ==> whole.ok && whole.conf == s.conf
                         && Collect([], whole.events) == Collect(Collect([], r.events), s.events))
  {
    var c, b := Append(Initial, Received(pieces, k)), pieces[k];
    ReceivedMore(pieces, k);
    if c.buf == "" {
      FirstCall(pieces, k, env);
    } else {
      assert Append(c, b) == Append(Initial, Received(pieces, k + 1));
      NotTripped(c, env);
      SomethingReceived(c, b, env);
      Continue(c, b, env, []);
      SecondCall(c, b, env);
    }
  }

  lemma FirstCall(pieces: seq<string>, k: nat, env: Env)
    requires k < |pieces| && Received(pieces, k) == "" && WellFormed(pieces, k + 1, env)
    ensures AtOnce(pieces, k, env) == Run(true, Initial, [])
    ensures var s := Drain(Append(Initial, pieces[k]), env);
            s == AtOnce(pieces, k + 1, env) && (s.ok <==> !CallTrips(pieces, k, env))
  {
    hide Drain, Trips, Closes, PastOpening;
    ReceivedMore(pieces, k);
    NothingYet(env);
    var c := Append(Initial, Received(pieces, k + 1));
    assert c == Append(Initial, pieces[k]);
    if Trips(c, env) {
      TripsRefuses(c, env);
    }
  }

  lemma NothingYet(env: Env)
    ensures Append(Initial, "") == Initial && Drain(Initial, env) == Run(true, Initial, []) && !Trips(Initial, env)
  {
  }

  lemma SomethingReceived(c: Conf, b: string, env: Env)
    requires c.buf != ""
    ensures Append(c, b).buf != ""
  {
  }

  lemma SecondCall(c: Conf, b: string, env: Env)
    requires Drain(c, env).ok && Continues(c, b, env, []) && (Trips(Append(c, b), env) || Drain(Append(c, b), env).ok)
    ensures var r, whole := Drain(c, env), Drain(Append(c, b), env);
            var s := Drain(Append(r.conf, b), env);
            && (s.ok <==> !Trips(Append(c, b), env) && !Late(r.conf, b))
            && (s.ok ==> whole.ok && whole.conf == s.conf
                         && Collect([], whole.events) == Collect(Collect([], r.events), s.events))
  {
    hide Drain, Trips, Late, Collect;
    var again := Append(Drain(c, env).conf, b);
    if Trips(again, env) {
      TripsRefuses(again, env);
    }
    if Trips(Append(c, b), env) {
      TripsRefuses(Append(c, b), env);
    }
  }

  lemma NotTripped(c: Conf, env: Env)
    requires Drain(c, env).ok
    ensures !Trips(c, env)
  {
    if Trips(c, env) {
      TripsRefuses(c, env);
    }
  }

  /** A sequence of calls succeeds exactly when none of them comes to a header line that is too long where it
      looks, and then leaves the parser, and delivers, what one call on everything would. */
  lemma {:induction false} Calls(pieces: seq<string>, n: nat, env: Env)
    requires AcceptsAll(env) && n <= |pieces| && forall k | 0 <= k <= n :: WellFormed(pieces, k, env)
    ensures var p, whole := ParsePieces(Initial, pieces[..n], env), AtOnce(pieces, n, env);
            && (p.ok <==> forall k | 0 <= k < n :: !CallTrips(pieces, k, env))
            && (p.ok ==> whole.ok && p.conf == whole.conf && Collect([], p.events) == Collect([], whole.events))
  {
    hide Drain, WellFormed, CallTrips, Collect;
    if n == 0 {
      NoCalls(pieces, env);
    } else {
      Calls(pieces, n - 1, env);
      assert pieces[..n] == pieces[..n - 1] + [pieces[n - 1]];
      ParseMore(Initial, pieces[..n - 1], pieces[n - 1], env);
      var p := ParsePieces(Initial, pieces[..n - 1], env);
      if p.ok {
        OneMoreCall(pieces, n - 1, env);
        CollectConcat([], p.events, Drain(Append(p.conf, pieces[n - 1]), env).events);
      }
    }
  }

  lemma NoCalls(pieces: seq<string>, env: Env)
    ensures ParsePieces(Initial, pieces[..0], env) == AtOnce(pieces, 0, env) == Run(true, Initial, [])
  {
    assert pieces[..0] == [];
  }
}
