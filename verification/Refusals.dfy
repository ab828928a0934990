/** What the multipart parser does when a callback of the caller refuses what it is given. */
module Refusals {
  import opened Multipart
  import opened Text

  function Accepting(env: Env): Env {
    env.(accept := (e: Event) => true)
  }

  ghost predicate AllAccepted(events: seq<Event>, env: Env) {
    forall i | 0 <= i < |events| :: env.accept(events[i])
  }

  /**
   * How a run stands to the run in which every callback accepts. Either all have, and it is that run; or the last
   * callback has refused, all before it have accepted, and the run ends there, as failed and not valid, having
   * made the same callbacks.
   */
  ghost predicate Obeys(r: Run, all: Run, env: Env) {
    if AllAccepted(r.events, env) then r == all
    else
      && !r.ok && !r.conf.valid && r.events <= all.events
      && AllAccepted(r.events[..|r.events| - 1], env) && !env.accept(r.events[|r.events| - 1])
  }

  lemma StepObeys(c: Conf, env: Env)
    requires !Idle(c)
    ensures var s, t := Step(c, env), Step(c, Accepting(env));
            if AllAccepted(s.events, env) then s == t
            else |s.events| == 1 && s.events == t.events && s.Stop? && !s.ok && !s.conf.valid
  {
    var events := Step(c, env).events;
    if |events| == 1 {
      assert AllAccepted(events, env) <==> env.accept(events[0]);
    }
  }

  lemma ObeysJoined(first: seq<Event>, r: Run, all: Run, env: Env)
    requires AllAccepted(first, env) && Obeys(r, all, env)
    ensures Obeys(r.(events := first + r.events), all.(events := first + all.events), env)
  {
    var events := first + r.events;
    if AllAccepted(r.events, env) {
      assert AllAccepted(events, env);
    } else {
      assert events[|events| - 1] == r.events[|r.events| - 1];
      assert !AllAccepted(events, env);
      assert events[..|events| - 1] == first + r.events[..|r.events| - 1];
    }
  }

  /** One call. */
  lemma {:induction false} DrainObeys(c: Conf, env: Env)
    ensures Obeys(Drain(c, env), Drain(c, Accepting(env)), env)
    decreases |c.buf|, c.phase == NewEntry
  {
    if !Idle(c) {
      hide Step;
      StepObeys(c, env);
      var s := Step(c, env);
      if s.Next? {
        StepShrinks(c, env);
        DrainObeys(s.conf, env);
        ObeysJoined(s.events, Drain(s.conf, env), Drain(s.conf, Accepting(env)), env);
      } else {
        DrainStop(c, env);
        StopObeys(c, env);
      }
    }
  }

  lemma StopObeys(c: Conf, env: Env)
    requires !Idle(c) && Step(c, env).Stop?
    ensures var s := Step(c, env); Obeys(Run(s.ok, s.conf, s.events), Drain(c, Accepting(env)), env)
  {
    StepObeys(c, env);
    var s, t := Step(c, env), Step(c, Accepting(env));
    if !AllAccepted(s.events, env) {
      assert s.events[..0] == [];
      assert t.events <= Drain(c, Accepting(env)).events;
    }
  }

  /** A sequence of calls, which the caller ends when one fails. */
  lemma {:induction false} PiecesObey(c: Conf, pieces: seq<string>, env: Env)
    ensures Obeys(ParsePieces(c, pieces, env), ParsePieces(c, pieces, Accepting(env)), env)
    decreases |pieces|
  {
    if pieces != [] {
      hide Drain;
      var c0 := Append(c, pieces[0]);
      var r, all := Drain(c0, env), Drain(c0, Accepting(env));
      DrainObeys(c0, env);
      if AllAccepted(r.events, env) && r.ok {
        PiecesObey(r.conf, pieces[1..], env);
        ObeysJoined(r.events, ParsePieces(r.conf, pieces[1..], env), ParsePieces(r.conf, pieces[1..], Accepting(env)),
                    env);
      } else if !AllAccepted(r.events, env) {
        assert all.events <= ParsePieces(c, pieces, Accepting(env)).events;
      }
    }
  }

  // ---------- Failed and not valid ----------

  /** A call that fails leaves a form that is not valid, unless it fails over the length of a header line. */
  ghost predicate NotValidAfter(r: Run) {
    !r.ok && r.conf.valid ==> r.conf.phase.Headers? && Find(r.conf.buf, CRLF) > HEADER_MAX_LENGTH
  }

  lemma {:induction false} FailsNotValid(c: Conf, env: Env)
    ensures NotValidAfter(Drain(c, env))
    ensures Drain(c, env).conf.phase != Headers(true)
    decreases |c.buf|, c.phase == NewEntry
  {
    if !Idle(c) && Step(c, env).Next? {
      StepShrinks(c, env);
      FailsNotValid(Step(c, env).conf, env);
    } else if !Idle(c) && c.phase.Preamble? {
      FindSpec(c.buf, env.opening);
    }
  }

  lemma {:induction false} PiecesNotValid(c: Conf, pieces: seq<string>, env: Env)
    ensures NotValidAfter(ParsePieces(c, pieces, env))
    decreases |pieces|
  {
    if pieces != [] {
      var r := Drain(Append(c, pieces[0]), env);
      FailsNotValid(Append(c, pieces[0]), env);
      if r.ok {
        PiecesNotValid(r.conf, pieces[1..], env);
      }
    }
  }

  // ---------- What the caller has collected ----------

  /** The parts of `a` are the first of those of `b`, the last of them perhaps with less content. */
  predicate PartOf(a: seq<Part>, b: seq<Part>) {
    && |a| <= |b| && (forall i | 0 <= i < |a| - 1 :: a[i] == b[i])
    && (a != [] ==> var last, there := a[|a| - 1], b[|a| - 1]; last.file == there.file && last.content <= there.content)
  }

  lemma {:induction false} CollectGrows(parts: seq<Part>, events: seq<Event>)
    ensures PartOf(parts, Collect(parts, events))
    decreases |events|
  {
    if events != [] {
      CollectGrows(Apply(parts, events[0]), events[1..]);
      ApplyGrows(parts, events[0]);
      PartOfTrans(parts, Apply(parts, events[0]), Collect(parts, events));
    }
  }

  lemma ApplyGrows(parts: seq<Part>, e: Event)
    ensures PartOf(parts, Apply(parts, e))
  {
  }

  lemma PartOfTrans(a: seq<Part>, b: seq<Part>, c: seq<Part>)
    requires PartOf(a, b) && PartOf(b, c)
    ensures PartOf(a, c)
  {
  }

  /** What has been collected when a callback refuses is a first part of what would have been without it. */
  lemma CollectedBeforeRefusal(c: Conf, pieces: seq<string>, env: Env, parts: seq<Part>)
    ensures PartOf(Collect(parts, ParsePieces(c, pieces, env).events),
                   Collect(parts, ParsePieces(c, pieces, Accepting(env)).events))
  {
    hide ParsePieces;
    PiecesObey(c, pieces, env);
    var a, b := ParsePieces(c, pieces, env).events, ParsePieces(c, pieces, Accepting(env)).events;
    assert a <= b;
    assert b == a + b[|a|..];
    CollectConcat(parts, a, b[|a|..]);
    CollectGrows(Collect(parts, a), b[|a|..]);
  }
}
