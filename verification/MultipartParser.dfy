/** `MultipartFormDataParser` itself: a growing buffer read between two indices and compacted on each call. */
module MultipartParser {
  import opened Machine
  import opened Text
  import opened Multipart

  class MultipartFormDataParser {
    const dashBoundaryCrlf: Delimiter
    const crlfDashBoundary: Delimiter
    const readHeader: (FileInfo, string) -> Option<FileInfo>

    var state: nat
    var isValid: bool
    var file: FileInfo

    var buf: string
    var spos: nat
    var epos: nat

    /** The callbacks made so far. */
    ghost var events: seq<Event>

    ghost predicate Valid()
      reads this
    {
      state <= 4 && spos <= epos <= |buf|
    }

    /** The bytes appended and not yet erased. */
    ghost function Unread(): string
      requires spos <= epos <= |buf|
      reads this
    {
      buf[spos..epos]
    }

    ghost function View(): Conf
      requires Valid()
      reads this
    {
      var phase := if state == 0 then Preamble else if state == 1 then NewEntry
                   else if state == 2 then Headers(false) else if state == 3 then Body else Boundary;
      Conf(phase, file, isValid, Unread())
    }

    ghost function Setting(accept: Event -> bool): Env {
      Env(dashBoundaryCrlf, crlfDashBoundary, accept, readHeader)
    }

    constructor (boundary: string)
      ensures Valid() && View() == Initial && events == []
      ensures forall accept :: Setting(accept) == EnvFor(boundary, accept)
    {
      dashBoundaryCrlf := "--" + boundary + CRLF;
      crlfDashBoundary := CRLF + "--" + boundary;
      readHeader := ParseHeader;
      state, isValid, file := 0, false, NoFile;
      buf := "";
      spos, epos := 0, 0;
      events := [];
    }

    function BufSize(): nat
      requires spos <= epos
      reads this
    {
      epos - spos
    }

    /** `s` occurs in the buffer at index `pos`. */
    method StartWith(pos: nat, s: string) returns (r: bool)
      requires Valid() && spos <= pos <= epos
      ensures r == OccursAt(Unread(), s, pos - spos)
    {
      if epos - pos < |s| {
        return false;
      }
      for i := 0 to |s|
        invariant forall k | 0 <= k < i :: buf[pos + k] == s[k]
      {
        if buf[i + pos] != s[i] {
          assert Unread()[pos - spos + i] != s[i];
          return false;
        }
      }
      forall k | 0 <= k < |s| ensures Unread()[pos - spos + k] == s[k] {
        assert buf[pos + k] == s[k];
      }
      r := true;
    }

    method BufFind(s: string) returns (r: nat)
      requires Valid() && s != ""
      ensures r == Find(Unread(), s)
    {
      var c := s[0];
      ghost var u := Unread();
      FindSpec(u, s);
      var off := spos;
      while off < epos
        invariant spos <= off <= epos
        invariant forall i | 0 <= i < off - spos :: !OccursAt(u, s, i)
      {
        var pos := off;
        while true
          invariant off <= pos <= epos
          invariant forall i | 0 <= i < pos - spos :: !OccursAt(u, s, i)
          decreases epos - pos
        {
          if pos == epos {
            FindUnique(u, s, |u|);
            return BufSize();
          }
          if buf[pos] == c {
            break;
          }
          assert u[pos - spos + 0] != s[0];
          pos := pos + 1;
        }
        if |s| > epos - pos {
          FindUnique(u, s, |u|);
          return BufSize();
        }
        var here := StartWith(pos, s);
        if here {
          FindUnique(u, s, pos - spos);
          return pos - spos;
        }
        off := pos + 1;
      }
      FindUnique(u, s, |u|);
      return BufSize();
    }

    method BufStartWith(s: string) returns (r: bool)
      requires Valid()
      ensures r == (s <= Unread())
    {
      r := StartWith(spos, s);
      if |s| <= |Unread()| {
        assert OccursAt(Unread(), s, 0) ==> Unread()[..|s|] == s by {
          if OccursAt(Unread(), s, 0) {
            assert forall k | 0 <= k < |s| :: Unread()[0 + k] == s[k];
          }
        }
      }
    }

    /** Moves the unread bytes to the front. */
    method BufCompact()
      requires Valid()
      modifies this`buf, this`spos, this`epos
      ensures Valid() && spos == 0 && Unread() == old(Unread())
    {
      ghost var u := Unread();
      var remaining := BufSize();
      if remaining > 0 && spos > 0 {
        for i := 0 to remaining
          invariant |buf| == |old(buf)| && spos == old(spos) && epos == old(epos)
          invariant forall k | 0 <= k < i :: buf[k] == u[k]
          invariant forall k | spos + i <= k < epos :: buf[k] == u[k - spos]
        {
          buf := buf[i := buf[spos + i]];
        }
      }
      assert forall k | 0 <= k < remaining :: buf[k] == u[k];
      spos := 0;
      epos := remaining;
    }

    /** Makes room at the front of the buffer when needed and adds the new bytes. */
    method BufAppend(data: string)
      requires Valid()
      modifies this`buf, this`spos, this`epos
      ensures Valid() && Unread() == old(Unread()) + data
    {
      BufCompact();
      ghost var u := Unread();
      if epos + |data| > |buf| {
        buf := buf + seq(epos + |data| - |buf|, _ => '\0');
      }
      assert u == buf[..epos];
      for i := 0 to |data|
        invariant spos == 0 && epos == |u| && epos + |data| <= |buf|
        invariant buf[..epos + i] == u + data[..i]
      {
        buf := buf[epos + i := data[i]];
        assert buf[..epos + i + 1] == u + data[..i + 1];
      }
      epos := epos + |data|;
      assert data[..|data|] == data;
    }

    method BufErase(size: nat)
      requires Valid() && size <= BufSize()
      modifies this`spos
      ensures Valid() && Unread() == old(Unread())[size..]
    {
      spos := spos + size;
      assert Unread() == old(Unread())[size..];
    }

    method InitialBoundary(ghost accept: Event -> bool) returns (go: bool, ok: bool)
      requires Valid() && state == 0 && BufSize() > 0
      modifies this`spos, this`state
      ensures Valid()
      ensures StepPreamble(old(View()), Setting(accept)) == if go then Next(View(), []) else Stop(ok, View(), [])
    {
      var pos := BufFind(dashBoundaryCrlf);
      BufErase(pos);
      if |dashBoundaryCrlf| > BufSize() {
        return false, true;
      }
      var opens := BufStartWith(dashBoundaryCrlf);
      if !opens {
        return false, false;
      }
      BufErase(|dashBoundaryCrlf|);
      state := 1;
      return true, true;
    }

    /** The empty line: the part is announced and its content begins. */
    method EndHeaders(accept: Event -> bool, ghost now: Conf) returns (go: bool, ghost ev: seq<Event>)
      requires Valid() && state == 2 && 0 == Find(Unread(), CRLF) < BufSize()
      requires now == View().(phase := now.phase) && now.phase.Headers?
      modifies this`spos, this`state, this`isValid, this`events
      ensures Valid() && state == (if go then 3 else 2) && events == old(events) + ev
              && (go ==> BufSize() < old(BufSize()))
      ensures StepHeaders(now, Setting(accept)) == if go then Next(View(), ev) else Stop(false, View(), ev)
    {
      ev := [Header(file)];
      events := events + ev;
      go := accept(Header(file));
      if !go {
        isValid := false;
        return;
      }
      BufErase(|CRLF|);
      state := 3;
    }

    method ReadHeader(pos: nat, ghost accept: Event -> bool, ghost now: Conf) returns (go: bool)
      requires Valid() && state == 2 && 0 < pos == Find(Unread(), CRLF) < BufSize()
      requires now == View().(phase := now.phase) && now.phase.Headers?
      requires now.phase.inLoop || pos <= HEADER_MAX_LENGTH
      modifies this`spos, this`file, this`isValid
      ensures Valid() && (go ==> BufSize() < old(BufSize()))
      ensures StepHeaders(now, Setting(accept)) ==
              if go then Next(View().(phase := Headers(true)), []) else Stop(false, View(), [])
    {
      var header := buf[spos..spos + pos];
      assert header == Unread()[..pos];
      match readHeader(file, header)
      case None =>
        isValid := false;
        return false;
      case Some(f) =>
        file := f;
        BufErase(pos + |CRLF|);
        return true;
    }

    /** One header line of length `pos`; `now` is where the machine stands in the header loop. */
    method ReadHeaderLine(pos: nat, accept: Event -> bool, ghost now: Conf)
      returns (go: bool, ok: bool, ghost ev: seq<Event>)
      requires Valid() && state == 2 && pos == Find(Unread(), CRLF) < BufSize()
      requires now == View().(phase := now.phase) && now.phase.Headers?
      requires now.phase.inLoop || pos <= HEADER_MAX_LENGTH
      modifies this`spos, this`state, this`file, this`isValid, this`events
      ensures Valid() && (state == 2 || state == 3) && events == old(events) + ev && (go ==> BufSize() < old(BufSize()))
      ensures StepHeaders(now, Setting(accept)) ==
              if !go then Stop(ok, View(), ev)
              else Next(if state == 3 then View() else View().(phase := Headers(true)), ev)
    {
      ev := [];
      if pos == 0 {
        go, ev := EndHeaders(accept, now);
      } else {
        go := ReadHeader(pos, accept, now);
      }
      ok := go;
    }

    /** Either the call ends here as it must, or it goes on from a smaller state. */
    twostate predicate Settled(go: bool, ok: bool, done: seq<Event>, ev: seq<Event>, target: Run, drain: Conf -> Run)
      requires Valid() && old(Valid())
      reads this
    {
      && events == old(events) + ev
      && if !go then target == Run(ok, View(), done + ev)
         else
           && Owes(View(), done + ev, target, drain)
           && (BufSize() < old(BufSize()) || (BufSize() == old(BufSize()) && old(state) == 1 != state))
    }

    /** A header line, and where the call then stands. */
    method HeaderTurn(pos: nat, accept: Event -> bool, ghost now: Conf,
                      ghost done: seq<Event>, ghost target: Run, ghost drain: Conf -> Run)
      returns (go: bool, ok: bool, ghost ev: seq<Event>, ghost next: Conf)
      requires Valid() && state == 2 && pos == Find(Unread(), CRLF) < BufSize()
      requires now == View().(phase := now.phase) && now.phase.Headers?
      requires now.phase.inLoop || pos <= HEADER_MAX_LENGTH
      requires IsDrain(drain, Setting(accept)) && Owes(now, done, target, drain)
      modifies this`spos, this`state, this`file, this`isValid, this`events
      ensures Valid() && (state == 2 || state == 3) && events == old(events) + ev && (go ==> BufSize() < old(BufSize()))
      ensures next == if state == 3 then View() else View().(phase := Headers(true))
      ensures if go then Owes(next, done + ev, target, drain) else target == Run(ok, View(), done + ev)
    {
      ghost var env := Setting(accept);
      go, ok, ev := ReadHeaderLine(pos, accept, now);
      next := if state == 3 then View() else View().(phase := Headers(true));
      if go {
        OwesNext(now, done, target, drain, env);
      } else {
        OwesStop(now, done, target, drain, env);
      }
    }

    lemma AssocEvents(a: seq<Event>, b: seq<Event>, c: seq<Event>)
      ensures a + b + c == a + (b + c)
    {
    }

    /** The loop over header lines, entered with the end of the first one. */
    method ReadHeaders(accept: Event -> bool, ghost done: seq<Event>, ghost target: Run, ghost drain: Conf -> Run)
      returns (go: bool, ok: bool, ghost ev: seq<Event>)
      requires Valid() && state == 2 && BufSize() > 0
      requires IsDrain(drain, Setting(accept)) && Owes(View(), done, target, drain)
      modifies this`spos, this`state, this`file, this`isValid, this`events
      ensures Valid()
      ensures Settled(go, ok, done, ev, target, drain)
    {
      ghost var env, now := Setting(accept), View();
      ev := [];
      var pos := BufFind(CRLF);
      assert done + [] == done;
      if pos > HEADER_MAX_LENGTH {
        OwesStop(now, done, target, drain, env);
        return false, false, [];
      }
      while pos < BufSize()
        invariant Valid() && state == 2 && events == old(events) + ev
        invariant now == View().(phase := now.phase) && now.phase.Headers?
        invariant now.phase.inLoop || (pos <= HEADER_MAX_LENGTH && BufSize() > 0)
        invariant pos == Find(Unread(), CRLF) && BufSize() <= old(BufSize())
        invariant Owes(now, done + ev, target, drain)
        decreases BufSize()
      {
        ghost var e;
        AssocEvents(old(events), ev, []);
        go, ok, e, now := HeaderTurn(pos, accept, now, done + ev, target, drain);
        AssocEvents(done, ev, e);
        AssocEvents(old(events), ev, e);
        ev := ev + e;
        if !go || state == 3 {
          return go, ok, ev;
        }
        pos := BufFind(CRLF);
      }
      HeadersEnd(now, done + ev, target, drain, env);
      return false, true, ev;
    }

    /** No whole line is left, so the call ends. */
    lemma HeadersEnd(now: Conf, done: seq<Event>, target: Run, drain: Conf -> Run, env: Env)
      requires now.phase.Headers? && Find(now.buf, CRLF) == |now.buf|
      requires now.phase.inLoop || (|now.buf| <= HEADER_MAX_LENGTH && now.buf != "")
      requires IsDrain(drain, env) && Owes(now, done, target, drain)
      ensures target == Run(true, now.(phase := Headers(false)), done)
    {
      OwesStop(now, done, target, drain, env);
      assert done + [] == done;
    }

    /** Hands the first `len` unread bytes to the content callback. */
    method Deliver(len: nat, accept: Event -> bool) returns (accepted: bool, ghost ev: seq<Event>)
      requires Valid() && len <= BufSize()
      modifies this`isValid, this`events
      ensures ev == [Content(Unread()[..len])] && events == old(events) + ev
      ensures accepted == accept(Content(Unread()[..len]))
      ensures isValid == (old(isValid) && accepted)
    {
      var data := buf[spos..spos + len];
      assert data == Unread()[..len];
      ev := [Content(data)];
      events := events + ev;
      accepted := accept(Content(data));
      if !accepted {
        isValid := false;
      }
    }

    method ReadBody(accept: Event -> bool) returns (go: bool, ok: bool, ghost ev: seq<Event>)
      requires Valid() && state == 3 && BufSize() > 0
      modifies this`spos, this`state, this`isValid, this`events
      ensures Valid() && events == old(events) + ev
      ensures StepBody(old(View()), Setting(accept)) == if go then Next(View(), ev) else Stop(ok, View(), ev)
    {
      if |crlfDashBoundary| > BufSize() {
        return false, true, [];
      }
      var pos := BufFind(crlfDashBoundary);
      if pos < BufSize() {
        ok, ev := Deliver(pos, accept);
        if !ok {
          return false, false, ev;
        }
        BufErase(pos + |crlfDashBoundary|);
        state := 4;
        return true, true, ev;
      } else {
        var len := BufSize() - |crlfDashBoundary|;
        if len > 0 {
          ok, ev := Deliver(len, accept);
          if !ok {
            return false, false, ev;
          }
          BufErase(len);
          return false, true, ev;
        }
        return false, true, [];
      }
    }

    method ReadBoundary() returns (go: bool, ok: bool)
      requires Valid() && state == 4 && BufSize() > 0
      modifies this`spos, this`state, this`isValid
      ensures Valid()
      ensures StepBoundary(old(View())) == if go then Next(View(), []) else Stop(ok, View(), [])
    {
      if |CRLF| > BufSize() {
        return false, true;
      }
      var separator := BufStartWith(CRLF);
      if separator {
        BufErase(|CRLF|);
        state := 1;
        return true, true;
      }
      if |DASH_CRLF| > BufSize() {
        return false, true;
      }
      var closing := BufStartWith(DASH_CRLF);
      if closing {
        BufErase(|DASH_CRLF|);
        isValid := true;
        BufErase(BufSize());
        return true, true;
      }
      return false, true;
    }

    method Turn(accept: Event -> bool, ghost done: seq<Event>, ghost target: Run, ghost drain: Conf -> Run)
      returns (go: bool, ok: bool, ghost ev: seq<Event>)
      requires Valid() && BufSize() > 0
      requires IsDrain(drain, Setting(accept)) && Owes(View(), done, target, drain)
      modifies this`spos, this`state, this`file, this`isValid, this`events
      ensures Valid()
      ensures Settled(go, ok, done, ev, target, drain)
    {
      ghost var env, before := Setting(accept), View();
      ev := [];
      if state == 2 {
        go, ok, ev := ReadHeaders(accept, done, target, drain);
      } else {
        if state == 0 {
          go, ok := InitialBoundary(accept);
        } else if state == 1 {
          file := NoFile;
          state := 2;
          go, ok := true, true;
        } else if state == 3 {
          go, ok, ev := ReadBody(accept);
        } else {
          go, ok := ReadBoundary();
        }
        if go {
          StepShrinks(before, env);
          OwesNext(before, done, target, drain, env);
        } else {
          OwesStop(before, done, target, drain, env);
        }
      }
    }

    method ParseLoop(accept: Event -> bool, ghost drain: Conf -> Run) returns (ok: bool)
      requires Valid() && IsDrain(drain, Setting(accept))
      modifies this`spos, this`state, this`file, this`isValid, this`events
      ensures Valid() && old(events) <= events
      ensures drain(old(View())) == Run(ok, View(), events[|old(events)|..])
    {
      ghost var target, done := drain(View()), [];
      OwesStart(View(), drain);
      while BufSize() > 0
        invariant Valid() && events == old(events) + done
        invariant Owes(View(), done, target, drain)
        decreases BufSize(), state == 1
      {
        ghost var ev;
        var go;
        go, ok, ev := Turn(accept, done, target, drain);
        done := done + ev;
        if !go {
          return ok;
        }
      }
      OwesIdle(View(), done, target, drain, Setting(accept));
      return true;
    }

    /** One `parse` call is one draining of the unread bytes followed by `data`. */
    method Parse(data: string, accept: Event -> bool) returns (ok: bool)
      requires Valid()
      modifies this
      ensures Valid() && old(events) <= events
      ensures Drain(Append(old(View()), data), Setting(accept)) == Run(ok, View(), events[|old(events)|..])
    {
      BufAppend(data);
      ok := ParseLoop(accept, c => Drain(c, Setting(accept)));
    }
  }
}
