/** Sending a body of unknown length in chunks, and reading it back. */
module ChunkedWriter {
  import opened Machine
  import opened ChunkedCoding
  import opened Streams
  import opened Text

  const DONE_MARKER := "0\r\n\r\n"

  datatype Error = Success | WriteFailed | Canceled

  /** What a content provider does with the data sink it is given. */
  datatype Action = Write(data: string) | Done

  /** One call of the content provider: its actions in order and its result. */
  datatype Round = Round(actions: seq<Action>, ok: bool)

  // ----- What is sent -----

  function Chunk(data: string): string {
    Hex(|data|) + CRLF + data + CRLF
  }

  function Emit(a: Action): string {
    match a
    case Write(data) => if data == "" then "" else Chunk(data)
    case Done => DONE_MARKER
  }

  function Emitted(actions: seq<Action>): string {
    if actions == [] then "" else Emit(actions[0]) + Emitted(actions[1..])
  }

  /** Whether the sink expects more data after `actions`. */
  function StaysOpen(actions: seq<Action>, before: bool): bool {
    if actions == [] then before
    else match actions[|actions| - 1]
         case Write(data) => data != ""
         case Done => false
  }

  /** The actions performed before the sending loop ends. */
  function Performed(rounds: seq<Round>): seq<Action> {
    if rounds == [] then []
    else if rounds[0].ok && StaysOpen(rounds[0].actions, true) then rounds[0].actions + Performed(rounds[1..])
    else rounds[0].actions
  }

  function Outcome(rounds: seq<Round>): Error {
    if rounds == [] then Success
    else if !rounds[0].ok then Canceled
    else if StaysOpen(rounds[0].actions, true) then Outcome(rounds[1..])
    else Success
  }

  lemma {:induction false} EmittedConcat(a: seq<Action>, b: seq<Action>)
    ensures Emitted(a + b) == Emitted(a) + Emitted(b)
  {
    if a == [] {
      assert a + b == b;
    } else {
      assert (a + b)[1..] == a[1..] + b;
      EmittedConcat(a[1..], b);
    }
  }

  /** `output` was `before` when `actions` began. */
  ghost predicate Sent(output: string, before: string, actions: seq<Action>) {
    output == before + Emitted(actions)
  }

  lemma SentMore(output: string, before: string, a: seq<Action>, b: seq<Action>, output': string)
    requires Sent(output, before, a) && Sent(output', output, b)
    ensures Sent(output', before, a + b)
  {
    EmittedConcat(a, b);
  }

  lemma SentOne(output: string, before: string, actions: seq<Action>, i: nat, output': string)
    requires i < |actions| && Sent(output, before, actions[..i]) && output' == output + Emit(actions[i])
    ensures Sent(output', before, actions[..i + 1])
  {
    assert Emitted([actions[i]]) == Emit(actions[i]);
    SentMore(output, before, actions[..i], [actions[i]], output');
    assert actions[..i + 1] == actions[..i] + [actions[i]];
  }

  /** After `i` rounds the sink is `open` or not and `sent` has been performed. */
  ghost predicate Progress(rounds: seq<Round>, i: nat, open: bool, sent: seq<Action>) {
    && i <= |rounds|
    && Performed(rounds) == sent + (if open then Performed(rounds[i..]) else [])
    && Outcome(rounds) == if open then Outcome(rounds[i..]) else Success
  }

  lemma ProgressMade(rounds: seq<Round>, i: nat, sent: seq<Action>)
    requires i < |rounds| && Progress(rounds, i, true, sent)
    ensures var r, sent' := rounds[i], sent + rounds[i].actions;
            if r.ok then Progress(rounds, i + 1, StaysOpen(r.actions, true), sent')
            else Performed(rounds) == sent' && Outcome(rounds) == Canceled
  {
    RoundPerformed(rounds[i..]);
    assert rounds[i..][1..] == rounds[i + 1..];
    Regroup(sent, rounds[i].actions, Performed(rounds[i + 1..]));
  }

  lemma RoundPerformed(rounds: seq<Round>)
    requires rounds != []
    ensures var r, rest := rounds[0], rounds[1..];
            if r.ok && StaysOpen(r.actions, true)
            then Performed(rounds) == r.actions + Performed(rest) && Outcome(rounds) == Outcome(rest)
            else Performed(rounds) == r.actions && Outcome(rounds) == if r.ok then Success else Canceled
  {
  }

  lemma Regroup(a: seq<Action>, b: seq<Action>, c: seq<Action>)
    ensures a + (b + c) == a + b + c && a + b + [] == a + b
  {
  }

  lemma ProgressEnds(rounds: seq<Round>, i: nat, open: bool, sent: seq<Action>)
    requires Progress(rounds, i, open, sent) && (open ==> i == |rounds|)
    ensures Performed(rounds) == sent && Outcome(rounds) == Success
  {
    assert rounds[|rounds|..] == [];
    assert sent + [] == sent;
  }

  /** The state of the sending loop after `i` rounds. */
  ghost predicate Midway(rounds: seq<Round>, i: nat, open: bool, sent: seq<Action>, output: string, before: string) {
    Progress(rounds, i, open, sent) && Sent(output, before, sent)
  }

  /** The whole of what the sending loop does. */
  ghost predicate AllSent(rounds: seq<Round>, error: Error, output: string, before: string) {
    error == Outcome(rounds) && Sent(output, before, Performed(rounds))
  }

  lemma RoundSent(rounds: seq<Round>, i: nat, sent: seq<Action>, output: string, before: string, output': string)
    requires i < |rounds| && Midway(rounds, i, true, sent, output, before) && Sent(output', output, rounds[i].actions)
    ensures var r := rounds[i];
            if r.ok then Midway(rounds, i + 1, StaysOpen(r.actions, true), sent + r.actions, output', before)
            else AllSent(rounds, Canceled, output', before)
  {
    SentMore(output, before, sent, rounds[i].actions, output');
    ProgressMade(rounds, i, sent);
  }

  lemma MidwayStarts(rounds: seq<Round>, before: string)
    ensures Midway(rounds, 0, true, [], before, before)
  {
    assert rounds[0..] == rounds;
  }

  lemma MidwayEnds(rounds: seq<Round>, i: nat, open: bool, sent: seq<Action>, output: string, before: string)
    requires Midway(rounds, i, open, sent, output, before) && (open ==> i == |rounds|)
    ensures AllSent(rounds, Success, output, before)
  {
    ProgressEnds(rounds, i, open, sent);
  }

  /** The state of the sink after `i` of the actions of one provider call. */
  ghost predicate SinkAt(actions: seq<Action>, i: nat, start: bool, open: bool, output: string, before: string) {
    i <= |actions| && open == StaysOpen(actions[..i], start) && Sent(output, before, actions[..i])
  }

  lemma SinkStarts(actions: seq<Action>, start: bool, before: string)
    ensures SinkAt(actions, 0, start, start, before, before)
  {
  }

  lemma SinkMoves(actions: seq<Action>, i: nat, start: bool, open: bool, output: string, before: string,
                  open': bool, output': string)
    requires i < |actions| && SinkAt(actions, i, start, open, output, before)
    requires open' == StaysOpen([actions[i]], true) && output' == output + Emit(actions[i])
    ensures SinkAt(actions, i + 1, start, open', output', before)
  {
    SentOne(output, before, actions, i, output');
  }

  lemma SinkEnds(actions: seq<Action>, start: bool, open: bool, output: string, before: string)
    requires SinkAt(actions, |actions|, start, open, output, before)
    ensures open == StaysOpen(actions, start) && Sent(output, before, actions)
  {
    assert actions[..|actions|] == actions;
  }

  // ----- The sender -----

  class DataSink {
    const strm: OutputStream
    var dataAvailable: bool
    var ok: bool
    var offset: nat

    constructor (strm: OutputStream)
      ensures this.strm == strm && dataAvailable && ok && offset == 0
    {
      this.strm, dataAvailable, ok, offset := strm, true, true, 0;
    }

    method Write(d: string) returns (r: bool)
      modifies this, strm
      ensures r == ok && strm.failures >= old(strm.failures)
      ensures !old(ok) ==> unchanged(this) && unchanged(strm)
      ensures old(ok) ==> ok == (strm.failures == old(strm.failures))
      ensures ok ==> dataAvailable == StaysOpen([Action.Write(d)], true)
      ensures ok ==> strm.output == old(strm.output) + Emit(Action.Write(d))
    {
      if ok {
        dataAvailable := |d| > 0;
        offset := offset + |d|;
        if d != "" {
          var size := FromIToHex(|d|);
          ok := strm.IsWritable();
          if ok {
            ok := strm.WriteData(size + CRLF + d + CRLF);
          }
        }
      }
      return ok;
    }

    method Finish()
      modifies this, strm
      ensures strm.failures >= old(strm.failures)
      ensures !old(ok) ==> unchanged(this) && unchanged(strm)
      ensures old(ok) ==> ok == (strm.failures == old(strm.failures)) && !dataAvailable
      ensures ok ==> strm.output == old(strm.output) + Emit(Done)
    {
      if !ok {
        return;
      }
      dataAvailable := false;
      ok := strm.WriteData(DONE_MARKER);
    }

    method PerformOne(a: Action)
      modifies this, strm
      ensures strm.failures >= old(strm.failures)
      ensures if old(ok) then ok == (strm.failures == old(strm.failures)) else unchanged(this) && unchanged(strm)
      ensures ok ==> dataAvailable == StaysOpen([a], true) && strm.output == old(strm.output) + Emit(a)
    {
      match a {
        case Write(d) => var _ := Write(d);
        case Done => Finish();
      }
    }

    /** A provider performing `actions` on the sink. */
    method Perform(actions: seq<Action>)
      requires ok
      modifies this, strm
      ensures strm.failures >= old(strm.failures)
      ensures ok == (strm.failures == old(strm.failures))
      ensures ok ==> dataAvailable == StaysOpen(actions, old(dataAvailable))
      ensures ok ==> Sent(strm.output, old(strm.output), actions)
    {
      var i := 0;
      ghost var start, before := dataAvailable, strm.output;
      SinkStarts(actions, start, before);
      while i < |actions|
        invariant i <= |actions| && strm.failures >= old(strm.failures)
        invariant ok == (strm.failures == old(strm.failures))
        invariant ok ==> SinkAt(actions, i, start, dataAvailable, strm.output, before)
      {
        ghost var open, output := dataAvailable, strm.output;
        PerformOne(actions[i]);
        if ok {
          SinkMoves(actions, i, start, open, output, before, dataAvailable, strm.output);
        }
        i := i + 1;
      }
      if ok {
        SinkEnds(actions, start, dataAvailable, strm.output, before);
      }
    }
  }

  /** Sends until the provider is done; the server shuts down when `rounds` run out. */
  method WriteContentChunked(strm: OutputStream, rounds: seq<Round>) returns (error: Error)
    modifies strm
    ensures strm.failures >= old(strm.failures)
    ensures strm.failures == old(strm.failures) ==> AllSent(rounds, error, strm.output, old(strm.output))
    ensures strm.failures > old(strm.failures) ==> error != Success
  {
    var sink := new DataSink(strm);
    var i := 0;
    ghost var sent: seq<Action>, before := [], strm.output;
    MidwayStarts(rounds, before);
    while sink.dataAvailable && i < |rounds|
      invariant sink.ok && strm.failures == old(strm.failures)
      invariant Midway(rounds, i, sink.dataAvailable, sent, strm.output, before)
    {
      ghost var output := strm.output;
      var writable := strm.IsWritable();
      if !writable {
        return WriteFailed;
      }
      sink.Perform(rounds[i].actions);
      if sink.ok {
        RoundSent(rounds, i, sent, output, before, strm.output);
      }
      sent := sent + rounds[i].actions;
      if !rounds[i].ok {
        return Canceled;
      } else if !sink.ok {
        return WriteFailed;
      }
      i := i + 1;
    }
    MidwayEnds(rounds, i, sink.dataAvailable, sent, strm.output, before);
    return Success;
  }

  // ----- Reading back what was sent -----

  /** The content written by `actions`. */
  function Written(actions: seq<Action>): string {
    if actions == [] then ""
    else match actions[0]
         case Write(data) => data + Written(actions[1..])
         case Done => Written(actions[1..])
  }

  /** Sizes fit the machine word, short of its greatest value. */
  ghost predicate Sized(actions: seq<Action>) {
    forall i | 0 <= i < |actions| :: actions[i].Write? ==> |actions[i].data| < ULONG_MAX
  }

  lemma SizeLine(n: nat, rest: string)
    requires n < ULONG_MAX
    ensures var s := Hex(n) + CRLF + rest;
            s != "" && StrToUL(CString(Line(s))) == Some(n) && AfterLine(s) == rest
  {
    HexReads(n);
    SizeLineReads(n);
    LineEnds(Hex(n), rest);
  }

  lemma LineEnds(text: string, rest: string)
    requires '\n' !in text && '\0' !in text
    ensures CString(Line(text + CRLF + rest)) == text + CRLF && AfterLine(text + CRLF + rest) == rest
  {
    assert text + CRLF == (text + "\r") + "\n";
    assert text + CRLF + rest == (text + "\r") + "\n" + rest;
    LineOf(text + "\r", rest);
    NoZeroByte(text + CRLF);
  }

  lemma EmptyLine(rest: string)
    ensures CString(Line(CRLF + rest)) == CRLF && AfterLine(CRLF + rest) == rest
  {
    LineEnds("", rest);
    assert "" + CRLF == CRLF;
  }

  /** The reader takes off the chunk that the writer put on. */
  lemma ChunkReads(data: string, rest: string)
    requires 0 < |data| < ULONG_MAX
    ensures ReadChunks(Chunk(data) + rest) == Prepend(data, ReadChunks(rest))
  {
    var after := CRLF + rest;
    assert Chunk(data) + rest == Hex(|data|) + CRLF + (data + after);
    SizeLine(|data|, data + after);
    ChunkTaken(data + after, |data|, data, after);
    EmptyLine(rest);
  }

  lemma MarkerReads(rest: string)
    ensures ReadChunks(DONE_MARKER + rest) == Decoded(true, "", rest)
  {
    assert Hex(0) == "0";
    assert DONE_MARKER + rest == Hex(0) + CRLF + (CRLF + rest);
    SizeLine(0, CRLF + rest);
    EmptyLine(rest);
  }

  lemma WriteReads(data: string, rest: string)
    requires |data| < ULONG_MAX
    ensures ReadChunks(Emit(Write(data)) + rest) == Prepend(data, ReadChunks(rest))
  {
    if data == "" {
      assert Emit(Write(data)) + rest == rest;
    } else {
      ChunkReads(data, rest);
    }
  }

  /** Writes alone put their content before whatever follows. */
  lemma {:induction false} WritesRead(actions: seq<Action>, rest: string)
    requires Sized(actions) && Done !in actions
    ensures ReadChunks(Emitted(actions) + rest) == Prepend(Written(actions), ReadChunks(rest))
  {
    if actions == [] {
      assert Emitted(actions) + rest == rest;
    } else {
      assert actions[0] in actions;
      WritesRead(actions[1..], rest);
      WriteThenRead(actions[0].data, Emitted(actions[1..]), Written(actions[1..]), rest);
    }
  }

  lemma WriteThenRead(data: string, emitted: string, written: string, rest: string)
    requires |data| < ULONG_MAX
    requires ReadChunks(emitted + rest) == Prepend(written, ReadChunks(rest))
    ensures ReadChunks(Emit(Write(data)) + emitted + rest) == Prepend(data + written, ReadChunks(rest))
  {
    assert Emit(Write(data)) + emitted + rest == Emit(Write(data)) + (emitted + rest);
    WriteReads(data, emitted + rest);
    PrependTwice(data, written, ReadChunks(rest));
  }

  /**
   * The coding round trip: reading what `writes` and a call of `done` sent, in
   * front of any other bytes, gives the written content and leaves those bytes.
   */
  lemma RoundTrip(writes: seq<Action>, rest: string)
    requires Sized(writes) && Done !in writes
    ensures ReadChunks(Emitted(writes + [Done]) + rest) == Decoded(true, Written(writes), rest)
  {
    EmittedConcat(writes, [Done]);
    assert Emitted([Done]) == DONE_MARKER;
    assert Emitted(writes + [Done]) + rest == Emitted(writes) + (DONE_MARKER + rest);
    MarkerReads(rest);
    WritesRead(writes, DONE_MARKER + rest);
  }

  /** The actions before the first call of `done`. */
  function BeforeDone(actions: seq<Action>): seq<Action> {
    if actions == [] || actions[0] == Done then [] else [actions[0]] + BeforeDone(actions[1..])
  }

  lemma {:induction false} DoneSplits(actions: seq<Action>)
    ensures Done !in BeforeDone(actions) && |BeforeDone(actions)| <= |actions|
    ensures BeforeDone(actions) == actions[..|BeforeDone(actions)|]
    ensures if |BeforeDone(actions)| < |actions| then actions[|BeforeDone(actions)|] == Done else Done !in actions
  {
    if actions != [] && actions[0] != Done {
      DoneSplits(actions[1..]);
      assert actions == [actions[0]] + actions[1..];
    }
  }

  /**
   * What a provider sent is a complete body exactly when it called `done`; it
   * carries the content written before that call, complete or not.
   */
  lemma CompleteIffDone(actions: seq<Action>)
    requires Sized(actions)
    ensures ReadChunks(Emitted(actions)).ok <==> Done in actions
    ensures ReadChunks(Emitted(actions)).body == Written(BeforeDone(actions))
  {
    DoneSplits(actions);
    var writes := BeforeDone(actions);
    if |writes| == |actions| {
      assert actions == writes;
      NeverDone(actions);
    } else {
      DoneWithin(actions, |writes|);
    }
  }

  lemma DoneWithin(actions: seq<Action>, k: nat)
    requires k < |actions| && Sized(actions) && actions[k] == Done && Done !in actions[..k]
    ensures ReadChunks(Emitted(actions)) == Decoded(true, Written(actions[..k]), Emitted(actions[k + 1..]))
  {
    EmittedAround(actions, k);
    RoundTrip(actions[..k], Emitted(actions[k + 1..]));
  }

  lemma EmittedAround(actions: seq<Action>, k: nat)
    requires k < |actions|
    ensures Emitted(actions) == Emitted(actions[..k] + [actions[k]]) + Emitted(actions[k + 1..])
  {
    EmittedConcat(actions[..k] + [actions[k]], actions[k + 1..]);
    CutAround(actions, k);
  }

  lemma CutAround(actions: seq<Action>, k: nat)
    requires k < |actions|
    ensures actions == actions[..k] + [actions[k]] + actions[k + 1..]
  {
  }

  lemma NeverDone(writes: seq<Action>)
    requires Sized(writes) && Done !in writes
    ensures ReadChunks(Emitted(writes)) == Decoded(false, Written(writes), "")
  {
    WritesRead(writes, "");
    assert Emitted(writes) + "" == Emitted(writes);
    assert Written(writes) + "" == Written(writes);
  }

  /** The sending loop reaches round `i`. */
  ghost predicate Reached(rounds: seq<Round>, i: nat) {
    i < |rounds| && forall j | 0 <= j < i :: rounds[j].ok && StaysOpen(rounds[j].actions, true)
  }

  /**
   * `done` is performed exactly when it is in a round before which every round
   * succeeded and did not end with an empty write.
   */
  lemma {:induction false} DonePerformedIff(rounds: seq<Round>)
    ensures Done in Performed(rounds) <==> exists i: nat :: Reached(rounds, i) && Done in rounds[i].actions
  {
    if rounds != [] {
      var rest := rounds[1..];
      DonePerformedIff(rest);
      if Done in rounds[0].actions {
        assert Reached(rounds, 0);
      } else if rounds[0].ok && StaysOpen(rounds[0].actions, true) {
        forall i: nat | Reached(rest, i) ensures Reached(rounds, i + 1) {
          ReachedLater(rounds, i);
        }
        forall i: nat | Reached(rounds, i) && i > 0 ensures Reached(rest, i - 1) {
          ReachedLater(rounds, i - 1);
        }
        assert forall i: nat :: i > 0 && i < |rounds| ==> rounds[i] == rest[i - 1];
      }
    }
  }

  lemma ReachedLater(rounds: seq<Round>, i: nat)
    requires rounds != [] && rounds[0].ok && StaysOpen(rounds[0].actions, true)
    ensures Reached(rounds[1..], i) <==> Reached(rounds, i + 1)
  {
    var rest := rounds[1..];
    if Reached(rounds, i + 1) {
      forall j | 0 <= j < i ensures rest[j].ok && StaysOpen(rest[j].actions, true) {
        assert rest[j] == rounds[j + 1];
      }
    }
    if Reached(rest, i) {
      forall j | 0 <= j < i + 1 ensures rounds[j].ok && StaysOpen(rounds[j].actions, true) {
        assert j > 0 ==> rounds[j] == rest[j - 1];
      }
    }
  }

  /** An empty write at the end of a round loses the content and the marker after it. */
  lemma EmptyWriteTruncates()
    ensures var rounds := [Round([Write("")], true), Round([Write("a"), Done], true)];
            && Outcome(rounds) == Success
            && !ReadChunks(Emitted(Performed(rounds))).ok
  {
    var rounds := [Round([Write("")], true), Round([Write("a"), Done], true)];
    assert Performed(rounds) == [Write("")];
    CompleteIffDone([Write("")]);
  }

  /** Everything the provider would do if it were called to the end. */
  function Planned(rounds: seq<Round>): seq<Action> {
    if rounds == [] then [] else rounds[0].actions + Planned(rounds[1..])
  }

  /** Non-empty writes and a final `done` are performed however they are spread over rounds. */
  lemma {:induction false} PlanPerformed(rounds: seq<Round>, writes: seq<Action>)
    requires forall i | 0 <= i < |rounds| :: rounds[i].ok
    requires Planned(rounds) == writes + [Done]
    requires Done !in writes && Write("") !in writes
    ensures Performed(rounds) == writes + [Done] && Outcome(rounds) == Success
  {
    var first := rounds[0].actions;
    var plan := writes + [Done];
    assert first == plan[..|first|] && Planned(rounds[1..]) == plan[|first|..];
    if |first| == |plan| {
      assert first == plan;
    } else {
      var more := writes[|first|..];
      assert first + more == writes;
      assert Planned(rounds[1..]) == more + [Done];
      PlanPerformed(rounds[1..], more);
      if first != [] {
        assert first[|first| - 1] == writes[|first| - 1];
      }
      assert first + (more + [Done]) == plan;
    }
  }

  /**
   * A provider that writes non-empty pieces in any number of calls and then calls
   * `done` has sent a body that reads back as its pieces, ahead of any other bytes.
   */
  lemma SentBodyReads(rounds: seq<Round>, writes: seq<Action>, rest: string)
    requires forall i | 0 <= i < |rounds| :: rounds[i].ok
    requires Planned(rounds) == writes + [Done] && Sized(writes)
    requires Done !in writes && Write("") !in writes
    ensures Outcome(rounds) == Success
    ensures ReadChunks(Emitted(Performed(rounds)) + rest) == Decoded(true, Written(writes), rest)
  {
    PlanPerformed(rounds, writes);
    RoundTrip(writes, rest);
  }
}
