/** `ClientImpl` in util/httplib.h: the socket state that `send_`, `process_request` and `stop` share, and what
    each of them does to it while it holds `socket_mutex_`. */
module ClientSocket {
  import opened Machine

  type Thread = nat

  /** `owner` is the thread whose requests are counted; `closeWhenDone` is
      `socket_should_be_closed_when_request_is_done_`. */
  datatype Shared = Shared(open: bool, inFlight: nat, owner: Option<Thread>, closeWhenDone: bool)

  /** The new state, whether every assertion that was evaluated held, and whether the request goes on. */
  datatype Outcome = Outcome(shared: Shared, asserted: bool, proceed: bool)

  /** The assertion of `shutdown_ssl` and `close_socket`. */
  predicate MayClose(s: Shared, self: Thread) {
    s.inFlight == 0 || s.owner == Some(self)
  }

  /** The first block of `send_`: the peer looks alive or not, and connecting succeeds or not. */
  function BeginSend(s: Shared, self: Thread, alive: bool, connects: bool): Outcome {
    var s1 := s.(closeWhenDone := false);
    var isAlive := s1.open && alive;
    var closes := s1.open && !alive;
    var closed := if closes then s1.(open := false) else s1;
    var ok := closes ==> MayClose(s1, self);
    if !isAlive && !connects then Outcome(closed, ok, false)
    else
      Outcome(closed.(open := true, inFlight := closed.inFlight + 1, owner := Some(self)),
              ok && (closed.inFlight > 1 ==> closed.owner == Some(self)), true)
  }

  /** A response that closes the connection, in `process_request`. */
  function CloseAfterResponse(s: Shared, self: Thread): Outcome {
    Outcome(s.(open := false), MayClose(s, self), true)
  }

  /** The scope exit of `send_`. */
  function EndSend(s: Shared, self: Thread, closeConnection: bool, ret: bool): Outcome {
    var n := if s.inFlight == 0 then 0 else s.inFlight - 1;
    var s1 := s.(inFlight := n, owner := if n == 0 then None else s.owner);
    if s.closeWhenDone || closeConnection || !ret then
      Outcome(s1.(open := false), s.inFlight > 0 && MayClose(s1, self), true)
    else Outcome(s1, s.inFlight > 0, true)
  }

  function Stop(s: Shared, self: Thread): Outcome {
    if s.inFlight > 0 then Outcome(s.(closeWhenDone := true), true, true)
    else Outcome(s.(open := false), MayClose(s, self), true)
  }

  /** A request that begins goes on with an open socket, either one that looks alive or a new one; otherwise the
      socket is closed. It may replace a dead socket, and join requests in flight, only on the thread of those. */
  lemma BeginCases(s: Shared, self: Thread, alive: bool, connects: bool)
    ensures var o := BeginSend(s, self, alive, connects);
            && (o.proceed <==> (s.open && alive) || connects)
            && o.shared == (if o.proceed then Shared(true, s.inFlight + 1, Some(self), false)
                            else Shared(false, s.inFlight, s.owner, false))
            && (!o.asserted <==>
                s.owner != Some(self) && ((s.inFlight > 0 && s.open && !alive) || (s.inFlight > 1 && o.proceed)))
  {
  }

  /** A request that ends leaves the socket open only if it has succeeded, keeps it alive and nobody has stopped the
      client; the last one gives up the ownership. None may end that is not counted, and none may close the socket
      of another thread. */
  lemma EndCases(s: Shared, self: Thread, closeConnection: bool, ret: bool)
    ensures var o := EndSend(s, self, closeConnection, ret);
            && o.shared.inFlight == (if s.inFlight == 0 then 0 else s.inFlight - 1)
            && o.shared.closeWhenDone == s.closeWhenDone && o.proceed
            && (o.shared.open <==> s.open && ret && !closeConnection && !s.closeWhenDone)
            && o.shared.owner == (if s.inFlight <= 1 then None else s.owner)
            && (!o.asserted <==>
                s.inFlight == 0 ||
                (s.inFlight > 1 && s.owner != Some(self) && (!ret || closeConnection || s.closeWhenDone)))
  {
  }

  /** A stop closes a socket that is not in use, and otherwise only leaves word; a response that closes the
      connection closes the socket. */
  lemma CloseCases(s: Shared, self: Thread)
    ensures var o := Stop(s, self);
            && o.shared == (if s.inFlight > 0 then s.(closeWhenDone := true) else s.(open := false))
            && o.asserted && o.proceed
    ensures var o := CloseAfterResponse(s, self);
            && o.shared == Shared(false, s.inFlight, s.owner, s.closeWhenDone) && o.proceed
            && (!o.asserted <==> s.inFlight > 0 && s.owner != Some(self))
  {
  }

  class ClientImpl {
    var open: bool
    var inFlight: nat
    var owner: Option<Thread>
    var closeWhenDone: bool

    ghost function State(): Shared
      reads this
    {
      Shared(open, inFlight, owner, closeWhenDone)
    }

    constructor ()
      ensures State() == Shared(false, 0, None, false)
    {
      open, inFlight, owner, closeWhenDone := false, 0, None, false;
    }

    method CloseSocket(self: Thread) returns (asserted: bool)
      modifies this`open
      ensures State() == old(State()).(open := false) && asserted == MayClose(old(State()), self)
    {
      asserted := inFlight == 0 || owner == Some(self);
      open := false;
    }

    method Begin(self: Thread, alive: bool, connects: bool) returns (asserted: bool, proceed: bool)
      modifies this
      ensures Outcome(State(), asserted, proceed) == BeginSend(old(State()), self, alive, connects)
    {
      closeWhenDone := false;
      asserted := true;
      var isAlive := false;
      if open {
        isAlive := alive;
        if !isAlive {
          asserted := CloseSocket(self);
        }
      }
      if !isAlive {
        if !connects {
          return asserted, false;
        }
        open := true;
      }
      if inFlight > 1 {
        asserted := asserted && owner == Some(self);
      }
      inFlight := inFlight + 1;
      owner := Some(self);
      return asserted, true;
    }

    method End(self: Thread, closeConnection: bool, ret: bool) returns (asserted: bool)
      modifies this
      ensures Outcome(State(), asserted, true) == EndSend(old(State()), self, closeConnection, ret)
    {
      asserted := inFlight > 0;
      if inFlight > 0 {
        inFlight := inFlight - 1;
      }
      if inFlight == 0 {
        owner := None;
      }
      if closeWhenDone || closeConnection || !ret {
        var mayClose := CloseSocket(self);
        asserted := asserted && mayClose;
      }
    }

    method StopClient(self: Thread) returns (asserted: bool)
      modifies this
      ensures Outcome(State(), asserted, true) == Stop(old(State()), self)
    {
      if inFlight > 0 {
        closeWhenDone := true;
        return true;
      }
      asserted := CloseSocket(self);
    }
  }
}

/** Any number of threads using one client: `send` under the recursive `request_mutex_`, nested sends from
    redirects and authentication retries, and `stop` at any moment. */
module ClientThreads {
  import opened Machine
  import opened ClientSocket

  /** Where one `send` call stands: before `send_`'s first block, counted in flight, or after `send_`. */
  datatype Frame =
    | Entered(attempt: nat)
    | InFlight(attempt: nat, closeConnection: bool)
    | Returned(attempt: nat, ret: bool)

  /** `stacks[t]` holds thread `t`'s nested `send` calls, innermost last; `depth` is the recursion count of
      `request_mutex_`. `asserted` records that no assertion has failed so far. */
  datatype System = System(shared: Shared, stacks: seq<seq<Frame>>, holder: Option<Thread>, depth: nat, asserted: bool)

  datatype Action =
    | CallSend(t: nat)
    | Begin(t: nat, alive: bool, connects: bool, keepAlive: bool)
    | CloseConnection(t: nat)
    | End(t: nat, ret: bool)
    | Retry(t: nat)
    | Return(t: nat)
    | StopCall(t: nat)

  predicate Enabled(s: System, a: Action) {
    a.t < |s.stacks| &&
    var stack := s.stacks[a.t];
    match a
    case CallSend(t) =>
      && (s.holder == None || s.holder == Some(t))
      && (stack == [] || stack[|stack| - 1].InFlight?)
    case Begin(_, _, _, _) => stack != [] && stack[|stack| - 1].Entered?
    case CloseConnection(_) => stack != [] && stack[|stack| - 1].InFlight?
    case End(_, _) => stack != [] && stack[|stack| - 1].InFlight?
    case Retry(_) => stack != [] && stack[|stack| - 1] == Returned(1, false)
    case Return(_) => stack != [] && stack[|stack| - 1].Returned?
    case StopCall(_) => true
  }

  function Replace(s: System, t: nat, f: Frame, o: Outcome): System
    requires t < |s.stacks| && s.stacks[t] != []
  {
    var stack := s.stacks[t];
    s.(shared := o.shared, asserted := s.asserted && o.asserted, stacks := s.stacks[t := stack[|stack| - 1 := f]])
  }

  function Do(s: System, a: Action): System
    requires Enabled(s, a)
  {
    var stack := s.stacks[a.t];
    match a
    case CallSend(t) => s.(stacks := s.stacks[t := stack + [Entered(1)]], holder := Some(t), depth := s.depth + 1)
    case Begin(t, alive, connects, keepAlive) =>
      var o := BeginSend(s.shared, t, alive, connects);
      var n := stack[|stack| - 1].attempt;
      Replace(s, t, if o.proceed then InFlight(n, !keepAlive) else Returned(n, false), o)
    case CloseConnection(t) => Replace(s, t, stack[|stack| - 1], CloseAfterResponse(s.shared, t))
    case End(t, ret) =>
      var f := stack[|stack| - 1];
      Replace(s, t, Returned(f.attempt, ret), EndSend(s.shared, t, f.closeConnection, ret))
    case Retry(t) => s.(stacks := s.stacks[t := stack[|stack| - 1 := Entered(2)]])
    case Return(t) =>
      s.(stacks := s.stacks[t := stack[..|stack| - 1]], depth := if s.depth == 0 then 0 else s.depth - 1,
         holder := if s.depth <= 1 then None else s.holder)
    case StopCall(t) =>
      var o := Stop(s.shared, t);
      s.(shared := o.shared, asserted := s.asserted && o.asserted)
  }

  // ---------- Invariant ----------

  function Counted(stack: seq<Frame>): nat {
    if stack == [] then 0 else Counted(stack[..|stack| - 1]) + if stack[|stack| - 1].InFlight? then 1 else 0
  }

  /** Open `send_` frames of all threads together. */
  function OpenFrames(stacks: seq<seq<Frame>>): nat {
    if stacks == [] then 0 else OpenFrames(stacks[..|stacks| - 1]) + Counted(stacks[|stacks| - 1])
  }

  predicate Exclusive(s: System) {
    && (s.holder == None ==> s.depth == 0 && forall t | 0 <= t < |s.stacks| :: s.stacks[t] == [])
    && (s.holder.Some? ==>
          && s.holder.value < |s.stacks| && s.stacks[s.holder.value] != []
          && s.depth == |s.stacks[s.holder.value]|)
    && (forall t | 0 <= t < |s.stacks| && s.stacks[t] != [] :: s.holder == Some(t))
  }

  function HeldFrames(s: System): nat
    requires Exclusive(s)
  {
    if s.holder == None then 0 else Counted(s.stacks[s.holder.value])
  }

  predicate Inv(s: System) {
    && Exclusive(s) && s.asserted
    && s.shared.inFlight == HeldFrames(s)
    && s.shared.owner == if s.shared.inFlight == 0 then None else s.holder
  }

  predicate Init(s: System) {
    && s.shared == Shared(false, 0, None, false) && s.holder == None && s.depth == 0 && s.asserted
    && forall t | 0 <= t < |s.stacks| :: s.stacks[t] == []
  }

  lemma {:induction false} OneStack(stacks: seq<seq<Frame>>, t: nat)
    requires t < |stacks| && forall u | 0 <= u < |stacks| && u != t :: stacks[u] == []
    ensures OpenFrames(stacks) == Counted(stacks[t])
  {
    var n := |stacks| - 1;
    if t == n {
      NoStack(stacks[..n]);
    } else {
      OneStack(stacks[..n], t);
    }
  }

  lemma {:induction false} NoStack(stacks: seq<seq<Frame>>)
    requires forall u | 0 <= u < |stacks| :: stacks[u] == []
    ensures OpenFrames(stacks) == 0
  {
    if stacks != [] {
      NoStack(stacks[..|stacks| - 1]);
    }
  }

  lemma CountedTop(stack: seq<Frame>, f: Frame)
    requires stack != []
    ensures var n := |stack| - 1;
            Counted(stack[n := f]) == Counted(stack[..n]) + if f.InFlight? then 1 else 0
  {
    var n := |stack| - 1;
    assert stack[n := f][..n] == stack[..n];
  }

  lemma CountedPush(stack: seq<Frame>, f: Frame)
    ensures Counted(stack + [f]) == Counted(stack) + if f.InFlight? then 1 else 0
  {
    assert (stack + [f])[..|stack|] == stack;
  }

  /** Steps that replace the top frame of the holder and move the counter with it. */
  lemma FrameStep(s: System, t: nat, f: Frame, o: Outcome)
    requires Inv(s) && t < |s.stacks| && s.stacks[t] != [] && o.asserted
    requires var stack := s.stacks[t];
             o.shared.inFlight == Counted(stack[..|stack| - 1]) + if f.InFlight? then 1 else 0
    requires o.shared.owner == if o.shared.inFlight == 0 then None else Some(t)
    ensures Inv(Replace(s, t, f, o))
  {
    CountedTop(s.stacks[t], f);
  }

  lemma InvStep(s: System, a: Action)
    requires Inv(s) && Enabled(s, a)
    ensures Inv(Do(s, a))
  {
    var t, stack := a.t, s.stacks[a.t];
    match a
    case CallSend(_) => CountedPush(stack, Entered(1));
    case Begin(_, alive, connects, keepAlive) =>
      var o := BeginSend(s.shared, t, alive, connects);
      var n := stack[|stack| - 1].attempt;
      FrameStep(s, t, if o.proceed then InFlight(n, !keepAlive) else Returned(n, false), o);
    case CloseConnection(_) => FrameStep(s, t, stack[|stack| - 1], CloseAfterResponse(s.shared, t));
    case End(_, ret) =>
      var f := stack[|stack| - 1];
      FrameStep(s, t, Returned(f.attempt, ret), EndSend(s.shared, t, f.closeConnection, ret));
    case Retry(_) => CountedTop(stack, Entered(2));
    case Return(_) =>
    case StopCall(_) =>
  }

  // ---------- Whole runs ----------

  ghost predicate IsRun(states: seq<System>, actions: seq<Action>) {
    && |states| == |actions| + 1
    && Init(states[0])
    && forall i | 0 <= i < |actions| :: StepAt(states, actions, i)
  }

  predicate StepAt(states: seq<System>, actions: seq<Action>, i: int)
    requires 0 <= i < |actions| && |states| == |actions| + 1
  {
    Enabled(states[i], actions[i]) && states[i + 1] == Do(states[i], actions[i])
  }

  lemma {:induction false} InvRun(states: seq<System>, actions: seq<Action>, i: nat)
    requires IsRun(states, actions) && i < |states|
    ensures Inv(states[i])
  {
    if i > 0 {
      InvRun(states, actions, i - 1);
      assert StepAt(states, actions, i - 1);
      InvStep(states[i - 1], actions[i - 1]);
    }
  }

  /** In every interleaving the counter is the number of open `send_` frames of all threads, they all belong to
      the thread recorded as owner, and no assertion ever fails. */
  lemma CounterCountsFrames(states: seq<System>, actions: seq<Action>, i: nat)
    requires IsRun(states, actions) && i < |states|
    ensures var s := states[i];
            && s.asserted
            && s.shared.inFlight == OpenFrames(s.stacks)
            && forall t | 0 <= t < |s.stacks| && Counted(s.stacks[t]) > 0 :: s.shared.owner == Some(t)
  {
    InvRun(states, actions, i);
    var s := states[i];
    if s.holder == None {
      NoStack(s.stacks);
    } else {
      OneStack(s.stacks, s.holder.value);
    }
  }

  /** No assertion fails, whichever is evaluated. */
  lemma NoAssertionFails(states: seq<System>, actions: seq<Action>, i: nat)
    requires IsRun(states, actions) && i < |actions|
    ensures var s, a := states[i], actions[i];
            match a
            case Begin(t, alive, connects, _) => BeginSend(s.shared, t, alive, connects).asserted
            case CloseConnection(t) => CloseAfterResponse(s.shared, t).asserted
            case End(t, ret) =>
              && t < |s.stacks| && s.stacks[t] != []
              && var f := s.stacks[t][|s.stacks[t]| - 1];
              && f.InFlight? && EndSend(s.shared, t, f.closeConnection, ret).asserted
            case StopCall(t) => Stop(s.shared, t).asserted
            case _ => true
  {
    assert StepAt(states, actions, i);
    InvRun(states, actions, i);
    InvRun(states, actions, i + 1);
  }

  /** A request that begins is in flight with an open socket exactly when it has one that looks alive or connects;
      otherwise it has failed, with the socket closed. */
  lemma BeginLeaves(states: seq<System>, actions: seq<Action>, i: nat)
    requires IsRun(states, actions) && i < |actions| && actions[i].Begin?
    ensures var s, s', a := states[i], states[i + 1], actions[i];
            && a.t < |s.stacks| == |s'.stacks| && s.stacks[a.t] != []
            && var n, height := s.stacks[a.t][|s.stacks[a.t]| - 1].attempt, |s.stacks[a.t]|;
            && |s'.stacks[a.t]| == height
            && var top := s'.stacks[a.t][height - 1];
            if (s.shared.open && a.alive) || a.connects then
              top == InFlight(n, !a.keepAlive) && s'.shared.open && s'.shared.inFlight == s.shared.inFlight + 1
            else top == Returned(n, false) && !s'.shared.open && s'.shared.inFlight == s.shared.inFlight
  {
    assert StepAt(states, actions, i);
  }

  /** A second attempt follows a first that has failed, and there is no third. */
  lemma {:induction false} TwoAttempts(states: seq<System>, actions: seq<Action>, i: nat)
    requires IsRun(states, actions) && i < |states|
    ensures forall t, n | 0 <= t < |states[i].stacks| && 0 <= n < |states[i].stacks[t]| ::
              states[i].stacks[t][n].attempt == 1 || states[i].stacks[t][n].attempt == 2
    ensures i < |actions| && actions[i].Retry? ==>
              var t := actions[i].t;
              && t < |states[i].stacks| && states[i].stacks[t] != []
              && var front := states[i].stacks[t][..|states[i].stacks[t]| - 1];
              && states[i].stacks[t] == front + [Returned(1, false)]
              && states[i + 1].shared == states[i].shared
              && states[i + 1].stacks == states[i].stacks[t := front + [Entered(2)]]
  {
    if i > 0 {
      TwoAttempts(states, actions, i - 1);
      assert StepAt(states, actions, i - 1);
    }
    if i < |actions| {
      assert StepAt(states, actions, i);
      if actions[i].Retry? {
        var stack := states[i].stacks[actions[i].t];
        assert stack[|stack| - 1 := Entered(2)] == stack[..|stack| - 1] + [Entered(2)];
      }
    }
  }

  // ---------- Which requests leave the socket open ----------

  /** Action `j` ends the request that action `i` began: nothing else happens to that frame in between. */
  ghost predicate Ends(states: seq<System>, actions: seq<Action>, i: int, j: int)
    requires IsRun(states, actions) && 0 <= i < j < |actions|
  {
    var t := actions[i].t;
    && actions[i].Begin? && actions[j].End? && actions[j].t == t
    && (forall k | i <= k <= j :: t < |states[k].stacks|)
    && |states[j].stacks[t]| == |states[i].stacks[t]|
    && forall k | i < k < j :: Untouched(states[k], actions[k], t, |states[i].stacks[t]|)
  }

  /** The action leaves the frame at this height of thread `t` in flight, if it is. */
  predicate Untouched(s: System, a: Action, t: nat, height: nat) {
    && t < |s.stacks| && |s.stacks[t]| >= height
    && (|s.stacks[t]| == height && a.t == t ==> !a.Begin? && !a.End?)
  }

  /** The frame at this height closes the connection when it ends, or does not. */
  predicate Holds(s: System, t: nat, height: nat, closeConnection: bool) {
    && t < |s.stacks| && 0 < height <= |s.stacks[t]|
    && var f := s.stacks[t][height - 1]; f.InFlight? ==> f.closeConnection == closeConnection
  }

  lemma HoldsOn(s: System, a: Action, t: nat, height: nat, closeConnection: bool)
    requires Enabled(s, a) && Holds(s, t, height, closeConnection) && Untouched(s, a, t, height)
    requires t < |Do(s, a).stacks| && |Do(s, a).stacks[t]| >= height
    ensures Holds(Do(s, a), t, height, closeConnection)
  {
  }

  /** The frame of a request keeps what its beginning has put there. */
  lemma {:induction false} FrameKept(states: seq<System>, actions: seq<Action>, i: nat, j: nat, k: nat)
    requires IsRun(states, actions) && i < k <= j < |actions| && Ends(states, actions, i, j)
    ensures Holds(states[k], actions[i].t, |states[i].stacks[actions[i].t]|, !actions[i].keepAlive)
    decreases k
  {
    assert StepAt(states, actions, k - 1);
    var t := actions[i].t;
    var height := |states[i].stacks[t]|;
    if k == i + 1 {
      assert states[k].stacks[t] == Do(states[i], actions[i]).stacks[t];
    } else {
      FrameKept(states, actions, i, j, k - 1);
      assert Untouched(states[k - 1], actions[k - 1], t, height);
      assert k < j ==> Untouched(states[k], actions[k], t, height);
      HoldsOn(states[k - 1], actions[k - 1], t, height, !actions[i].keepAlive);
    }
  }

  /** Without a stop in between, the next request to end does not close the socket for one. */
  lemma {:induction false} NoStopSince(states: seq<System>, actions: seq<Action>, i: nat, k: nat)
    requires IsRun(states, actions) && i < k <= |actions| && actions[i].Begin?
    requires forall n | i < n < k :: !actions[n].StopCall?
    ensures !states[k].shared.closeWhenDone
    decreases k
  {
    assert StepAt(states, actions, k - 1);
    if k > i + 1 {
      NoStopSince(states, actions, i, k - 1);
    }
  }

  /** A request that fails, or was begun without keep-alive, closes the socket when it ends; any other leaves it
      as it is, unless there has been a stop. */
  lemma EndOfRequest(states: seq<System>, actions: seq<Action>, i: nat, j: nat)
    requires IsRun(states, actions) && i < j < |actions| && Ends(states, actions, i, j)
    ensures !actions[j].ret || !actions[i].keepAlive ==> !states[j + 1].shared.open
    ensures actions[j].ret && actions[i].keepAlive && (forall k | i < k < j :: !actions[k].StopCall?) ==>
              states[j + 1].shared.open == states[j].shared.open
  {
    assert StepAt(states, actions, j);
    FrameKept(states, actions, i, j, j);
    if forall k | i < k < j :: !actions[k].StopCall? {
      NoStopSince(states, actions, i, j);
    }
  }

  predicate AllClosing(s: System) {
    && (forall t, n | 0 <= t < |s.stacks| && 0 <= n < |s.stacks[t]| && s.stacks[t][n].InFlight? ::
          s.stacks[t][n].closeConnection)
    && (s.shared.inFlight == 0 ==> !s.shared.open)
  }

  lemma ClosingStep(s: System, a: Action)
    requires Inv(s) && Enabled(s, a) && AllClosing(s) && (a.Begin? ==> !a.keepAlive)
    ensures AllClosing(Do(s, a))
  {
  }

  /** So without keep-alive the socket is closed whenever no request is in flight. */
  lemma {:induction false} NeverKeptAlive(states: seq<System>, actions: seq<Action>, i: nat)
    requires IsRun(states, actions) && i < |states|
    requires forall k | 0 <= k < i :: actions[k].Begin? ==> !actions[k].keepAlive
    ensures AllClosing(states[i])
    ensures states[i].shared.inFlight == 0 ==> !states[i].shared.open
  {
    if i > 0 {
      NeverKeptAlive(states, actions, i - 1);
      InvRun(states, actions, i - 1);
      assert StepAt(states, actions, i - 1);
      ClosingStep(states[i - 1], actions[i - 1]);
    }
  }

  /** A stop that finds requests in flight closes the socket by the time the counter is zero, as long as no
      further `send_` starts in between. */
  lemma {:induction false} StopTakesEffect(states: seq<System>, actions: seq<Action>, i: nat, j: nat)
    requires IsRun(states, actions) && i < j < |states|
    requires actions[i].StopCall? && states[i].shared.inFlight > 0
    requires forall k | i < k < j :: !actions[k].Begin?
    ensures states[j].shared.closeWhenDone
    ensures states[j].shared.inFlight == 0 ==> !states[j].shared.open
  {
    assert StepAt(states, actions, j - 1);
    InvRun(states, actions, j - 1);
    if i + 1 < j {
      StopTakesEffect(states, actions, i, j - 1);
    }
  }

  /** Without that condition it fails: a `send_` that starts erases every trace of a stop made in flight. */
  lemma BeginErasesStop(s: System, stop: Action, begin: Action)
    requires s.shared.inFlight > 0 && stop.StopCall? && begin.Begin?
    requires Enabled(s, stop) && Enabled(s, begin)
    ensures Enabled(Do(s, stop), begin) && Do(Do(s, stop), begin) == Do(s, begin)
  {
    assert Do(s, stop) == s.(shared := s.shared.(closeWhenDone := true));
    var t, alive, connects := begin.t, begin.alive, begin.connects;
    assert BeginSend(s.shared.(closeWhenDone := true), t, alive, connects) == BeginSend(s.shared, t, alive, connects);
  }

  lemma RunExtended(states: seq<System>, actions: seq<Action>, a: Action)
    requires IsRun(states, actions) && Enabled(states[|actions|], a)
    ensures IsRun(states + [Do(states[|actions|], a)], actions + [a])
  {
    var states', actions' := states + [Do(states[|actions|], a)], actions + [a];
    forall i | 0 <= i < |actions'| ensures StepAt(states', actions', i) {
      assert i < |actions| ==> StepAt(states, actions, i);
    }
  }

  /** A run of thread 0 that ends in `s`, after a stop made while a request was in flight. */
  ghost predicate StoppedInFlight(states: seq<System>, actions: seq<Action>, s: System) {
    && IsRun(states, actions) && states[|actions|] == s && |actions| >= 3
    && actions[2].StopCall? && states[2].shared.inFlight > 0
  }

  lemma StopWithOneInFlight() returns (states: seq<System>, actions: seq<Action>)
    ensures StoppedInFlight(states, actions,
              System(Shared(true, 1, Some(0), true), [[InFlight(1, false)], []], Some(0), 1, true))
  {
    var s0 := System(Shared(false, 0, None, false), [[], []], None, 0, true);
    states, actions := [s0], [];
    RunExtended(states, actions, CallSend(0));
    states, actions := states + [Do(s0, CallSend(0))], actions + [CallSend(0)];
    var s1, begin := states[1], Begin(0, false, true, true);
    assert s1.stacks[0] == [Entered(1)];
    RunExtended(states, actions, begin);
    states, actions := states + [Do(s1, begin)], actions + [begin];
    var s2 := states[2];
    assert s2.stacks[0] == [InFlight(1, false)];
    RunExtended(states, actions, StopCall(1));
    states, actions := states + [Do(s2, StopCall(1))], actions + [StopCall(1)];
    assert s2.stacks == [[InFlight(1, false)], []];
  }

  /** For instance, a redirect that starts after the stop lets the connection outlive both requests. */
  lemma StopCanBeWithdrawn() returns (states: seq<System>, actions: seq<Action>, s: System)
    ensures StoppedInFlight(states, actions, s)
    ensures s.shared.inFlight == 0 && s.shared.open
  {
    states, actions := StopWithOneInFlight();
    var f := InFlight(1, false);
    var s3, nested := states[|actions|], CallSend(0);
    RunExtended(states, actions, nested);
    var s4, begin := Do(s3, nested), Begin(0, false, true, true);
    states, actions := states + [s4], actions + [nested];
    assert s4.stacks[0] == [f, Entered(1)];
    RunExtended(states, actions, begin);
    var s5, end := Do(s4, begin), End(0, true);
    states, actions := states + [s5], actions + [begin];
    assert s5.stacks[0] == [f, f];
    RunExtended(states, actions, end);
    var s6, back := Do(s5, end), Return(0);
    states, actions := states + [s6], actions + [end];
    assert s6.stacks[0] == [f, Returned(1, true)];
    RunExtended(states, actions, back);
    var s7 := Do(s6, back);
    states, actions := states + [s7], actions + [back];
    assert s7.stacks[0] == [f];
    RunExtended(states, actions, end);
    s := Do(s7, end);
    states, actions := states + [s], actions + [end];
  }
}
