/** The mutual recursion of `send`, `send_`, `handle_request` and `redirect` in util/httplib.h. What the network
    does is given by functions of the number of attempts made so far. */
module Redirects {

  const MAX_AUTHORIZATIONS := 5

  datatype Request = Request(redirectCount: nat, authorizationCount: nat)

  /** The error a caller reads; `PeerClosed` is `SSLPeerCouldBeClosed_`. */
  datatype Error = Success | Connection | PeerClosed | Read | ExceedRedirectCount | Unknown

  /** Where a Location header points: nowhere usable, this client's own host, or another one. */
  datatype Location = Unusable | SameHost | OtherHost

  /** How one attempt goes once connected. */
  datatype Reply =
    | NoReply(peerClosed: bool)
    | Answer(status: int, location: Location, closes: bool)

  /** `openssl` is whether the library is built with TLS: only then is there an authentication retry and a
      peer-closed error. `credentials(k)` is whether a digest challenge can be answered. */
  datatype Env = Env(connects: nat -> bool, alive: nat -> bool, reply: nat -> Reply, credentials: nat -> bool,
                     openssl: bool, followLocation: bool, keepAlive: bool)

  /** Attempts made, whether the client's socket is open, and the shared error variable. */
  datatype World = World(attempts: nat, open: bool, error: Error)

  /** The result of a call: what it returns and assigns, and how deep sends were nested below it. `asserted` is
      whether the assertion in `send` has held. */
  datatype Sent = Sent(ret: bool, req: Request, status: int, world: World, depth: nat, asserted: bool)

  /** Every nested send makes this smaller. */
  function Budget(req: Request): nat {
    req.redirectCount +
    if req.authorizationCount < MAX_AUTHORIZATIONS then MAX_AUTHORIZATIONS - req.authorizationCount else 0
  }

  function Max(a: nat, b: nat): nat {
    if a < b then b else a
  }

  /** A call never gives back a request with more redirects or other authorizations than it got. */
  predicate NoRefund(req: Request, after: Request) {
    after.redirectCount <= req.redirectCount && after.authorizationCount == req.authorizationCount
  }

  /** The most attempts a send with budget `m` can make. */
  function MostAttempts(m: nat): nat {
    if m == 0 then 2 else 2 + 4 * MostAttempts(m - 1)
  }

  lemma {:induction false} MostAttemptsMonotone(m: nat, n: nat)
    requires m <= n
    ensures MostAttempts(m) <= MostAttempts(n)
  {
    if m < n {
      MostAttemptsMonotone(m, n - 1);
    }
  }

  function Send(req: Request, w: World, env: Env): (r: Sent)
    ensures NoRefund(req, r.req) && r.depth <= Budget(req) + 1
    decreases Budget(req), 3
  {
    var first := SendOnce(req, w, env);
    if first.world.error != PeerClosed then first
    else
      var second := SendOnce(first.req, first.world, env);
      second.(depth := Max(first.depth, second.depth), asserted := first.asserted && !first.ret && second.asserted)
  }

  /** `send_` */
  function SendOnce(req: Request, w: World, env: Env): (r: Sent)
    ensures NoRefund(req, r.req) && r.depth <= Budget(req) + 1
    decreases Budget(req), 2
  {
    var isAlive := w.open && env.alive(w.attempts);
    if !isAlive && !env.connects(w.attempts) then
      var error := if w.error == Success then Connection else w.error;
      Sent(false, req, 0, World(w.attempts + 1, false, error), 1, true)
    else
      var connected := World(w.attempts, true, if isAlive then w.error else Success);
      var h := HandleRequest(req, connected, env);
      var w' := h.world;
      var open := w'.open && env.keepAlive && h.ret;
      var error := if !h.ret && w'.error == Success then Unknown else w'.error;
      h.(world := w'.(open := open, error := error), depth := h.depth + 1)
  }

  function HandleRequest(req: Request, w: World, env: Env): (r: Sent)
    ensures NoRefund(req, r.req) && r.depth <= Budget(req)
    decreases Budget(req), 1
  {
    match env.reply(w.attempts)
    case NoReply(peerClosed) =>
      var error := if peerClosed && env.openssl then PeerClosed else Read;
      Sent(false, req, 0, World(w.attempts + 1, w.open, error), 0, true)
    case Answer(status, location, closes) =>
      var answered := Sent(true, req, status, World(w.attempts + 1, w.open && !closes, w.error), 0, true);
      var followed :=
        if 300 < status < 400 && env.followLocation then Redirect(req, status, location, answered.world, env)
        else answered;
      if env.openssl && (followed.status == 401 || followed.status == 407)
         && followed.req.authorizationCount < MAX_AUTHORIZATIONS && env.credentials(followed.world.attempts) then
        var retry := Send(followed.req.(authorizationCount := followed.req.authorizationCount + 1),
                         followed.world, env);
        Sent(retry.ret, followed.req, if retry.ret then retry.status else followed.status, retry.world,
             Max(followed.depth, retry.depth), followed.asserted && retry.asserted)
      else followed
  }

  function Redirect(req: Request, status: int, location: Location, w: World, env: Env): (r: Sent)
    ensures NoRefund(req, r.req) && r.depth <= Budget(req)
    ensures !r.ret ==> r.status == status
    decreases Budget(req), 0
  {
    if req.redirectCount == 0 then Sent(false, req, status, w.(error := ExceedRedirectCount), 0, true)
    else if location.Unusable? then Sent(false, req, status, w, 0, true)
    else
      var next := req.(redirectCount := req.redirectCount - 1);
      // another host means another client, whose socket starts closed and is not this one
      var s := Send(next, if location.OtherHost? then w.(open := false) else w, env);
      var w' := if location.OtherHost? then s.world.(open := w.open) else s.world;
      Sent(s.ret, if s.ret then s.req else req, if s.ret then s.status else status, w', s.depth, s.asserted)
  }

  // ---------- How many attempts ----------

  function Used(w: World, r: Sent): int {
    r.world.attempts - w.attempts
  }

  /** The nested sends of one frame together. */
  function NestedAttempts(m: nat): nat {
    if m == 0 then 0 else 2 * MostAttempts(m - 1)
  }

  /** Every send is bounded by its budget, even when a frame both follows a redirect and retries with
      credentials, and every frame is itself retried when the peer has closed. */
  lemma {:induction false} SendBounded(req: Request, w: World, env: Env)
    ensures 1 <= Used(w, Send(req, w, env)) <= MostAttempts(Budget(req))
    decreases Budget(req), 3
  {
    var first := SendOnce(req, w, env);
    SendOnceBounded(req, w, env);
    if first.world.error == PeerClosed {
      SendOnceBounded(first.req, first.world, env);
      BudgetShrinks(req, first.req);
      NestedMonotone(Budget(first.req), Budget(req));
    }
  }

  lemma BudgetShrinks(req: Request, after: Request)
    requires NoRefund(req, after)
    ensures Budget(after) <= Budget(req)
  {
  }

  lemma NestedMonotone(m: nat, n: nat)
    requires m <= n
    ensures NestedAttempts(m) <= NestedAttempts(n)
  {
    if m > 0 {
      MostAttemptsMonotone(m - 1, n - 1);
    }
  }

  lemma {:induction false} SendOnceBounded(req: Request, w: World, env: Env)
    ensures 1 <= Used(w, SendOnce(req, w, env)) <= 1 + NestedAttempts(Budget(req))
    decreases Budget(req), 2
  {
    var isAlive := w.open && env.alive(w.attempts);
    if isAlive || env.connects(w.attempts) {
      HandleBounded(req, World(w.attempts, true, if isAlive then w.error else Success), env);
    }
  }

  lemma {:induction false} HandleBounded(req: Request, w: World, env: Env)
    ensures 1 <= Used(w, HandleRequest(req, w, env)) <= 1 + NestedAttempts(Budget(req))
    decreases Budget(req), 1
  {
    match env.reply(w.attempts)
    case NoReply(_) =>
    case Answer(status, location, closes) =>
      var w1 := World(w.attempts + 1, w.open && !closes, w.error);
      var answered := Sent(true, req, status, w1, 0, true);
      var redirects := 300 < status < 400 && env.followLocation;
      var followed := if redirects then Redirect(req, status, location, w1, env) else answered;
      if redirects {
        RedirectBounded(req, status, location, w1, env);
      }
      if env.openssl && (followed.status == 401 || followed.status == 407)
         && followed.req.authorizationCount < MAX_AUTHORIZATIONS && env.credentials(followed.world.attempts) {
        var next := followed.req.(authorizationCount := followed.req.authorizationCount + 1);
        SendBounded(next, followed.world, env);
        MostAttemptsMonotone(Budget(next), Budget(req) - 1);
      }
  }

  lemma {:induction false} RedirectBounded(req: Request, status: int, location: Location, w: World, env: Env)
    ensures var u := Used(w, Redirect(req, status, location, w, env));
            0 <= u && (u == 0 || (Budget(req) > 0 && u <= MostAttempts(Budget(req) - 1)))
    decreases Budget(req), 0
  {
    if req.redirectCount > 0 && !location.Unusable? {
      var next := req.(redirectCount := req.redirectCount - 1);
      SendBounded(next, if location.OtherHost? then w.(open := false) else w, env);
    }
  }

  // ---------- Without TLS ----------

  /** Built without TLS there is no retry of either kind: one attempt per redirect and one more. */
  lemma {:induction false} PlainSendBounded(req: Request, w: World, env: Env)
    requires !env.openssl && w.error != PeerClosed
    ensures var r := Send(req, w, env);
            1 <= Used(w, r) <= req.redirectCount + 1 && r.world.error != PeerClosed
    decreases req.redirectCount
  {
    var isAlive := w.open && env.alive(w.attempts);
    if isAlive || env.connects(w.attempts) {
      var w0 := World(w.attempts, true, if isAlive then w.error else Success);
      var h, once := HandleRequest(req, w0, env), SendOnce(req, w, env);
      assert once.world.attempts == h.world.attempts &&
             (once.world.error == PeerClosed ==> h.world.error == PeerClosed);
      match env.reply(w0.attempts)
      case NoReply(_) =>
      case Answer(status, location, closes) =>
        var w1 := World(w0.attempts + 1, w0.open && !closes, w0.error);
        if 300 < status < 400 && env.followLocation && req.redirectCount > 0 && !location.Unusable? {
          PlainSendBounded(req.(redirectCount := req.redirectCount - 1),
                           if location.OtherHost? then w1.(open := false) else w1, env);
        }
        if 300 < status < 400 && env.followLocation {
          var r := Redirect(req, status, location, w1, env);
          assert h.world == r.world && Used(w1, r) <= req.redirectCount && r.world.error != PeerClosed;
        }
    }
  }

  // ---------- The assertion in send ----------

  /** The assertion has held, and a successful call never leaves the peer-closed error behind. */
  predicate CleanResult(r: Sent) {
    r.asserted && (r.ret ==> r.world.error != PeerClosed)
  }

  /** It always holds, because a failed attempt leaves the socket closed, so that the next one must reconnect and
      clears the error. */
  lemma {:induction false} SendAsserts(req: Request, w: World, env: Env)
    requires w.error != PeerClosed || !w.open
    ensures CleanResult(Send(req, w, env))
    decreases Budget(req), 3
  {
    var first := SendOnce(req, w, env);
    SendOnceAsserts(req, w, env);
    if first.world.error == PeerClosed {
      SendOnceAsserts(first.req, first.world, env);
    }
  }

  lemma {:induction false} SendOnceAsserts(req: Request, w: World, env: Env)
    requires w.error != PeerClosed || !w.open
    ensures var r := SendOnce(req, w, env); CleanResult(r) && (!r.ret ==> !r.world.open)
    decreases Budget(req), 2
  {
    var isAlive := w.open && env.alive(w.attempts);
    if isAlive || env.connects(w.attempts) {
      HandleAsserts(req, World(w.attempts, true, if isAlive then w.error else Success), env);
    }
  }

  lemma {:induction false} HandleAsserts(req: Request, w: World, env: Env)
    requires w.error != PeerClosed
    ensures CleanResult(HandleRequest(req, w, env))
    decreases Budget(req), 1
  {
    match env.reply(w.attempts)
    case NoReply(_) =>
    case Answer(status, location, closes) =>
      var w1 := World(w.attempts + 1, w.open && !closes, w.error);
      var answered := Sent(true, req, status, w1, 0, true);
      var redirects := 300 < status < 400 && env.followLocation;
      var followed := if redirects then Redirect(req, status, location, w1, env) else answered;
      if redirects {
        RedirectAsserts(req, status, location, w1, env);
      }
      if env.openssl && (followed.status == 401 || followed.status == 407)
         && followed.req.authorizationCount < MAX_AUTHORIZATIONS && env.credentials(followed.world.attempts) {
        SendAsserts(followed.req.(authorizationCount := followed.req.authorizationCount + 1), followed.world, env);
      }
  }

  lemma {:induction false} RedirectAsserts(req: Request, status: int, location: Location, w: World, env: Env)
    requires w.error != PeerClosed && 300 < status < 400
    ensures var r := Redirect(req, status, location, w, env);
            CleanResult(r) && (r.status == 401 || r.status == 407 ==> r.world.error != PeerClosed)
    decreases Budget(req), 0
  {
    if req.redirectCount > 0 && !location.Unusable? {
      var next := req.(redirectCount := req.redirectCount - 1);
      SendAsserts(next, if location.OtherHost? then w.(open := false) else w, env);
    }
  }
}
