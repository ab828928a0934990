/** What a request answers, read off the replies of the servers. */
module RedirectAnswers {
  import opened Redirects

  /** A redirect that can be followed. */
  predicate Redirecting(r: Reply) {
    r.Answer? && 300 < r.status < 400 && !r.location.Unusable?
  }

  predicate Challenge(r: Reply) {
    r.Answer? && (r.status == 401 || r.status == 407)
  }

  /** A reply that a request ends with. */
  predicate Final(r: Reply) {
    r.Answer? && !(300 < r.status < 400) && !Challenge(r)
  }

  /** The next `n` replies are redirects, over connections that come about. */
  ghost predicate RedirectsFor(env: Env, from: nat, n: nat) {
    forall k | from <= k < from + n :: env.connects(k) && Redirecting(env.reply(k))
  }

  /** Whether the client's own socket is open at the end: the last reply on it did not close it. */
  function KeptOpen(env: Env, from: nat, n: nat): bool
    requires forall k | from <= k <= from + n :: env.reply(k).Answer?
    decreases n
  {
    if n == 0 || env.reply(from).location.OtherHost? then env.keepAlive && !env.reply(from).closes
    else KeptOpen(env, from + 1, n - 1)
  }

  lemma FinalAnswer(req: Request, w: World, env: Env)
    requires w.error == Success && env.connects(w.attempts) && Final(env.reply(w.attempts))
    ensures var r, reply := Send(req, w, env), env.reply(w.attempts);
            r == Sent(true, req, reply.status, World(w.attempts + 1, env.keepAlive && !reply.closes, Success), 1, true)
  {
    var reply := env.reply(w.attempts);
    assert HandleRequest(req, World(w.attempts, true, Success), env) ==
           Sent(true, req, reply.status, World(w.attempts + 1, !reply.closes, Success), 0, true);
    assert SendOnce(req, w, env).world.error == Success;
  }

  /** Redirects as many as the request has left lead to the reply after them. */
  lemma {:induction false} RedirectsFollowed(req: Request, w: World, env: Env, n: nat)
    requires w.error == Success && env.followLocation && RedirectsFor(env, w.attempts, n)
    requires env.connects(w.attempts + n) && Final(env.reply(w.attempts + n)) && n <= req.redirectCount
    ensures var r := Send(req, w, env);
            r == Sent(true, req.(redirectCount := req.redirectCount - n), env.reply(w.attempts + n).status,
                      World(w.attempts + n + 1, KeptOpen(env, w.attempts, n), Success), n + 1, true)
    decreases n
  {
    if n == 0 {
      FinalAnswer(req, w, env);
    } else {
      var reply := env.reply(w.attempts);
      assert env.connects(w.attempts) && Redirecting(reply);
      var next := req.(redirectCount := req.redirectCount - 1);
      var here := World(w.attempts + 1, !reply.closes, Success);
      var there := if reply.location.OtherHost? then here.(open := false) else here;
      RedirectsFollowed(next, there, env, n - 1);
      assert there.attempts + (n - 1) == w.attempts + n;
      var inner := Send(next, there, env);
      OneRedirect(req, w, env, inner);
    }
  }

  /** One redirect, given what the request to its location answers. */
  lemma OneRedirect(req: Request, w: World, env: Env, inner: Sent)
    requires w.error == Success && env.followLocation && req.redirectCount > 0
    requires env.connects(w.attempts) && Redirecting(env.reply(w.attempts))
    requires var reply := env.reply(w.attempts);
             var here := World(w.attempts + 1, !reply.closes, Success);
             && inner == Send(req.(redirectCount := req.redirectCount - 1),
                              if reply.location.OtherHost? then here.(open := false) else here, env)
             && inner.world.error != PeerClosed && !Challenge(Answer(inner.status, Unusable, false))
    ensures var r, reply := Send(req, w, env), env.reply(w.attempts);
            && r.ret == inner.ret && r.depth == inner.depth + 1 && r.asserted == inner.asserted
            && r.world.attempts == inner.world.attempts
            && (inner.ret ==> r.req == inner.req && r.status == inner.status && r.world.error == inner.world.error)
            && (!inner.ret ==> r.req == req && r.status == reply.status
                               && r.world.error == if inner.world.error == Success then Unknown else inner.world.error)
            && r.world.open == (inner.ret && env.keepAlive &&
                                if reply.location.OtherHost? then !reply.closes else inner.world.open)
  {
    var reply := env.reply(w.attempts);
    var here := World(w.attempts + 1, !reply.closes, Success);
    var h := HandleRequest(req, World(w.attempts, true, Success), env);
    var followed := Redirect(req, reply.status, reply.location, here, env);
    assert followed.ret == inner.ret && followed.status == if inner.ret then inner.status else reply.status;
    assert h == followed;
    var once := SendOnce(req, w, env);
    assert once.world.error == if !inner.ret && inner.world.error == Success then Unknown else inner.world.error;
  }

  // ---------- Requests that fail ----------

  /** Why attempt `k` fails, with this many redirects left. */
  function Failure(env: Env, k: nat, left: nat): (e: Error)
    ensures e != PeerClosed
  {
    if !env.connects(k) then if env.alive(k) then Success else Connection
    else
      match env.reply(k)
      case NoReply(peerClosed) => if peerClosed && env.openssl then Success else Read
      case Answer(status, location, _) =>
        if !env.followLocation || status <= 300 || status >= 400 then Success
        else if left == 0 then ExceedRedirectCount
        else if location.Unusable? then Unknown
        else Success
  }

  function StatusOf(r: Reply): int {
    if r.Answer? then r.status else 0
  }

  lemma FailsAtOnce(req: Request, w: World, env: Env)
    requires w.error == Success && Failure(env, w.attempts, req.redirectCount) != Success
    ensures Send(req, w, env) ==
            Sent(false, req, if env.connects(w.attempts) then StatusOf(env.reply(w.attempts)) else 0,
                 World(w.attempts + 1, false, Failure(env, w.attempts, req.redirectCount)), 1, true)
  {
    var error := Failure(env, w.attempts, req.redirectCount);
    var reply := env.reply(w.attempts);
    if env.connects(w.attempts) {
      var h := HandleRequest(req, World(w.attempts, true, Success), env);
      if reply.Answer? {
        var here := World(w.attempts + 1, !reply.closes, Success);
        var followed := Redirect(req, reply.status, reply.location, here, env);
        var failed := if error == Unknown then here else here.(error := error);
        assert followed == Sent(false, req, reply.status, failed, 0, true);
        assert h == followed;
      }
      assert h.world.attempts == w.attempts + 1;
    }
    assert SendOnce(req, w, env).world == World(w.attempts + 1, false, error);
  }

  /** A failure after `n` redirects is reported with the first of them; so is running out of redirects. */
  lemma {:induction false} FailsAfter(req: Request, w: World, env: Env, n: nat)
    requires w.error == Success && env.followLocation && RedirectsFor(env, w.attempts, n) && n <= req.redirectCount
    requires Failure(env, w.attempts + n, req.redirectCount - n) != Success
    ensures Send(req, w, env) ==
            Sent(false, req, if env.connects(w.attempts) then StatusOf(env.reply(w.attempts)) else 0,
                 World(w.attempts + n + 1, false, Failure(env, w.attempts + n, req.redirectCount - n)), n + 1, true)
    decreases n
  {
    if n == 0 {
      FailsAtOnce(req, w, env);
    } else {
      var reply := env.reply(w.attempts);
      assert env.connects(w.attempts) && Redirecting(reply);
      var next := req.(redirectCount := req.redirectCount - 1);
      var here := World(w.attempts + 1, !reply.closes, Success);
      var there := if reply.location.OtherHost? then here.(open := false) else here;
      assert there.attempts + (n - 1) == w.attempts + n;
      FailsAfter(next, there, env, n - 1);
      FailedRedirect(req, w, env, Send(next, there, env));
    }
  }

  lemma FailedRedirect(req: Request, w: World, env: Env, inner: Sent)
    requires w.error == Success && env.followLocation && req.redirectCount > 0
    requires env.connects(w.attempts) && Redirecting(env.reply(w.attempts))
    requires var reply := env.reply(w.attempts);
             var here := World(w.attempts + 1, !reply.closes, Success);
             && inner == Send(req.(redirectCount := req.redirectCount - 1),
                              if reply.location.OtherHost? then here.(open := false) else here, env)
             && !inner.ret && inner.world.error != PeerClosed && inner.world.error != Success
    ensures Send(req, w, env) ==
            Sent(false, req, env.reply(w.attempts).status, World(inner.world.attempts, false, inner.world.error),
                 inner.depth + 1, inner.asserted)
  {
    var reply := env.reply(w.attempts);
    var here := World(w.attempts + 1, !reply.closes, Success);
    var followed := Redirect(req, reply.status, reply.location, here, env);
    assert followed.status == reply.status && !followed.ret;
    assert HandleRequest(req, World(w.attempts, true, Success), env) == followed;
    assert SendOnce(req, w, env).world.error == inner.world.error;
  }

  /** More redirects than the request has left. */
  lemma TooManyRedirects(req: Request, w: World, env: Env)
    requires w.error == Success && env.followLocation && RedirectsFor(env, w.attempts, req.redirectCount + 1)
    ensures var r := Send(req, w, env);
            && !r.ret && r.world.error == ExceedRedirectCount && r.req == req
            && r.world.attempts == w.attempts + req.redirectCount + 1 && r.status == env.reply(w.attempts).status
  {
    var last := w.attempts + req.redirectCount;
    assert env.connects(last) && Redirecting(env.reply(last));
    assert env.connects(w.attempts) && Redirecting(env.reply(w.attempts));
    FailsAfter(req, w, env, req.redirectCount);
  }

  // ---------- Second attempts ----------

  /** A challenge that is answered leads to the reply to the answer. */
  lemma OneChallenge(req: Request, w: World, env: Env, retry: Sent)
    requires w.error == Success && env.openssl && req.authorizationCount < MAX_AUTHORIZATIONS
    requires env.connects(w.attempts) && Challenge(env.reply(w.attempts)) && env.credentials(w.attempts + 1)
    requires retry == Send(req.(authorizationCount := req.authorizationCount + 1),
                           World(w.attempts + 1, !env.reply(w.attempts).closes, Success), env)
    requires retry.ret && retry.world.error == Success
    ensures Send(req, w, env) ==
            Sent(true, req, retry.status, retry.world.(open := retry.world.open && env.keepAlive),
                 retry.depth + 1, retry.asserted)
  {
    var reply := env.reply(w.attempts);
    assert HandleRequest(req, World(w.attempts, true, Success), env) ==
           Sent(true, req, retry.status, retry.world, retry.depth, retry.asserted);
    assert SendOnce(req, w, env).world.error == Success;
  }

  /** As many challenges as there are answers left lead to the reply after them; one more is the answer itself. */
  lemma {:induction false} ChallengesAnswered(req: Request, w: World, env: Env, n: nat)
    requires w.error == Success && env.openssl && req.authorizationCount + n <= MAX_AUTHORIZATIONS
    requires forall k | w.attempts <= k < w.attempts + n ::
               env.connects(k) && Challenge(env.reply(k)) && env.credentials(k + 1)
    requires var last := w.attempts + n;
             && env.connects(last)
             && (Final(env.reply(last)) ||
                 (Challenge(env.reply(last)) &&
                  (req.authorizationCount + n == MAX_AUTHORIZATIONS || !env.credentials(last + 1))))
    ensures var r, last := Send(req, w, env), env.reply(w.attempts + n);
            var after := World(w.attempts + n + 1, env.keepAlive && !last.closes, Success);
            r == Sent(true, req, last.status, after, n + 1, true)
    decreases n
  {
    if n == 0 {
      LastReply(req, w, env);
    } else {
      var next := req.(authorizationCount := req.authorizationCount + 1);
      var here := World(w.attempts + 1, !env.reply(w.attempts).closes, Success);
      assert env.connects(w.attempts) && Challenge(env.reply(w.attempts)) && env.credentials(w.attempts + 1);
      assert here.attempts + (n - 1) == w.attempts + n;
      ChallengesAnswered(next, here, env, n - 1);
      OneChallenge(req, w, env, Send(next, here, env));
    }
  }

  lemma LastReply(req: Request, w: World, env: Env)
    requires w.error == Success && env.openssl && env.connects(w.attempts)
    requires var reply := env.reply(w.attempts);
             || Final(reply)
             || (Challenge(reply) &&
                 (req.authorizationCount >= MAX_AUTHORIZATIONS || !env.credentials(w.attempts + 1)))
    ensures var r, reply := Send(req, w, env), env.reply(w.attempts);
            r == Sent(true, req, reply.status, World(w.attempts + 1, env.keepAlive && !reply.closes, Success), 1, true)
  {
    var reply := env.reply(w.attempts);
    assert HandleRequest(req, World(w.attempts, true, Success), env) ==
           Sent(true, req, reply.status, World(w.attempts + 1, !reply.closes, Success), 0, true);
    assert SendOnce(req, w, env).world.error == Success;
  }

  /** When the peer seems to have closed, the request is made once more and no more. */
  lemma PeerClosedTriedAgain(req: Request, w: World, env: Env)
    requires w.error == Success && env.openssl && env.connects(w.attempts) && env.reply(w.attempts) == NoReply(true)
    requires env.connects(w.attempts + 1)
    ensures var r, again := Send(req, w, env), env.reply(w.attempts + 1);
            && (Final(again) ==> r.ret && r.status == again.status && r.world.error == Success
                                 && r.world.attempts == w.attempts + 2)
            && (again == NoReply(true) ==> !r.ret && r.world.error == PeerClosed && r.world.attempts == w.attempts + 2)
            && r.req.authorizationCount == req.authorizationCount
  {
    var first := SendOnce(req, w, env);
    assert HandleRequest(req, World(w.attempts, true, Success), env) ==
           Sent(false, req, 0, World(w.attempts + 1, true, PeerClosed), 0, true);
    assert first == Sent(false, req, 0, World(w.attempts + 1, false, PeerClosed), 1, true);
    var h := HandleRequest(req, World(w.attempts + 1, true, Success), env);
    assert Final(env.reply(w.attempts + 1)) ==> h.ret && h.world.error == Success;
  }
}
