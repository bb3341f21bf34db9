/** The request gate (internal/quicx/server.go, ServeHTTP): validate, then limit, then
    dispatch, with the release deferred.  What the chosen handler then does is outside
    this model; the interleaving of concurrent requests is in `Slots`. */
module Server {
  import opened Bytes
  import opened Auth
  import opened ReplayCache
  import opened Limiter
  import opened Admission

  datatype Response =
    | RateLimited       // 429
    | DecoyPage         // not a CONNECT
    | NotFound          // a CONNECT that is not authenticated
    | UdpSession
    | TcpTunnel

  /** An HTTP request: `connect` says whether its method is CONNECT, `udp` whether it asks
      for a UDP association; `q` is what Validate gets to see. */
  datatype HttpRequest = HttpRequest(connect: bool, udp: bool, q: Request, ip: bytes)

  class Gate {
    const auth: Authenticator
    const limiter: Admitter

    ghost predicate Valid()
      reads this, auth, auth.replay, limiter, limiter.issued
    {
      auth.Valid() && limiter.Valid()
    }

    constructor (auth: Authenticator, limiter: Admitter)
      requires auth.Valid() && limiter.Valid()
      ensures Valid() && this.auth == auth && this.limiter == limiter
    {
      this.auth, this.limiter := auth, limiter;
    }

    /** What Validate would decide now, and the list it would leave. */
    ghost function ValidateStep(r: HttpRequest): (seq<Entry>, bool)
      requires auth.Valid()
      reads auth, auth.replay
    {
      OrderStep(auth.replay.order, auth.replay.capacity, auth.replay.window,
                ToAttempt(auth.lib, auth.keys, auth.maxSkew, r.q))
    }

    /** The request is a CONNECT with a token that passes every check and whose nonce the
        cache does not hold any more. */
    ghost predicate Authentic(r: HttpRequest)
      reads auth, auth.replay
    {
      && r.connect
      && var token := Admit(auth.lib, auth.keys, auth.maxSkew, r.q);
         token.Some? && !StillCached(auth.replay.order, token.value[9..25], r.q.mono)
    }

    lemma AuthenticIff(r: HttpRequest)
      requires auth.Valid()
      ensures r.connect && ValidateStep(r).1 <==> Authentic(r)
    {
      AcceptedIff(auth.lib, auth.keys, auth.maxSkew, r.q, auth.replay.order, auth.replay.capacity);
    }

    /** Only a CONNECT reaches the replay cache. */
    method Authenticate(r: HttpRequest) returns (authenticated: bool)
      requires auth.Valid()
      modifies auth.replay
      ensures auth.Valid()
      ensures authenticated == old(Authentic(r))
      ensures auth.replay.order == if r.connect then old(ValidateStep(r)).0 else old(auth.replay.order)
    {
      AuthenticIff(r);
      authenticated := false;
      if r.connect {
        authenticated := auth.Validate(r.q);
      }
    }

    /** What ServeHTTP guarantees for one request.  `p` is the bucket step taken, if any.

        - Only a CONNECT ever reaches the replay cache, and a CONNECT takes exactly one
          step of it, before any limit is applied: its nonce is used up even if the
          request is then turned away.
        - A tunnel or a UDP session is opened if and only if the semaphore has room and the
          request is authentic; which of the two, the request says.
        - Any other CONNECT that is admitted gets the same answer, whatever was wrong with
          it, and any other request that is admitted gets the decoy.
        - An authentic request is turned away only when the semaphore is full, and never
          touches a bucket; any other is admitted if and only if its bucket gives a token.
        - Every slot taken is given back. */
    method ServeHTTP(r: HttpRequest, now: int) returns (response: Response, ghost p: Probe)
      requires Valid()
      modifies auth.replay, limiter
      ensures Valid()
      ensures limiter.sem == old(limiter.sem) && limiter.held == old(limiter.held)
      ensures auth.replay.order == if r.connect then old(ValidateStep(r)).0 else old(auth.replay.order)
      ensures response == TcpTunnel <==> old(limiter.sem) < limiter.cfg.maxConcurrent && old(Authentic(r)) && !r.udp
      ensures response == UdpSession <==> old(limiter.sem) < limiter.cfg.maxConcurrent && old(Authentic(r)) && r.udp
      ensures response == NotFound <==> response != RateLimited && r.connect && !old(Authentic(r))
      ensures response == DecoyPage <==> response != RateLimited && !r.connect
      ensures old(limiter.sem) == limiter.cfg.maxConcurrent || old(Authentic(r)) ==> limiter.ips == old(limiter.ips)
      ensures old(limiter.sem) == limiter.cfg.maxConcurrent ==> response == RateLimited
      ensures old(limiter.sem) < limiter.cfg.maxConcurrent && !old(Authentic(r)) ==>
                && p.ip == r.ip && p.now == now && LegalProbe(limiter.cfg, old(limiter.ips), p)
                && var (ips', ok) := ProbeStep(limiter.cfg, old(limiter.ips), p);
                   limiter.ips == ips' && (response == RateLimited <==> !ok)
    {
      var authenticated := Authenticate(r);
      var grant;
      grant, p := limiter.Allow(r.ip, authenticated, now);
      if grant.None? {
        return RateLimited, p;
      }
      if !r.connect {
        response := DecoyPage;
      } else if !authenticated {
        response := NotFound;
      } else if r.udp {
        response := UdpSession;
      } else {
        response := TcpTunnel;
      }
      limiter.Release(grant.value);
    }
  }
}
