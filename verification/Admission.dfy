/** The limiter object (internal/quicx/limiter.go): a counting semaphore whose grants can
    be released once, in front of the per-IP buckets. */
module Admission {
  import opened Bytes
  import opened Limiter

  /** The release closure of one Allow call and its sync.Once. */
  class Grant {
    var released: bool

    constructor ()
      ensures !released
    {
      released := false;
    }
  }

  class Admitter {
    const cfg: Config
    var sem: nat                 // occupancy of the semaphore channel
    var ips: Buckets
    ghost var issued: set<Grant>
    ghost var held: set<Grant>   // issued and not released

    /** The semaphore holds one slot for each unreleased grant, and no others. */
    ghost predicate Valid()
      reads this, issued
    {
      && cfg.Valid() && BucketsInv(cfg, ips)
      && held <= issued && (forall g | g in issued :: g.released <==> g !in held)
      && sem == |held| <= cfg.maxConcurrent
    }

    constructor (maxConcurrent: int, burst: int, window: int, maxTracked: int)
      ensures Valid() && sem == 0 && ips == map[] && issued == {}
      ensures cfg == Config(if maxConcurrent <= 0 then 128 else maxConcurrent,
                            if burst <= 0 then 20 else burst,
                            if window <= 0 then 60_000_000_000 else window,
                            if maxTracked <= 0 then 4096 else maxTracked)
    {
      cfg := Config(if maxConcurrent <= 0 then 128 else maxConcurrent,
                    if burst <= 0 then 20 else burst,
                    if window <= 0 then 60_000_000_000 else window,
                    if maxTracked <= 0 then 4096 else maxTracked);
      sem, ips, issued, held := 0, map[], {}, {};
    }

    /** evictOldestIP, over an order Go chooses. */
    method EvictOldestIP() returns (ghost order: seq<bytes>)
      requires ips != map[]
      modifies `ips
      ensures IsOrder(old(ips), order) && ips == Evict(old(ips), order)
    {
      var oldestKey: bytes, oldestTime := [], 0;
      var unvisited := ips.Keys;
      order := [];
      while unvisited != {}
        invariant ips == old(ips) && Visited(ips, order, unvisited)
        invariant (oldestKey, oldestTime) == Scan(ips, order)
        decreases unvisited
      {
        var key :| key in unvisited;
        VisitNext(ips, order, unvisited, key);
        unvisited := unvisited - {key};
        order := order + [key];
        if oldestKey == [] || ips[key].lastSeen < oldestTime {
          oldestKey, oldestTime := key, ips[key].lastSeen;
        }
      }
      ips := ips - {oldestKey};
    }

    /** Find the caller's bucket, or open one, evicting if the map is full. */
    method Ensure(ip: bytes, now: int) returns (ghost p: Probe)
      requires cfg.Valid()
      modifies `ips
      ensures p.ip == ip && p.now == now && LegalProbe(cfg, old(ips), p)
      ensures ips == Track(cfg, old(ips), p)
    {
      p := Probe(ip, now, []);
      if ip !in ips {
        if |ips| >= cfg.maxTracked {
          ghost var order := EvictOldestIP();
          p := p.(order := order);
        }
        ips := ips[ip := Bucket(cfg.burst as real, now, 0)];
      }
    }

    /** Refill a bucket and take a token from it. */
    method TakeToken(before: Bucket, now: int) returns (state: Bucket, ok: bool)
      requires cfg.Valid()
      ensures (state, ok) == Charge(cfg, before, now)
    {
      state := before;
      if now > state.updated {
        var tokens := state.tokens + Earned(cfg, now - state.updated);
        state := Bucket(if tokens > cfg.burst as real then cfg.burst as real else tokens, now, state.lastSeen);
      }
      state := state.(lastSeen := now);
      if state.tokens < 1.0 {
        return state, false;
      }
      state := state.(tokens := state.tokens - 1.0);
      return state, true;
    }

    /** The locked part of Allow takes one step of the bucket model. */
    method Spend(ip: bytes, now: int) returns (ok: bool, ghost p: Probe)
      requires cfg.Valid() && BucketsInv(cfg, ips)
      modifies `ips
      ensures BucketsInv(cfg, ips)
      ensures p.ip == ip && p.now == now && LegalProbe(cfg, old(ips), p)
      ensures (ips, ok) == ProbeStep(cfg, old(ips), p)
    {
      p := Ensure(ip, now);
      ProbeKeepsInv(cfg, old(ips), p);
      var state;
      state, ok := TakeToken(ips[ip], now);
      ips := ips[ip := state];
    }

    /** Allow: refused without effect when the semaphore is full; an authenticated call
        gets a grant and leaves every bucket alone; any other gets one exactly when its
        bucket has a token, and otherwise gives its slot back. */
    method Allow(ip: bytes, authenticated: bool, now: int) returns (r: Option<Grant>, ghost p: Probe)
      requires Valid()
      modifies this
      ensures Valid()
      ensures old(sem) == cfg.maxConcurrent ==> r == None && ips == old(ips)
      ensures old(sem) < cfg.maxConcurrent && authenticated ==> r.Some? && ips == old(ips)
      ensures old(sem) < cfg.maxConcurrent && !authenticated ==>
                && p.ip == ip && p.now == now && LegalProbe(cfg, old(ips), p)
                && (ips, r.Some?) == ProbeStep(cfg, old(ips), p)
      ensures r.Some? ==> fresh(r.value) && held == old(held) + {r.value} && sem == old(sem) + 1
      ensures r.None? ==> held == old(held) && sem == old(sem)
      ensures old(issued) <= issued && fresh(issued - old(issued)) && (r.Some? ==> r.value in issued)
    {
      p := Probe(ip, now, []);
      if sem == cfg.maxConcurrent {
        return None, p;
      }
      var g := new Grant();
      sem := sem + 1;
      issued, held := issued + {g}, held + {g};
      if authenticated {
        return Some(g), p;
      }
      var ok;
      ok, p := Spend(ip, now);
      if !ok {
        Release(g);
        return None, p;
      }
      return Some(g), p;
    }

    /** A release takes the grant's slot out of the channel -- which then holds one, so it
        never blocks -- and any further release of the same grant does nothing. */
    method Release(g: Grant)
      requires Valid() && g in issued
      modifies this`sem, this`held, g
      ensures Valid() && g.released
      ensures held == old(held) - {g}
      ensures sem == old(sem) - if old(g.released) then 0 else 1
    {
      if !g.released {
        assert sem > 0;
        g.released := true;
        sem := sem - 1;
        held := held - {g};
      }
    }
  }
}
