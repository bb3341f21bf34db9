/** Rate limiting (internal/quicx/limiter.go): the per-IP token bucket over a bounded map,
    its eviction scan, and runs of calls.  The limiter object is in `Admission`.

    Tokens are reals (the source uses float64; rounding is not modelled) and time is in
    nanoseconds.  Clock readings are taken before the lock, so they may come out of order. */
module Limiter {
  import opened Bytes

  datatype Config = Config(maxConcurrent: nat, burst: nat, window: nat, maxTracked: nat) {
    predicate Valid() {
      maxConcurrent > 0 && burst > 0 && window > 0 && maxTracked > 0
    }
  }

  datatype Bucket = Bucket(tokens: real, updated: int, lastSeen: int)

  type Buckets = map<bytes, Bucket>

  // ---------- One bucket ----------

  /** The tokens that `elapsed` earns: burst * elapsed / window. */
  function Earned(cfg: Config, elapsed: int): real
    requires cfg.Valid()
  {
    elapsed as real / cfg.window as real * cfg.burst as real
  }

  function Refill(cfg: Config, b: Bucket, now: int): Bucket
    requires cfg.Valid()
  {
    if now > b.updated then
      var tokens := b.tokens + Earned(cfg, now - b.updated);
      Bucket(if tokens > cfg.burst as real then cfg.burst as real else tokens, now, b.lastSeen)
    else b
  }

  function Charge(cfg: Config, b: Bucket, now: int): (Bucket, bool)
    requires cfg.Valid()
  {
    var b := Refill(cfg, b, now).(lastSeen := now);
    if b.tokens < 1.0 then (b, false) else (b.(tokens := b.tokens - 1.0), true)
  }

  predicate InRange(cfg: Config, b: Bucket) {
    0.0 <= b.tokens <= cfg.burst as real
  }

  lemma ChargeSpends(cfg: Config, b: Bucket, now: int)
    requires cfg.Valid() && InRange(cfg, b)
    ensures var (b', ok) := Charge(cfg, b, now);
            && InRange(cfg, b')
            && b.updated <= b'.updated
            && b'.tokens + (if ok then 1.0 else 0.0) <= b.tokens + Earned(cfg, b'.updated - b.updated)
  {
  }

  lemma EarnedTimesWindow(cfg: Config, elapsed: int)
    requires cfg.Valid()
    ensures Earned(cfg, elapsed) * cfg.window as real == elapsed as real * cfg.burst as real
  {
    var q, w, n := elapsed as real / cfg.window as real, cfg.window as real, cfg.burst as real;
    assert q * w == elapsed as real;
    assert (q * n) * w == (q * w) * n;
  }

  /** Elapsed time earns tokens in proportion, up to the burst. */
  lemma RefillExact(cfg: Config, b: Bucket, now: int)
    requires cfg.Valid() && InRange(cfg, b) && now > b.updated
    ensures var full, earned := (cfg.burst * cfg.window) as real,
                                b.tokens * cfg.window as real + ((now - b.updated) * cfg.burst) as real;
            Refill(cfg, b, now).tokens * cfg.window as real == if earned > full then full else earned
    ensures Refill(cfg, b, now).updated == now
  {
    var w, n := cfg.window as real, cfg.burst as real;
    var tokens := b.tokens + Earned(cfg, now - b.updated);
    EarnedTimesWindow(cfg, now - b.updated);
    assert tokens * w == b.tokens * w + Earned(cfg, now - b.updated) * w;
    Products(cfg, now - b.updated);
    Cancel(tokens, n, w);
  }

  lemma Products(cfg: Config, elapsed: int)
    ensures (elapsed * cfg.burst) as real == elapsed as real * cfg.burst as real
    ensures (cfg.burst * cfg.window) as real == cfg.burst as real * cfg.window as real
  {
  }

  lemma Cancel(x: real, y: real, w: real)
    requires w > 0.0
    ensures x > y <==> x * w > y * w
  {
    assert (x - y) * w == x * w - y * w;
    if x > y {
      assert (x - y) * w > 0.0;
    } else {
      assert (y - x) * w >= 0.0;
    }
  }

  /** Exactly when a call is admitted: it has a token, or the time since the bucket's
      clock has earned what is missing of one. */
  lemma ChargeIff(cfg: Config, b: Bucket, now: int)
    requires cfg.Valid() && InRange(cfg, b)
    ensures Charge(cfg, b, now).1 <==>
              if now <= b.updated then b.tokens >= 1.0
              else b.tokens * cfg.window as real + ((now - b.updated) * cfg.burst) as real >= cfg.window as real
  {
    if now > b.updated {
      var w, earned := cfg.window as real, b.tokens * cfg.window as real + ((now - b.updated) * cfg.burst) as real;
      var tokens := Refill(cfg, b, now).tokens;
      RefillExact(cfg, b, now);
      Cancel(1.0, tokens, w);
      Products(cfg, 0);
      ScaledBurst(cfg);
    }
  }

  lemma ScaledBurst(cfg: Config)
    requires cfg.Valid()
    ensures (cfg.burst * cfg.window) as real >= cfg.window as real
  {
    assert cfg.burst * cfg.window >= cfg.window;
  }

  lemma PositiveFactor(x: int, n: nat, w: nat)
    requires x * n >= w > 0
    ensures x > 0
  {
  }

  /** Time enough for one token is enough. */
  lemma EarnsToken(cfg: Config, b: Bucket, now: int)
    requires cfg.Valid() && InRange(cfg, b) && (now - b.updated) * cfg.burst >= cfg.window
    ensures Charge(cfg, b, now).1
  {
    PositiveFactor(now - b.updated, cfg.burst, cfg.window);
    ChargeIff(cfg, b, now);
    assert b.tokens * cfg.window as real >= 0.0;
  }

  /** A bucket that has been idle for a whole window is full again. */
  lemma FullAfterWindow(cfg: Config, b: Bucket, now: int)
    requires cfg.Valid() && InRange(cfg, b) && now >= b.updated + cfg.window
    ensures Charge(cfg, b, now) == (Bucket(cfg.burst as real - 1.0, now, now), true)
  {
    WindowEarnsBurst(cfg, now - b.updated);
    assert Refill(cfg, b, now) == Bucket(cfg.burst as real, now, b.lastSeen);
  }

  lemma WindowEarnsBurst(cfg: Config, elapsed: int)
    requires cfg.Valid() && elapsed >= cfg.window
    ensures Earned(cfg, elapsed) >= cfg.burst as real
  {
    var windows := elapsed as real / cfg.window as real;
    AtLeastOne(elapsed as real, cfg.window as real);
    ScaledUp(windows, cfg.burst as real);
  }

  lemma AtLeastOne(x: real, y: real)
    requires x >= y > 0.0
    ensures x / y >= 1.0
  {
    var q := x / y;
    assert q * y == x;
    if q < 1.0 {
      ScaledDown(q, y);
    }
  }

  lemma ScaledUp(x: real, y: real)
    requires x >= 1.0 && y >= 0.0
    ensures x * y >= y
  {
    assert (x - 1.0) * y >= 0.0;
  }

  lemma ScaledDown(x: real, y: real)
    requires x < 1.0 && y > 0.0
    ensures x * y < y
  {
    assert (1.0 - x) * y > 0.0;
  }

  /** A bucket after the first n charges, and whether the n-th was admitted. */
  function Charges(cfg: Config, b: Bucket, nows: seq<int>, n: nat): (Bucket, bool)
    requires cfg.Valid() && 0 < n <= |nows|
  {
    Charge(cfg, if n == 1 then b else Charges(cfg, b, nows, n - 1).0, nows[n - 1])
  }

  /** A new IP gets exactly its burst before the clock moves on: of the calls made no
      later than the bucket was opened, the n-th is admitted if and only if n <= burst. */
  lemma {:induction false} ExactBurst(cfg: Config, b: Bucket, nows: seq<int>, n: nat)
    requires cfg.Valid() && b.tokens == cfg.burst as real && 0 < n <= |nows|
    requires forall i :: 0 <= i < |nows| ==> nows[i] <= b.updated
    ensures var (b', ok) := Charges(cfg, b, nows, n);
            && (ok <==> n <= cfg.burst)
            && b'.tokens == (if n <= cfg.burst then cfg.burst - n else 0) as real
            && b'.updated == b.updated
  {
    if n > 1 {
      ExactBurst(cfg, b, nows, n - 1);
    }
  }

  // ---------- The eviction scan ----------

  /** evictOldestIP's loop over one iteration order: the empty string stands for "none
      yet". */
  function Scan(ips: Buckets, order: seq<bytes>): (best: (bytes, int))
    requires forall i :: 0 <= i < |order| ==> order[i] in ips
    ensures order != [] ==> best.0 in order && best.1 == ips[best.0].lastSeen
    ensures order == [] ==> best == ([], 0)
  {
    if order == [] then ([], 0)
    else
      var n := |order| - 1;
      var best := Scan(ips, order[..n]);
      if best.0 == [] || ips[order[n]].lastSeen < best.1 then (order[n], ips[order[n]].lastSeen) else best
  }

  /** An order in which a Go map can be iterated. */
  ghost predicate IsOrder(ips: Buckets, order: seq<bytes>) {
    && (forall i :: 0 <= i < |order| ==> order[i] in ips)
    && (forall key | key in ips :: key in order)
    && (forall i, j :: 0 <= i < j < |order| ==> order[i] != order[j])
  }

  /** The scan has seen `order` and the rest of the map is `unvisited`. */
  ghost predicate Visited(ips: Buckets, order: seq<bytes>, unvisited: set<bytes>) {
    && (forall i :: 0 <= i < |order| ==> order[i] in ips && order[i] !in unvisited)
    && (forall key | key in ips :: key in order || key in unvisited)
    && (forall i, j :: 0 <= i < j < |order| ==> order[i] != order[j])
    && unvisited <= ips.Keys
  }

  /** One iteration of the loop. */
  lemma VisitNext(ips: Buckets, order: seq<bytes>, unvisited: set<bytes>, key: bytes)
    requires Visited(ips, order, unvisited) && key in unvisited
    ensures Visited(ips, order + [key], unvisited - {key})
    ensures var best := Scan(ips, order);
            Scan(ips, order + [key])
            == if best.0 == [] || ips[key].lastSeen < best.1 then (key, ips[key].lastSeen) else best
  {
    assert (order + [key])[..|order|] == order;
  }

  ghost predicate IsOldest(ips: Buckets, key: bytes) {
    key in ips && forall k | k in ips :: ips[key].lastSeen <= ips[k].lastSeen
  }

  /** Is the entry of the empty address, if any, out of the scan's way? */
  ghost predicate ScanSafe(ips: Buckets) {
    [] !in ips || (exists k :: k in ips && k != [] && ips[k].lastSeen <= ips[[]].lastSeen) || ips.Keys == {[]}
  }

  lemma {:induction false} ScanWithoutEmpty(ips: Buckets, order: seq<bytes>)
    requires [] !in ips && forall i :: 0 <= i < |order| ==> order[i] in ips
    ensures forall k | k in order :: Scan(ips, order).1 <= ips[k].lastSeen
  {
    if order != [] {
      var n := |order| - 1;
      ScanWithoutEmpty(ips, order[..n]);
      assert order == order[..n] + [order[n]];
    }
  }

  /** With an entry for the empty address, the scan forgets only entries younger than it,
      and keeps below any rival that is at least as old. */
  lemma {:induction false} ScanWithEmpty(ips: Buckets, order: seq<bytes>, rival: bytes)
    requires [] in ips && rival in ips && rival != [] && ips[rival].lastSeen <= ips[[]].lastSeen
    requires forall i :: 0 <= i < |order| ==> order[i] in ips
    ensures var t := ips[[]].lastSeen;
            var best := Scan(ips, order);
            && (forall k | k in order :: best.1 <= ips[k].lastSeen || t <= ips[k].lastSeen)
            && (rival in order ==> best.0 != [] && best.1 <= t)
  {
    if order != [] {
      var n := |order| - 1;
      ScanWithEmpty(ips, order[..n], rival);
      assert order == order[..n] + [order[n]];
    }
  }

  lemma {:induction false} ScanAfterEmpty(ips: Buckets, order: seq<bytes>)
    requires forall i :: 0 <= i < |order| ==> order[i] in ips
    requires |order| > 1 && order[0] == [] && forall i :: 0 < i < |order| ==> order[i] != []
    ensures Scan(ips, order).0 != []
  {
  }

  /** Any finite set can be listed without repetition. */
  lemma {:induction false} Listing(keys: set<bytes>) returns (order: seq<bytes>)
    ensures forall k :: k in order <==> k in keys
    ensures forall i, j :: 0 <= i < j < |order| ==> order[i] != order[j]
    decreases |keys|
  {
    if keys == {} {
      order := [];
    } else {
      var k :| k in keys;
      order := Listing(keys - {k});
      order := [k] + order;
    }
  }

  /** An iteration order that visits the empty address first. */
  lemma EmptyFirst(ips: Buckets, other: bytes) returns (order: seq<bytes>)
    requires [] in ips && other in ips && other != []
    ensures IsOrder(ips, order) && |order| > 1 && order[0] == [] && forall i :: 0 < i < |order| ==> order[i] != []
  {
    var others := Listing(ips.Keys - {[]});
    order := [[]] + others;
    forall i | 0 <= i < |others| ensures others[i] in ips && others[i] != [] {
      assert others[i] in others;
    }
    forall key | key in ips ensures key in order {
      assert key == [] || key in others;
    }
    assert other in others;
  }

  /** Oldest-first eviction, exactly: whatever order Go iterates the map in, the evicted
      entry is one with the oldest lastSeen, if and only if the empty address is not
      tracked, or is not strictly older than all others, or is alone. */
  lemma EvictsOldestIff(ips: Buckets)
    requires ips != map[]
    ensures (forall order | IsOrder(ips, order) :: IsOldest(ips, Scan(ips, order).0)) <==> ScanSafe(ips)
  {
    if ScanSafe(ips) {
      forall order | IsOrder(ips, order) ensures IsOldest(ips, Scan(ips, order).0) {
        ScanIsOldest(ips, order);
      }
    } else {
      var other :| other in ips && other != [];
      var order := EmptyFirst(ips, other);
      ScanAfterEmpty(ips, order);
      assert !IsOldest(ips, Scan(ips, order).0);
    }
  }

  /** Where it fails: the empty address, though oldest, is passed over and a younger entry
      goes. */
  lemma EvictsYounger(x: bytes, elder: Bucket, young: Bucket)
    requires x != [] && elder.lastSeen < young.lastSeen
    ensures var ips: Buckets := map[[] := elder, x := young];
            IsOrder(ips, [[], x]) && Scan(ips, [[], x]).0 == x && !IsOldest(ips, x)
  {
  }

  lemma ScanIsOldest(ips: Buckets, order: seq<bytes>)
    requires ips != map[] && ScanSafe(ips) && IsOrder(ips, order)
    ensures IsOldest(ips, Scan(ips, order).0)
  {
    var key :| key in ips;
    assert key in order;
    if [] !in ips {
      ScanWithoutEmpty(ips, order);
    } else if ips.Keys == {[]} {
      assert forall k | k in ips :: k == [];
    } else {
      var rival :| rival in ips && rival != [] && ips[rival].lastSeen <= ips[[]].lastSeen;
      ScanWithEmpty(ips, order, rival);
      assert rival in order;
    }
  }

  // ---------- The map of buckets ----------

  /** One unauthenticated call that got a semaphore slot; `order` is the iteration order
      should an entry have to be evicted. */
  datatype Probe = Probe(ip: bytes, now: int, order: seq<bytes>)

  ghost predicate LegalProbe(cfg: Config, ips: Buckets, p: Probe) {
    p.ip !in ips && |ips| >= cfg.maxTracked ==> IsOrder(ips, p.order)
  }

  function Evict(ips: Buckets, order: seq<bytes>): Buckets
    requires forall i :: 0 <= i < |order| ==> order[i] in ips
  {
    ips - {Scan(ips, order).0}
  }

  /** The map with a bucket for the caller's IP. */
  function Track(cfg: Config, ips: Buckets, p: Probe): (r: Buckets)
    requires LegalProbe(cfg, ips, p)
    ensures p.ip in r
  {
    if p.ip in ips then ips
    else (if |ips| >= cfg.maxTracked then Evict(ips, p.order) else ips)[p.ip := Bucket(cfg.burst as real, p.now, 0)]
  }

  function ProbeStep(cfg: Config, ips: Buckets, p: Probe): (Buckets, bool)
    requires cfg.Valid() && LegalProbe(cfg, ips, p)
  {
    var tracked := Track(cfg, ips, p);
    var (b, ok) := Charge(cfg, tracked[p.ip], p.now);
    (tracked[p.ip := b], ok)
  }

  ghost predicate BucketsInv(cfg: Config, ips: Buckets) {
    |ips| <= cfg.maxTracked && forall ip | ip in ips :: InRange(cfg, ips[ip])
  }

  lemma ProbeKeepsInv(cfg: Config, ips: Buckets, p: Probe)
    requires cfg.Valid() && BucketsInv(cfg, ips) && LegalProbe(cfg, ips, p)
    ensures BucketsInv(cfg, ProbeStep(cfg, ips, p).0)
  {
  }

  /** One call and the map: an IP that is not tracked gets a full bucket and is admitted;
      an entry is dropped only to make room for it in a full map, an oldest one where the
      scan is right; no other entry changes. */
  lemma ProbeIsLocal(cfg: Config, ips: Buckets, p: Probe)
    requires cfg.Valid() && LegalProbe(cfg, ips, p)
    ensures var (ips', ok) := ProbeStep(cfg, ips, p);
            && p.ip in ips'
            && (p.ip !in ips ==> ok && ips'[p.ip] == Bucket((cfg.burst - 1) as real, p.now, p.now))
            && (forall ip | ip in ips' && ip != p.ip :: ip in ips && ips'[ip] == ips[ip])
            && (forall ip | ip in ips && ip !in ips' ::
                  p.ip !in ips && |ips| >= cfg.maxTracked && (ScanSafe(ips) ==> IsOldest(ips, ip)))
  {
    if p.ip !in ips && |ips| >= cfg.maxTracked && ScanSafe(ips) {
      assert ips.Keys != {};
      ScanIsOldest(ips, p.order);
    }
  }

  // ---------- Runs ----------

  /** Call k takes the buckets from states[k] to states[k+1], with an eviction order Go
      can use. */
  ghost predicate StepAt(cfg: Config, states: seq<Buckets>, probes: seq<Probe>, k: nat)
    requires cfg.Valid() && |states| == |probes| + 1 && k < |probes|
  {
    LegalProbe(cfg, states[k], probes[k]) && states[k + 1] == ProbeStep(cfg, states[k], probes[k]).0
  }

  ghost predicate IsRun(cfg: Config, states: seq<Buckets>, probes: seq<Probe>)
    requires cfg.Valid()
  {
    && |states| == |probes| + 1
    && BucketsInv(cfg, states[0])
    && forall k :: 0 <= k < |probes| ==> StepAt(cfg, states, probes, k)
  }

  ghost predicate AdmittedAt(cfg: Config, states: seq<Buckets>, probes: seq<Probe>, ip: bytes, k: nat)
    requires cfg.Valid() && |states| == |probes| + 1 && k < |probes|
  {
    probes[k].ip == ip && LegalProbe(cfg, states[k], probes[k]) && ProbeStep(cfg, states[k], probes[k]).1
  }

  /** How many of the first k calls were from `ip` and admitted. */
  ghost function Admitted(cfg: Config, states: seq<Buckets>, probes: seq<Probe>, ip: bytes, k: nat): nat
    requires cfg.Valid() && |states| == |probes| + 1 && k <= |probes|
  {
    if k == 0 then 0
    else Admitted(cfg, states, probes, ip, k - 1) + if AdmittedAt(cfg, states, probes, ip, k - 1) then 1 else 0
  }

  lemma RunStepInv(cfg: Config, states: seq<Buckets>, probes: seq<Probe>, k: nat)
    requires cfg.Valid() && IsRun(cfg, states, probes) && k < |probes| && BucketsInv(cfg, states[k])
    ensures BucketsInv(cfg, states[k + 1])
  {
    assert StepAt(cfg, states, probes, k);
    ProbeKeepsInv(cfg, states[k], probes[k]);
  }

  /** In every run the map stays bounded and every bucket in range. */
  lemma {:induction false} RunKeepsInv(cfg: Config, states: seq<Buckets>, probes: seq<Probe>, k: nat)
    requires cfg.Valid() && IsRun(cfg, states, probes) && k <= |probes|
    ensures BucketsInv(cfg, states[k])
  {
    if k > 0 {
      RunKeepsInv(cfg, states, probes, k - 1);
      RunStepInv(cfg, states, probes, k - 1);
    }
  }

  /** The bucket's clock is where it was at the start, or at the reading of a call of its
      own. */
  ghost predicate Clocked(states: seq<Buckets>, probes: seq<Probe>, ip: bytes, k: nat)
    requires |states| == |probes| + 1 && k <= |probes| && ip in states[k]
  {
    || (ip in states[0] && states[k][ip].updated == states[0][ip].updated)
    || exists i :: 0 <= i < k && probes[i].ip == ip && states[k][ip].updated == probes[i].now
  }

  lemma ClockStep(cfg: Config, states: seq<Buckets>, probes: seq<Probe>, ip: bytes, k: nat)
    requires cfg.Valid() && IsRun(cfg, states, probes) && k < |probes| && ip in states[k + 1]
    ensures if probes[k].ip != ip then ip in states[k] && states[k + 1][ip] == states[k][ip]
            else states[k + 1][ip].lastSeen == probes[k].now
                 && (states[k + 1][ip].updated == probes[k].now
                     || (ip in states[k] && states[k + 1][ip].updated == states[k][ip].updated))
  {
    assert StepAt(cfg, states, probes, k);
  }

  lemma {:induction false} ClockIsACall(cfg: Config, states: seq<Buckets>, probes: seq<Probe>, ip: bytes, k: nat)
    requires cfg.Valid() && IsRun(cfg, states, probes) && k <= |probes| && ip in states[k]
    ensures Clocked(states, probes, ip, k)
  {
    if k > 0 {
      ClockStep(cfg, states, probes, ip, k - 1);
      if ip in states[k - 1] {
        ClockIsACall(cfg, states, probes, ip, k - 1);
      }
    }
  }

  /** A token is earned between the two readings. */
  predicate FarApart(cfg: Config, earlier: int, later: int) {
    (later - earlier) * cfg.burst >= cfg.window
  }

  /** Every call of the IP comes at least window/burst after its earlier ones, and after
      the bucket's clock if it is tracked at the start. */
  ghost predicate Spaced(cfg: Config, states: seq<Buckets>, probes: seq<Probe>, ip: bytes)
    requires |states| == |probes| + 1
  {
    && (forall i, k :: 0 <= i < k < |probes| && probes[i].ip == ip && probes[k].ip == ip ==>
          FarApart(cfg, probes[i].now, probes[k].now))
    && (ip in states[0] ==>
          forall k :: 0 <= k < |probes| && probes[k].ip == ip ==> FarApart(cfg, states[0][ip].updated, probes[k].now))
  }

  /** No starvation: an IP that spaces its calls at least window/burst apart is never
      refused by its bucket, whoever else calls, whatever is evicted and in whatever order
      the others' readings come. */
  lemma SpacedNeverRefused(cfg: Config, states: seq<Buckets>, probes: seq<Probe>, ip: bytes, k: nat)
    requires cfg.Valid() && IsRun(cfg, states, probes) && Spaced(cfg, states, probes, ip)
    requires k < |probes| && probes[k].ip == ip
    ensures AdmittedAt(cfg, states, probes, ip, k)
  {
    assert StepAt(cfg, states, probes, k);
    if ip in states[k] {
      ClockIsACall(cfg, states, probes, ip, k);
      assert FarApart(cfg, states[k][ip].updated, probes[k].now);
      RunKeepsInv(cfg, states, probes, k);
      EarnsToken(cfg, states[k][ip], probes[k].now);
    } else {
      ProbeIsLocal(cfg, states[k], probes[k]);
    }
  }

  /** What the eviction scan compares is the reading of the IP's last call. */
  ghost predicate SeenLast(states: seq<Buckets>, probes: seq<Probe>, ip: bytes, k: nat)
    requires |states| == |probes| + 1 && k <= |probes| && ip in states[k]
  {
    || (ip in states[0] && states[k][ip].lastSeen == states[0][ip].lastSeen
        && forall j :: 0 <= j < k ==> probes[j].ip != ip)
    || exists i :: 0 <= i < k && probes[i].ip == ip && states[k][ip].lastSeen == probes[i].now
                   && forall j :: i < j < k ==> probes[j].ip != ip
  }

  lemma {:induction false} LastSeenIsLastCall(cfg: Config, states: seq<Buckets>, probes: seq<Probe>, ip: bytes, k: nat)
    requires cfg.Valid() && IsRun(cfg, states, probes) && k <= |probes| && ip in states[k]
    ensures SeenLast(states, probes, ip, k)
  {
    if k > 0 {
      ClockStep(cfg, states, probes, ip, k - 1);
      if probes[k - 1].ip != ip {
        LastSeenIsLastCall(cfg, states, probes, ip, k - 1);
      }
    }
  }

  /** Tokens plus admissions never exceed what was there plus what the bucket's own clock
      earned. */
  ghost predicate Accounted(cfg: Config, b: Bucket, b': Bucket, admitted: nat)
    requires cfg.Valid()
  {
    b.updated <= b'.updated && b'.tokens + admitted as real <= b.tokens + Earned(cfg, b'.updated - b.updated)
  }

  lemma AccountedStep(cfg: Config, b0: Bucket, b: Bucket, b': Bucket, admitted: nat, ok: bool)
    requires cfg.Valid() && Accounted(cfg, b0, b, admitted) && Accounted(cfg, b, b', if ok then 1 else 0)
    ensures Accounted(cfg, b0, b', admitted + if ok then 1 else 0)
  {
  }

  /** What one call does to the bucket of an IP that is tracked before and after. */
  lemma ProbeSpends(cfg: Config, states: seq<Buckets>, probes: seq<Probe>, ip: bytes, k: nat)
    requires cfg.Valid() && IsRun(cfg, states, probes) && k < |probes| && BucketsInv(cfg, states[k])
    requires ip in states[k] && ip in states[k + 1]
    ensures Accounted(cfg, states[k][ip], states[k + 1][ip], if AdmittedAt(cfg, states, probes, ip, k) then 1 else 0)
  {
    assert StepAt(cfg, states, probes, k);
    if probes[k].ip == ip {
      ChargeSpends(cfg, states[k][ip], probes[k].now);
    } else {
      assert Earned(cfg, 0) == 0.0;
    }
  }

  /** The bucket a stretch of calls starts from: the one tracked at its beginning, or the
      full one that its first call opens. */
  ghost function Opening(cfg: Config, states: seq<Buckets>, ip: bytes): Bucket
    requires |states| > 0 && (ip in states[0] || (|states| > 1 && ip in states[1]))
  {
    if ip in states[0] then states[0][ip] else Bucket(cfg.burst as real, states[1][ip].updated, 0)
  }

  /** The call that opens an entry is an admission, paid for by the new bucket. */
  lemma OpeningSpends(cfg: Config, states: seq<Buckets>, probes: seq<Probe>, ip: bytes)
    requires cfg.Valid() && IsRun(cfg, states, probes) && 0 < |probes|
    requires ip !in states[0] && ip in states[1]
    ensures AdmittedAt(cfg, states, probes, ip, 0) && states[1][ip].updated == probes[0].now
    ensures Accounted(cfg, Opening(cfg, states, ip), states[1][ip], 1)
  {
    assert StepAt(cfg, states, probes, 0);
    assert Earned(cfg, 0) == 0.0;
  }

  lemma {:induction false} TokensAccounted(cfg: Config, states: seq<Buckets>, probes: seq<Probe>, ip: bytes, k: nat)
    requires cfg.Valid() && IsRun(cfg, states, probes) && k <= |probes|
    requires forall i :: 0 < i <= |probes| ==> ip in states[i]
    requires ip in states[0] || k > 0
    ensures Accounted(cfg, Opening(cfg, states, ip), states[k][ip], Admitted(cfg, states, probes, ip, k))
  {
    if k == 0 {
      assert Earned(cfg, 0) == 0.0;
    } else if k == 1 && ip !in states[0] {
      OpeningSpends(cfg, states, probes, ip);
      assert Admitted(cfg, states, probes, ip, 0) == 0;
    } else {
      TokensAccounted(cfg, states, probes, ip, k - 1);
      RunKeepsInv(cfg, states, probes, k - 1);
      ProbeSpends(cfg, states, probes, ip, k - 1);
      AccountedStep(cfg, Opening(cfg, states, ip), states[k - 1][ip], states[k][ip], Admitted(cfg, states, probes, ip, k - 1),
                    AdmittedAt(cfg, states, probes, ip, k - 1));
    }
  }

  /** Token bucket bound: over any stretch in which an IP stays tracked, the call that
      opens its entry included, whatever order the clock readings arrive in and whoever
      else calls, the admissions it gets are at most burst + burst * span / window, the
      span being that of its `updated` clock. */
  lemma TokenBucketBound(cfg: Config, states: seq<Buckets>, probes: seq<Probe>, ip: bytes)
    requires cfg.Valid() && IsRun(cfg, states, probes)
    requires forall i :: 0 < i <= |probes| ==> ip in states[i]
    requires ip in states[0] || probes != []
    ensures var span := states[|probes|][ip].updated - (if ip in states[0] then states[0] else states[1])[ip].updated;
            && span >= 0
            && Admitted(cfg, states, probes, ip, |probes|) as real <= cfg.burst as real + Earned(cfg, span)
  {
    TokensAccounted(cfg, states, probes, ip, |probes|);
    RunKeepsInv(cfg, states, probes, |probes|);
    assert InRange(cfg, states[|probes|][ip]);
    assert ip in states[0] ==> InRange(cfg, states[0][ip]);
  }
}
