/** The bounded replay cache (internal/quicx/auth.go): a map of nonces and a FIFO list
    that must agree, and what whole runs of it guarantee. */
module ReplayCache {
  import opened Bytes

  datatype Entry = Entry(key: bytes, expiresAt: int)

  // ---------- One step on the list ----------

  function Prune(order: seq<Entry>, now: int): (live: seq<Entry>)
    ensures |live| <= |order|
  {
    if order == [] || order[0].expiresAt > now then order else Prune(order[1..], now)
  }

  /** The list after the eviction loop: fewer than `capacity` entries, the newest kept. */
  function MakeRoom(order: seq<Entry>, capacity: nat): seq<Entry>
    requires capacity > 0
  {
    if |order| >= capacity then order[|order| - (capacity - 1)..] else order
  }

  predicate HasKey(order: seq<Entry>, key: bytes) {
    exists i :: 0 <= i < |order| && order[i].key == key
  }

  /** Pruning works from the front, so an entry is still there exactly when it or one
      before it has not expired. */
  ghost predicate StillCached(order: seq<Entry>, key: bytes, now: int) {
    exists j, i :: 0 <= j <= i < |order| && order[j].expiresAt > now && order[i].key == key
  }

  lemma {:induction false} StillCachedIff(order: seq<Entry>, key: bytes, now: int)
    ensures HasKey(Prune(order, now), key) <==> StillCached(order, key, now)
  {
    if order != [] && order[0].expiresAt <= now {
      StillCachedIff(order[1..], key, now);
      TailCached(order, key, now);
    } else if HasKey(order, key) {
      var i :| 0 <= i < |order| && order[i].key == key;
      assert order[0].expiresAt > now;
    }
  }

  lemma TailCached(order: seq<Entry>, key: bytes, now: int)
    requires order != [] && order[0].expiresAt <= now
    ensures StillCached(order[1..], key, now) <==> StillCached(order, key, now)
  {
    var tail := order[1..];
    if StillCached(tail, key, now) {
      var j, i :| 0 <= j <= i < |tail| && tail[j].expiresAt > now && tail[i].key == key;
      assert order[j + 1].expiresAt > now && order[i + 1].key == key;
    }
    if StillCached(order, key, now) {
      var j, i :| 0 <= j <= i < |order| && order[j].expiresAt > now && order[i].key == key;
      assert tail[j - 1].expiresAt > now && tail[i - 1].key == key;
    }
  }

  predicate Distinct(order: seq<Entry>) {
    forall i, j :: 0 <= i < j < |order| ==> order[i].key != order[j].key
  }

  function AddStep(order: seq<Entry>, capacity: nat, window: int, key: bytes, now: int): (seq<Entry>, bool)
    requires capacity > 0
  {
    var live := Prune(order, now);
    if HasKey(live, key) then (live, false)
    else (MakeRoom(live, capacity) + [Entry(key, now + window)], true)
  }

  // ---------- The cache ----------

  function Keys(order: seq<Entry>): set<bytes> {
    set i | 0 <= i < |order| :: order[i].key
  }

  lemma {:induction false} DistinctKeysCount(order: seq<Entry>)
    requires Distinct(order)
    ensures |Keys(order)| == |order|
  {
    if order != [] {
      var n := |order| - 1;
      DistinctKeysCount(order[..n]);
      assert Keys(order) == Keys(order[..n]) + {order[n].key};
    }
  }

  class Cache {
    const capacity: nat
    const window: int
    var items: map<bytes, Entry>
    var order: seq<Entry>

    /** Map and list hold the same entries, without duplicates. */
    ghost predicate Agree()
      reads this
    {
      && Distinct(order)
      && (forall i :: 0 <= i < |order| ==> order[i].key in items && items[order[i].key] == order[i])
      && (forall key | key in items :: HasKey(order, key))
    }

    ghost predicate Valid()
      reads this
    {
      Agree() && 0 < capacity && |order| <= capacity
    }

    constructor (capacity: nat, window: int)
      requires capacity > 0
      ensures Valid() && order == [] && this.capacity == capacity && this.window == window
    {
      this.capacity, this.window := capacity, window;
      items, order := map[], [];
    }

    lemma SameSize()
      requires Agree()
      ensures |items| == |order|
    {
      DistinctKeysCount(order);
      assert items.Keys == Keys(order);
    }

    /** removeElement of the front of the list; nothing happens when there is none. */
    method RemoveFront()
      requires Agree()
      modifies this
      ensures Agree() && order == if old(order) == [] then [] else old(order)[1..]
    {
      if order == [] {
        return;
      }
      items := items - {order[0].key};
      order := order[1..];
      forall key | key in items ensures HasKey(order, key) {
        var i :| 0 <= i < |old(order)| && old(order)[i].key == key;
        assert order[i - 1].key == key;
      }
    }

    method PruneExpired(now: int)
      requires Agree()
      modifies this
      ensures Agree() && order == Prune(old(order), now)
    {
      while order != []
        invariant Agree() && Prune(order, now) == Prune(old(order), now)
        decreases |order|
      {
        if order[0].expiresAt > now {
          return;
        }
        RemoveFront();
      }
    }

    /** Add's eviction loop.  It ends because a map that is too large is never empty, so
        the list has a front to remove. */
    method Evict()
      requires Valid()
      modifies this
      ensures Agree() && order == MakeRoom(old(order), capacity)
    {
      SameSize();
      ghost var dropped := 0;
      while |items| >= capacity
        invariant Agree() && |items| == |order|
        invariant 0 <= dropped <= |old(order)| && order == old(order)[dropped..]
        invariant dropped == 0 || |order| == capacity - 1
        decreases |order|
      {
        assert order[1..] == old(order)[dropped + 1..];
        RemoveFront();
        SameSize();
        dropped := dropped + 1;
      }
    }

    method PushBack(entry: Entry)
      requires Agree() && !HasKey(order, entry.key)
      modifies this
      ensures Agree() && order == old(order) + [entry]
    {
      order := order + [entry];
      items := items[entry.key := entry];
      forall key | key in items ensures HasKey(order, key) {
        if key == entry.key {
          assert order[|old(order)|].key == key;
        } else {
          var i :| 0 <= i < |old(order)| && old(order)[i].key == key;
          assert order[i].key == key;
        }
      }
    }

    /** Add takes exactly one step of the list model. */
    method Add(key: bytes, now: int) returns (accepted: bool)
      requires Valid()
      modifies this
      ensures Valid()
      ensures (order, accepted) == AddStep(old(order), capacity, window, key, now)
    {
      PruneExpired(now);
      if key in items {
        return false;
      }
      ghost var live := order;
      assert !HasKey(live, key);
      Evict();
      assert !HasKey(order, key);
      PushBack(Entry(key, now + window));
      return true;
    }
  }

  // ---------- Runs ----------

  /** One call of Validate as the cache sees it: the nonce if all earlier checks passed,
      and the clock reading. */
  datatype Attempt = Attempt(nonce: Option<bytes>, now: int)

  function OrderStep(order: seq<Entry>, capacity: nat, window: int, a: Attempt): (seq<Entry>, bool)
    requires capacity > 0
  {
    match a.nonce
    case None => (order, false)
    case Some(key) => AddStep(order, capacity, window, key, a.now)
  }

  /** The list after the first k attempts. */
  function OrderAt(capacity: nat, window: int, attempts: seq<Attempt>, k: nat): seq<Entry>
    requires capacity > 0 && k <= |attempts|
  {
    if k == 0 then []
    else OrderStep(OrderAt(capacity, window, attempts, k - 1), capacity, window, attempts[k - 1]).0
  }

  predicate AcceptedAt(capacity: nat, window: int, attempts: seq<Attempt>, k: nat)
    requires capacity > 0 && k < |attempts|
  {
    OrderStep(OrderAt(capacity, window, attempts, k), capacity, window, attempts[k]).1
  }

  /** Every entry the first k attempts got accepted, oldest first. */
  function History(capacity: nat, window: int, attempts: seq<Attempt>, k: nat): seq<Entry>
    requires capacity > 0 && k <= |attempts|
  {
    if k == 0 then []
    else
      var history := History(capacity, window, attempts, k - 1);
      if AcceptedAt(capacity, window, attempts, k - 1)
      then history + [Entry(attempts[k - 1].nonce.value, attempts[k - 1].now + window)]
      else history
  }

  // ---------- The cache as a position in the history ----------

  /** Everything accepted so far, and how much of it the cache has dropped. */
  datatype Log = Log(history: seq<Entry>, dropped: nat)

  function PruneFrom(history: seq<Entry>, dropped: nat, now: int): (r: nat)
    requires dropped <= |history|
    ensures dropped <= r <= |history|
    ensures forall i :: dropped <= i < |history| && history[i].expiresAt > now ==> r <= i
    decreases |history| - dropped
  {
    if dropped == |history| || history[dropped].expiresAt > now then dropped
    else PruneFrom(history, dropped + 1, now)
  }

  lemma {:induction false} PruneFromStops(history: seq<Entry>, dropped: nat, now: int)
    requires dropped <= |history|
    ensures var r := PruneFrom(history, dropped, now);
            r < |history| ==> history[r].expiresAt > now
    decreases |history| - dropped
  {
    if dropped < |history| && history[dropped].expiresAt <= now {
      PruneFromStops(history, dropped + 1, now);
    }
  }

  predicate HasKeyFrom(log: Log, key: bytes) {
    exists i :: log.dropped <= i < |log.history| && log.history[i].key == key
  }

  function Pruned(log: Log, now: int): Log
    requires log.dropped <= |log.history|
  {
    log.(dropped := PruneFrom(log.history, log.dropped, now))
  }

  predicate LogAccepts(log: Log, a: Attempt)
    requires log.dropped <= |log.history|
  {
    a.nonce.Some? && !HasKeyFrom(Pruned(log, a.now), a.nonce.value)
  }

  function LogStep(log: Log, capacity: nat, window: int, a: Attempt): (log': Log)
    requires capacity > 0 && log.dropped <= |log.history|
    ensures log'.dropped <= |log'.history|
  {
    if a.nonce.None? then log
    else
      var live := Pruned(log, a.now);
      if !LogAccepts(log, a) then live
      else
        var room := if |live.history| - live.dropped >= capacity then |live.history| - (capacity - 1) else live.dropped;
        Log(live.history + [Entry(a.nonce.value, a.now + window)], room)
  }

  function LogAt(capacity: nat, window: int, attempts: seq<Attempt>, k: nat): (log: Log)
    requires capacity > 0 && k <= |attempts|
    ensures log.dropped <= |log.history|
  {
    if k == 0 then Log([], 0)
    else LogStep(LogAt(capacity, window, attempts, k - 1), capacity, window, attempts[k - 1])
  }

  /** Bounded, and without duplicates among what is cached. */
  ghost predicate LogInv(log: Log, capacity: nat) {
    && log.dropped <= |log.history| <= log.dropped + capacity
    && forall p, q :: log.dropped <= p < q < |log.history| ==> log.history[p].key != log.history[q].key
  }

  lemma LogStepKeepsInv(log: Log, capacity: nat, window: int, a: Attempt)
    requires capacity > 0 && LogInv(log, capacity)
    ensures LogInv(LogStep(log, capacity, window, a), capacity)
  {
  }

  lemma {:induction false} PruneIsPruneFrom(history: seq<Entry>, dropped: nat, now: int)
    requires dropped <= |history|
    ensures Prune(history[dropped..], now) == history[PruneFrom(history, dropped, now)..]
    decreases |history| - dropped
  {
    if dropped < |history| && history[dropped].expiresAt <= now {
      assert history[dropped..][1..] == history[dropped + 1..];
      PruneIsPruneFrom(history, dropped + 1, now);
    }
  }

  lemma SuffixHasKey(log: Log, key: bytes)
    requires log.dropped <= |log.history|
    ensures HasKey(log.history[log.dropped..], key) <==> HasKeyFrom(log, key)
  {
  }

  /** The list takes the step of the log. */
  lemma StepRefines(log: Log, capacity: nat, window: int, a: Attempt)
    requires capacity > 0 && log.dropped <= |log.history|
    ensures var log' := LogStep(log, capacity, window, a);
            OrderStep(log.history[log.dropped..], capacity, window, a)
            == (log'.history[log'.dropped..], LogAccepts(log, a))
  {
    if a.nonce.Some? {
      var live := Pruned(log, a.now);
      PruneIsPruneFrom(log.history, log.dropped, a.now);
      SuffixHasKey(live, a.nonce.value);
      if LogAccepts(log, a) {
        var log' := LogStep(log, capacity, window, a);
        var entry := Entry(a.nonce.value, a.now + window);
        assert MakeRoom(live.history[live.dropped..], capacity) == live.history[log'.dropped..];
        assert live.history[log'.dropped..] + [entry] == (live.history + [entry])[log'.dropped..];
      }
    }
  }

  /** Replay cache refinement: after any run the list is the contiguous most recent
      stretch of everything accepted, no longer than the capacity, without duplicates. */
  lemma {:induction false} CacheIsRecentSuffix(capacity: nat, window: int, attempts: seq<Attempt>, k: nat)
    requires capacity > 0 && k <= |attempts|
    ensures var log := LogAt(capacity, window, attempts, k);
            && log.history == History(capacity, window, attempts, k)
            && OrderAt(capacity, window, attempts, k) == log.history[log.dropped..]
            && LogInv(log, capacity)
  {
    if k > 0 {
      CacheIsRecentSuffix(capacity, window, attempts, k - 1);
      var log := LogAt(capacity, window, attempts, k - 1);
      StepRefines(log, capacity, window, attempts[k - 1]);
      LogStepKeepsInv(log, capacity, window, attempts[k - 1]);
    }
  }

  lemma AcceptedInLog(capacity: nat, window: int, attempts: seq<Attempt>, k: nat)
    requires capacity > 0 && k < |attempts|
    ensures AcceptedAt(capacity, window, attempts, k) == LogAccepts(LogAt(capacity, window, attempts, k), attempts[k])
  {
    CacheIsRecentSuffix(capacity, window, attempts, k);
    StepRefines(LogAt(capacity, window, attempts, k), capacity, window, attempts[k]);
  }

  // ---------- No replay ----------

  /** What is known of the entry accepted as number `at` while it has not expired: it is
      cached unless `capacity` later ones were accepted, no later one repeats its nonce,
      and the `capacity` ones right after it are all different. */
  ghost predicate Remembered(log: Log, capacity: nat, at: nat, entry: Entry) {
    && LogInv(log, capacity)
    && at < |log.history| && log.history[at] == entry
    && (log.dropped <= at || |log.history| - at > capacity)
    && (forall p :: at < p < |log.history| ==> log.history[p].key != entry.key)
    && (forall p, q :: at <= p < q < |log.history| && q <= at + capacity ==> log.history[p].key != log.history[q].key)
  }

  lemma CachedWhileRecent(log: Log, capacity: nat, at: nat, entry: Entry, now: int)
    requires Remembered(log, capacity, at, entry) && entry.expiresAt > now
    ensures HasKeyFrom(Pruned(log, now), entry.key) <==> |log.history| - at <= capacity
    ensures |log.history| - at <= capacity ==> Pruned(log, now).dropped <= at
  {
  }

  lemma StepKeepsRemembered(log: Log, capacity: nat, window: int, at: nat, entry: Entry, a: Attempt)
    requires capacity > 0 && Remembered(log, capacity, at, entry) && entry.expiresAt > a.now
    requires a.nonce == Some(entry.key) ==> !LogAccepts(log, a)
    ensures Remembered(LogStep(log, capacity, window, a), capacity, at, entry)
  {
    LogStepKeepsInv(log, capacity, window, a);
    CachedWhileRecent(log, capacity, at, entry, a.now);
  }

  lemma FreshIsRemembered(log: Log, capacity: nat, window: int, a: Attempt)
    requires capacity > 0 && LogInv(log, capacity) && LogAccepts(log, a)
    ensures Remembered(LogStep(log, capacity, window, a), capacity, |log.history|, Entry(a.nonce.value, a.now + window))
  {
  }

  /** One attempt later, in a run. */
  lemma RunKeepsRemembered(capacity: nat, window: int, attempts: seq<Attempt>, k: nat, at: nat, entry: Entry)
    requires capacity > 0 && k < |attempts|
    requires Remembered(LogAt(capacity, window, attempts, k), capacity, at, entry)
    requires attempts[k].nonce.Some? ==> entry.expiresAt > attempts[k].now
    requires attempts[k].nonce == Some(entry.key) ==> !AcceptedAt(capacity, window, attempts, k)
    ensures Remembered(LogAt(capacity, window, attempts, k + 1), capacity, at, entry)
  {
    if attempts[k].nonce.Some? {
      AcceptedInLog(capacity, window, attempts, k);
      StepKeepsRemembered(LogAt(capacity, window, attempts, k), capacity, window, at, entry, attempts[k]);
    }
  }

  lemma RunRemembers(capacity: nat, window: int, attempts: seq<Attempt>, i: nat)
    requires capacity > 0 && i < |attempts| && AcceptedAt(capacity, window, attempts, i)
    ensures Remembered(LogAt(capacity, window, attempts, i + 1), capacity,
                       |LogAt(capacity, window, attempts, i).history|,
                       Entry(attempts[i].nonce.value, attempts[i].now + window))
  {
    AcceptedInLog(capacity, window, attempts, i);
    CacheIsRecentSuffix(capacity, window, attempts, i);
    FreshIsRemembered(LogAt(capacity, window, attempts, i), capacity, window, attempts[i]);
  }

  /** Attempt m gets attempt i's nonce accepted. */
  predicate AcceptedAgain(capacity: nat, window: int, attempts: seq<Attempt>, i: nat, m: nat)
    requires capacity > 0 && i < |attempts| && m < |attempts|
  {
    attempts[m].nonce == attempts[i].nonce && AcceptedAt(capacity, window, attempts, m)
  }

  /** Attempt m reaches the cache when attempt i's entry has expired. */
  predicate Outlasts(window: int, attempts: seq<Attempt>, i: nat, m: nat)
    requires i < |attempts| && m < |attempts|
  {
    attempts[m].nonce.Some? && attempts[m].now >= attempts[i].now + window
  }

  lemma {:induction false} RemembersUntil(capacity: nat, window: int, attempts: seq<Attempt>, i: nat, k: nat)
    requires capacity > 0 && i < k <= |attempts|
    requires AcceptedAt(capacity, window, attempts, i)
    requires forall m :: i < m < k ==> !AcceptedAgain(capacity, window, attempts, i, m)
    requires forall m :: i < m < k ==> !Outlasts(window, attempts, i, m)
    ensures Remembered(LogAt(capacity, window, attempts, k), capacity,
                       |LogAt(capacity, window, attempts, i).history|,
                       Entry(attempts[i].nonce.value, attempts[i].now + window))
  {
    if i == k - 1 {
      RunRemembers(capacity, window, attempts, i);
    } else {
      RemembersUntil(capacity, window, attempts, i, k - 1);
      assert !AcceptedAgain(capacity, window, attempts, i, k - 1) && !Outlasts(window, attempts, i, k - 1);
      RunKeepsRemembered(capacity, window, attempts, k - 1, |LogAt(capacity, window, attempts, i).history|,
                         Entry(attempts[i].nonce.value, attempts[i].now + window));
    }
  }

  /** No replay, exactly: let attempt i be the last acceptance of a nonce before
      attempt j presents it again, with every attempt that reaches the cache in between
      inside the window of i's entry.  Then j is accepted if and only if at least `capacity` other nonces
      were accepted in between -- and the first `capacity` of those are pairwise
      different, and different from this one. */
  lemma NoReplay(capacity: nat, window: int, attempts: seq<Attempt>, i: nat, j: nat)
    requires capacity > 0 && i < j < |attempts|
    requires AcceptedAt(capacity, window, attempts, i) && attempts[j].nonce == attempts[i].nonce
    requires forall m :: i < m < j ==> !AcceptedAgain(capacity, window, attempts, i, m)
    requires forall m :: i < m <= j ==> !Outlasts(window, attempts, i, m)
    ensures var history := History(capacity, window, attempts, j);
            var at := |History(capacity, window, attempts, i)|;
            && at < |history| && history[at].key == attempts[i].nonce.value
            && (AcceptedAt(capacity, window, attempts, j) <==> |history| - at - 1 >= capacity)
            && (forall p, q :: at <= p < q < |history| && q <= at + capacity ==> history[p].key != history[q].key)
  {
    RemembersUntil(capacity, window, attempts, i, j);
    CacheIsRecentSuffix(capacity, window, attempts, i);
    CacheIsRecentSuffix(capacity, window, attempts, j);
    AcceptedInLog(capacity, window, attempts, j);
    assert !Outlasts(window, attempts, i, j);
    CachedWhileRecent(LogAt(capacity, window, attempts, j), capacity,
                      |LogAt(capacity, window, attempts, i).history|,
                      Entry(attempts[i].nonce.value, attempts[i].now + window), attempts[j].now);
  }

  // ---------- Forgetting ----------

  lemma HistoryGrows(capacity: nat, window: int, attempts: seq<Attempt>, k: nat)
    requires capacity > 0 && k < |attempts|
    ensures LogAt(capacity, window, attempts, k + 1).history
            == if AcceptedAt(capacity, window, attempts, k)
               then LogAt(capacity, window, attempts, k).history + [Entry(attempts[k].nonce.value, attempts[k].now + window)]
               else LogAt(capacity, window, attempts, k).history
  {
    AcceptedInLog(capacity, window, attempts, k);
  }

  ghost predicate ExpireBy(history: seq<Entry>, latest: int) {
    forall p :: 0 <= p < |history| ==> history[p].expiresAt <= latest
  }

  lemma {:induction false} EarlierExpire(capacity: nat, window: int, attempts: seq<Attempt>, k: nat, latest: int)
    requires capacity > 0 && k <= |attempts|
    requires forall m :: 0 <= m < k && attempts[m].nonce.Some? ==> attempts[m].now + window <= latest
    ensures ExpireBy(LogAt(capacity, window, attempts, k).history, latest)
  {
    if k > 0 {
      EarlierExpire(capacity, window, attempts, k - 1, latest);
      HistoryGrows(capacity, window, attempts, k - 1);
    }
  }

  /** The history is `base`, then `entry`, then entries with other nonces. */
  ghost predicate Since(history: seq<Entry>, base: seq<Entry>, entry: Entry) {
    && |base| < |history| && history[|base|] == entry
    && (forall p :: 0 <= p < |base| ==> history[p] == base[p])
    && (forall p :: |base| < p < |history| ==> history[p].key != entry.key)
  }

  lemma SinceStart(base: seq<Entry>, entry: Entry)
    ensures Since(base + [entry], base, entry)
  {
  }

  lemma SincePush(history: seq<Entry>, base: seq<Entry>, entry: Entry, e: Entry)
    requires Since(history, base, entry) && e.key != entry.key
    ensures Since(history + [e], base, entry)
  {
  }

  lemma SinceStep(capacity: nat, window: int, attempts: seq<Attempt>, i: nat, k: nat, base: seq<Entry>, entry: Entry)
    requires capacity > 0 && i < k < |attempts| && attempts[i].nonce == Some(entry.key)
    requires Since(LogAt(capacity, window, attempts, k).history, base, entry)
    requires !AcceptedAgain(capacity, window, attempts, i, k)
    ensures Since(LogAt(capacity, window, attempts, k + 1).history, base, entry)
  {
    HistoryGrows(capacity, window, attempts, k);
    if AcceptedAt(capacity, window, attempts, k) {
      SincePush(LogAt(capacity, window, attempts, k).history, base, entry,
                Entry(attempts[k].nonce.value, attempts[k].now + window));
    }
  }

  lemma {:induction false} SinceLast(capacity: nat, window: int, attempts: seq<Attempt>, i: nat, k: nat)
    requires capacity > 0 && i < k <= |attempts| && AcceptedAt(capacity, window, attempts, i)
    requires forall m :: i < m < k ==> !AcceptedAgain(capacity, window, attempts, i, m)
    ensures Since(LogAt(capacity, window, attempts, k).history, LogAt(capacity, window, attempts, i).history,
                  Entry(attempts[i].nonce.value, attempts[i].now + window))
  {
    var base, entry := LogAt(capacity, window, attempts, i).history, Entry(attempts[i].nonce.value, attempts[i].now + window);
    if i == k - 1 {
      HistoryGrows(capacity, window, attempts, i);
      SinceStart(base, entry);
    } else {
      SinceLast(capacity, window, attempts, i, k - 1);
      assert !AcceptedAgain(capacity, window, attempts, i, k - 1);
      SinceStep(capacity, window, attempts, i, k - 1, base, entry);
    }
  }

  lemma {:induction false} DroppedGrows(capacity: nat, window: int, attempts: seq<Attempt>, k: nat, k': nat)
    requires capacity > 0 && k <= k' <= |attempts|
    ensures LogAt(capacity, window, attempts, k).dropped <= LogAt(capacity, window, attempts, k').dropped
  {
    if k < k' {
      DroppedGrows(capacity, window, attempts, k, k' - 1);
    }
  }

  /** Pruning at the end of an entry's window drops it, and all before it that expire no
      later. */
  lemma PrunedPast(log: Log, base: seq<Entry>, entry: Entry, now: int)
    requires log.dropped <= |log.history|
    requires Since(log.history, base, entry) && ExpireBy(base, entry.expiresAt) && entry.expiresAt <= now
    ensures Pruned(log, now).dropped > |base|
  {
    PruneFromStops(log.history, log.dropped, now);
  }

  /** Forgetting, exactly: when nothing reached the cache with a later reading before
      attempt i, a nonce is accepted again if and only if `capacity` other nonces were
      accepted in between or an attempt up to the second use outlasted the window: there
      the clock condition of NoReplay cannot be weakened. */
  lemma ReplayIff(capacity: nat, window: int, attempts: seq<Attempt>, i: nat, j: nat)
    requires capacity > 0 && i < j < |attempts|
    requires AcceptedAt(capacity, window, attempts, i) && attempts[j].nonce == attempts[i].nonce
    requires forall m :: i < m < j ==> !AcceptedAgain(capacity, window, attempts, i, m)
    requires forall m :: 0 <= m < i && attempts[m].nonce.Some? ==> attempts[m].now <= attempts[i].now
    ensures AcceptedAt(capacity, window, attempts, j) <==>
              || |History(capacity, window, attempts, j)| - |History(capacity, window, attempts, i)| - 1 >= capacity
              || exists m :: i < m <= j && Outlasts(window, attempts, i, m)
  {
    var log, base := LogAt(capacity, window, attempts, j), LogAt(capacity, window, attempts, i).history;
    CacheIsRecentSuffix(capacity, window, attempts, i);
    CacheIsRecentSuffix(capacity, window, attempts, j);
    if m :| i < m <= j && Outlasts(window, attempts, i, m) {
      OutlastedIsForgotten(capacity, window, attempts, i, m, j);
    } else if |log.history| - |base| - 1 >= capacity {
      DroppedIsAccepted(capacity, window, attempts, i, j);
    } else {
      NoReplay(capacity, window, attempts, i, j);
    }
  }

  lemma DroppedIsAccepted(capacity: nat, window: int, attempts: seq<Attempt>, i: nat, j: nat)
    requires capacity > 0 && i < j < |attempts|
    requires AcceptedAt(capacity, window, attempts, i) && attempts[j].nonce == attempts[i].nonce
    requires forall m :: i < m < j ==> !AcceptedAgain(capacity, window, attempts, i, m)
    requires Pruned(LogAt(capacity, window, attempts, j), attempts[j].now).dropped > |LogAt(capacity, window, attempts, i).history|
    ensures AcceptedAt(capacity, window, attempts, j)
  {
    SinceLast(capacity, window, attempts, i, j);
    AcceptedInLog(capacity, window, attempts, j);
  }

  lemma OutlastedIsForgotten(capacity: nat, window: int, attempts: seq<Attempt>, i: nat, m: nat, j: nat)
    requires capacity > 0 && i < m <= j < |attempts| && Outlasts(window, attempts, i, m)
    requires AcceptedAt(capacity, window, attempts, i) && attempts[j].nonce == attempts[i].nonce
    requires forall m :: i < m < j ==> !AcceptedAgain(capacity, window, attempts, i, m)
    requires forall m :: 0 <= m < i && attempts[m].nonce.Some? ==> attempts[m].now <= attempts[i].now
    ensures AcceptedAt(capacity, window, attempts, j)
  {
    var base := LogAt(capacity, window, attempts, i).history;
    SinceLast(capacity, window, attempts, i, m);
    EarlierExpire(capacity, window, attempts, i, attempts[i].now + window);
    PrunedPast(LogAt(capacity, window, attempts, m), base, Entry(attempts[i].nonce.value, attempts[i].now + window), attempts[m].now);
    if m < j {
      DroppedGrows(capacity, window, attempts, m + 1, j);
    }
    DroppedIsAccepted(capacity, window, attempts, i, j);
  }

  /** Nothing is remembered for ever: with readings that never go back, a nonce presented
      again when its window has passed is accepted. */
  lemma ForgottenAfterWindow(capacity: nat, window: int, attempts: seq<Attempt>, i: nat, j: nat)
    requires capacity > 0 && i < j < |attempts|
    requires forall m, n :: 0 <= m < n < |attempts| ==> attempts[m].now <= attempts[n].now
    requires AcceptedAt(capacity, window, attempts, i) && attempts[j].nonce == attempts[i].nonce
    requires forall m :: i < m < j ==> !AcceptedAgain(capacity, window, attempts, i, m)
    requires attempts[j].now >= attempts[i].now + window
    ensures AcceptedAt(capacity, window, attempts, j)
  {
    OutlastedIsForgotten(capacity, window, attempts, i, j, j);
  }

  /** The condition on readings cannot be dropped, whatever came before: one reading that reaches the end of
      the window makes the cache forget the nonce, and a later, earlier-dated attempt
      with it is accepted although only one other nonce was. */
  lemma ClockJumpForgets(capacity: nat, window: int, x: bytes, y: bytes, t: int, t': int)
    requires capacity > 1 && window > 0 && x != y && t' < t + window
    ensures var attempts := [Attempt(Some(x), t), Attempt(Some(y), t + window), Attempt(Some(x), t')];
            AcceptedAt(capacity, window, attempts, 0) && AcceptedAt(capacity, window, attempts, 2)
  {
  }
}
