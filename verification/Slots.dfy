/** Slot accounting over all interleavings of concurrent requests
    (internal/quicx/server.go ServeHTTP, internal/quicx/limiter.go Allow,
    internal/quicx/udp.go serveUDPSession).

    Each request is a thread with its own control point; a step is one channel operation
    or one locked section.  The semaphore, the UDP slots and each session's `done`
    channel are buffered channels, represented by their occupancy. */
module Slots {
  datatype Limits = Limits(maxConcurrent: nat, udpSessions: nat)

  const DONE_CAPACITY := 2

  datatype Worker = NotStarted | Running | Exited

  datatype Phase =
    | Arrived    // Validate done, Allow not yet called
    | Checking   // semaphore slot taken, bucket not yet asked
    | Denied     // the bucket refused, the slot is to be given back
    | Admitted   // Allow granted
    | Opening    // UDP slot taken, session not yet open
    | Relaying   // both workers started, main loop waiting
    | Closing    // session over, UDP slot to be given back
    | Returning  // handler returning, deferred release to run
    | Finished

  /** A request; `granted` until its slot is released, `udp` while it holds a UDP slot;
      its session's workers and the occupancy of its `done` channel. */
  datatype Request = Request(phase: Phase, granted: bool, udp: bool, up: Worker, down: Worker, done: nat)

  datatype State = State(sem: nat, udpSlots: nat, reqs: seq<Request>)

  datatype Action =
    | Arrive
    | Acquire(i: nat, authenticated: bool)
    | AskBucket(i: nat, ok: bool)
    | GiveBack(i: nat)
    | Dispatch(i: nat, udp: bool)
    | OpenSession(i: nat, ok: bool)
    | UpExits(i: nat)
    | DownExits(i: nat)
    | Leave(i: nat, onDone: bool)
    | FreeUdp(i: nat)
    | Release(i: nat)
    | ReleaseAgain(i: nat)

  /** The request is at the control point from which the action is taken. */
  predicate Enabled(s: State, a: Action) {
    a.Arrive? ||
    (a.i < |s.reqs| &&
     var r := s.reqs[a.i];
     match a
     case Acquire(_, _) => r.phase == Arrived
     case AskBucket(_, _) => r.phase == Checking
     case GiveBack(_) => r.phase == Denied
     case Dispatch(_, _) => r.phase == Admitted
     case OpenSession(_, _) => r.phase == Opening
     case UpExits(_) => r.up == Running
     case DownExits(_) => r.down == Running
     case Leave(_, onDone) => r.phase == Relaying && (onDone ==> r.done > 0)
     case FreeUdp(_) => r.phase == Closing
     case Release(_) => r.phase == Returning
     case ReleaseAgain(_) => r.phase == Finished)
  }

  /** The action's channel operation would have to wait. */
  predicate Blocks(s: State, a: Action)
    requires Enabled(s, a)
  {
    match a
    case GiveBack(i) => s.reqs[i].granted && s.sem == 0
    case Release(i) => s.reqs[i].granted && s.sem == 0
    case ReleaseAgain(i) => s.reqs[i].granted && s.sem == 0
    case FreeUdp(i) => s.udpSlots == 0
    case UpExits(i) => s.reqs[i].done == DONE_CAPACITY
    case DownExits(i) => s.reqs[i].done == DONE_CAPACITY
    case _ => false
  }

  /** The release closure: sync.Once around one receive from the semaphore. */
  function ReleaseOnce(s: State, i: nat, phase: Phase): State
    requires i < |s.reqs| && (s.reqs[i].granted ==> s.sem > 0)
  {
    State(if s.reqs[i].granted then s.sem - 1 else s.sem, s.udpSlots,
          s.reqs[i := s.reqs[i].(phase := phase, granted := false)])
  }

  function Step(lim: Limits, s: State, a: Action): State
    requires Enabled(s, a) && !Blocks(s, a)
  {
    match a
    case Arrive => s.(reqs := s.reqs + [Request(Arrived, false, false, NotStarted, NotStarted, 0)])
    case Acquire(i, authenticated) =>
      var r := s.reqs[i];
      if s.sem < lim.maxConcurrent
      then s.(sem := s.sem + 1, reqs := s.reqs[i := r.(phase := if authenticated then Admitted else Checking, granted := true)])
      else s.(reqs := s.reqs[i := r.(phase := Finished)])
    case AskBucket(i, ok) =>
      s.(reqs := s.reqs[i := s.reqs[i].(phase := if ok then Admitted else Denied)])
    case GiveBack(i) => ReleaseOnce(s, i, Finished)
    case Dispatch(i, udp) =>
      var r := s.reqs[i];
      if udp && s.udpSlots < lim.udpSessions
      then s.(udpSlots := s.udpSlots + 1, reqs := s.reqs[i := r.(phase := Opening, udp := true)])
      else s.(reqs := s.reqs[i := r.(phase := Returning)])
    case OpenSession(i, ok) =>
      var r := s.reqs[i];
      s.(reqs := s.reqs[i := if ok then r.(phase := Relaying, up := Running, down := Running) else r.(phase := Closing)])
    case UpExits(i) => s.(reqs := s.reqs[i := s.reqs[i].(up := Exited, done := s.reqs[i].done + 1)])
    case DownExits(i) => s.(reqs := s.reqs[i := s.reqs[i].(down := Exited, done := s.reqs[i].done + 1)])
    case Leave(i, onDone) =>
      var r := s.reqs[i];
      s.(reqs := s.reqs[i := r.(phase := Closing, done := if onDone then r.done - 1 else r.done)])
    case FreeUdp(i) =>
      s.(udpSlots := s.udpSlots - 1, reqs := s.reqs[i := s.reqs[i].(phase := Returning, udp := false)])
    case Release(i) => ReleaseOnce(s, i, Finished)
    case ReleaseAgain(i) => ReleaseOnce(s, i, Finished)
  }

  // ---------- Counting ----------

  function One(b: bool): nat { if b then 1 else 0 }

  /** Grants not yet released. */
  function Held(reqs: seq<Request>): nat {
    if reqs == [] then 0 else Held(reqs[..|reqs| - 1]) + One(reqs[|reqs| - 1].granted)
  }

  /** Live UDP sessions. */
  function Sessions(reqs: seq<Request>): nat {
    if reqs == [] then 0 else Sessions(reqs[..|reqs| - 1]) + One(reqs[|reqs| - 1].udp)
  }

  lemma {:induction false} CountsAfterUpdate(reqs: seq<Request>, i: nat, r: Request)
    requires i < |reqs|
    ensures Held(reqs[i := r]) + One(reqs[i].granted) == Held(reqs) + One(r.granted)
    ensures Sessions(reqs[i := r]) + One(reqs[i].udp) == Sessions(reqs) + One(r.udp)
  {
    var n := |reqs| - 1;
    if i == n {
      assert reqs[i := r][..n] == reqs[..n];
    } else {
      assert reqs[i := r][..n] == reqs[..n][i := r];
      CountsAfterUpdate(reqs[..n], i, r);
    }
  }

  lemma {:induction false} HeldCovers(reqs: seq<Request>, i: nat)
    requires i < |reqs|
    ensures One(reqs[i].granted) <= Held(reqs) && One(reqs[i].udp) <= Sessions(reqs)
  {
    var n := |reqs| - 1;
    if i < n {
      HeldCovers(reqs[..n], i);
    }
  }

  lemma {:induction false} CountsCompared(reqs: seq<Request>)
    ensures (forall i :: 0 <= i < |reqs| ==> reqs[i].udp ==> reqs[i].granted) ==> Sessions(reqs) <= Held(reqs)
    ensures (forall i :: 0 <= i < |reqs| ==> !reqs[i].granted && !reqs[i].udp) ==> Held(reqs) == Sessions(reqs) == 0
  {
    if reqs != [] {
      var n := |reqs| - 1;
      CountsCompared(reqs[..n]);
      assert reqs == reqs[..n] + [reqs[n]];
    }
  }

  // ---------- Invariant ----------

  function Active(r: Request): nat {
    One(r.up == Running) + One(r.down == Running)
  }

  predicate RequestInv(r: Request) {
    && (r.granted <==> !r.phase.Arrived? && !r.phase.Finished?)
    && (r.udp <==> r.phase.Opening? || r.phase.Relaying? || r.phase.Closing?)
    && (r.phase.Arrived? || r.phase.Checking? || r.phase.Denied? || r.phase.Admitted? || r.phase.Opening? ==>
          r.up == r.down == NotStarted && r.done == 0)
    && r.done + Active(r) <= DONE_CAPACITY
  }

  ghost predicate Inv(lim: Limits, s: State) {
    && s.sem == Held(s.reqs) <= lim.maxConcurrent
    && s.udpSlots == Sessions(s.reqs) <= lim.udpSessions
    && forall i :: 0 <= i < |s.reqs| ==> RequestInv(s.reqs[i])
  }

  lemma NeverBlocks(lim: Limits, s: State, a: Action)
    requires Inv(lim, s) && Enabled(s, a)
    ensures !Blocks(s, a)
  {
    if !a.Arrive? {
      HeldCovers(s.reqs, a.i);
      assert RequestInv(s.reqs[a.i]);
    }
  }

  /** What a step does to the one request it concerns, and the slots with it. */
  lemma StepIsLocal(lim: Limits, s: State, a: Action)
    requires Enabled(s, a) && !Blocks(s, a) && !a.Arrive?
    requires RequestInv(s.reqs[a.i]) && s.sem <= lim.maxConcurrent && s.udpSlots <= lim.udpSessions
    ensures var s' := Step(lim, s, a);
            && |s'.reqs| == |s.reqs| && s'.reqs == s.reqs[a.i := s'.reqs[a.i]]
            && RequestInv(s'.reqs[a.i])
            && s'.sem + One(s.reqs[a.i].granted) == s.sem + One(s'.reqs[a.i].granted)
            && s'.udpSlots + One(s.reqs[a.i].udp) == s.udpSlots + One(s'.reqs[a.i].udp)
            && s'.sem <= lim.maxConcurrent && s'.udpSlots <= lim.udpSessions
  {
  }

  lemma StepKeepsInv(lim: Limits, s: State, a: Action)
    requires Inv(lim, s) && Enabled(s, a) && !Blocks(s, a)
    ensures Inv(lim, Step(lim, s, a))
  {
    if a.Arrive? {
      ArriveKeepsInv(lim, s, Step(lim, s, a).reqs[|s.reqs|]);
    } else {
      StepIsLocal(lim, s, a);
      UpdateKeepsInv(lim, s, Step(lim, s, a), a.i);
    }
  }

  lemma ArriveKeepsInv(lim: Limits, s: State, r: Request)
    requires Inv(lim, s) && RequestInv(r) && !r.granted && !r.udp
    ensures Inv(lim, s.(reqs := s.reqs + [r]))
  {
    assert (s.reqs + [r])[..|s.reqs|] == s.reqs;
  }

  lemma UpdateKeepsInv(lim: Limits, s: State, s': State, i: nat)
    requires Inv(lim, s) && i < |s.reqs| && |s'.reqs| == |s.reqs| && s'.reqs == s.reqs[i := s'.reqs[i]]
    requires RequestInv(s'.reqs[i])
    requires s'.sem + One(s.reqs[i].granted) == s.sem + One(s'.reqs[i].granted)
    requires s'.udpSlots + One(s.reqs[i].udp) == s.udpSlots + One(s'.reqs[i].udp)
    requires s'.sem <= lim.maxConcurrent && s'.udpSlots <= lim.udpSessions
    ensures Inv(lim, s')
  {
    CountsAfterUpdate(s.reqs, i, s'.reqs[i]);
  }

  /** The step from one state to the next, if it can be taken. */
  ghost predicate Next(lim: Limits, s: State, a: Action, s': State) {
    Enabled(s, a) && !Blocks(s, a) && s' == Step(lim, s, a)
  }

  ghost predicate Reachable(lim: Limits, trace: seq<Action>, s: State)
    decreases |trace|
  {
    if trace == [] then s == State(0, 0, [])
    else
      var n := |trace| - 1;
      exists s0 :: Reachable(lim, trace[..n], s0) && Next(lim, s0, trace[n], s)
  }

  lemma {:induction false} ReachableInv(lim: Limits, trace: seq<Action>, s: State)
    requires Reachable(lim, trace, s)
    ensures Inv(lim, s)
    decreases |trace|
  {
    if trace != [] {
      var n := |trace| - 1;
      var s0 :| Reachable(lim, trace[..n], s0) && Next(lim, s0, trace[n], s);
      ReachableInv(lim, trace[..n], s0);
      StepKeepsInv(lim, s0, trace[n]);
    }
  }

  /** The requests between Allow's acquisition and their release. */
  ghost function InService(reqs: seq<Request>): set<nat> {
    set i: nat | i < |reqs| && !reqs[i].phase.Arrived? && !reqs[i].phase.Finished?
  }

  /** The requests between taking a UDP slot and giving it back. */
  ghost function InSession(reqs: seq<Request>): set<nat> {
    set i: nat | i < |reqs| && (reqs[i].phase.Opening? || reqs[i].phase.Relaying? || reqs[i].phase.Closing?)
  }

  /** The flags count control points. */
  lemma {:induction false} CountsByPhase(reqs: seq<Request>)
    requires forall i :: 0 <= i < |reqs| ==> RequestInv(reqs[i])
    ensures Held(reqs) == |InService(reqs)| && Sessions(reqs) == |InSession(reqs)|
  {
    if reqs != [] {
      var n := |reqs| - 1;
      assert RequestInv(reqs[n]);
      CountsByPhase(reqs[..n]);
      OneMoreInService(reqs);
      OneMoreInSession(reqs);
    }
  }

  lemma OneMoreInService(reqs: seq<Request>)
    requires reqs != []
    ensures var n := |reqs| - 1;
            |InService(reqs)| == |InService(reqs[..n])| + One(!reqs[n].phase.Arrived? && !reqs[n].phase.Finished?)
  {
    var n := |reqs| - 1;
    var last: set<nat> := if !reqs[n].phase.Arrived? && !reqs[n].phase.Finished? then {n} else {};
    assert InService(reqs) == InService(reqs[..n]) + last;
    assert InService(reqs[..n]) !! last;
  }

  lemma OneMoreInSession(reqs: seq<Request>)
    requires reqs != []
    ensures var n := |reqs| - 1;
            |InSession(reqs)|
            == |InSession(reqs[..n])| + One(reqs[n].phase.Opening? || reqs[n].phase.Relaying? || reqs[n].phase.Closing?)
  {
    var n := |reqs| - 1;
    var last: set<nat> := if reqs[n].phase.Opening? || reqs[n].phase.Relaying? || reqs[n].phase.Closing? then {n} else {};
    assert InSession(reqs) == InSession(reqs[..n]) + last;
    assert InSession(reqs[..n]) !! last;
  }

  /** Slot conservation, in every state any interleaving can reach: the semaphore holds
      one slot for each unreleased grant, which are the requests between acquisition and
      release, and at most MaxConcurrent; the UDP slots in use are exactly the requests
      inside a session, each inside a grant; and when every request is over no slot is
      left behind. */
  lemma SlotConservation(lim: Limits, trace: seq<Action>, s: State)
    requires Reachable(lim, trace, s)
    ensures s.sem == Held(s.reqs) <= lim.maxConcurrent
    ensures s.udpSlots == Sessions(s.reqs) <= lim.udpSessions
    ensures s.sem == |InService(s.reqs)| && s.udpSlots == |InSession(s.reqs)|
    ensures s.udpSlots <= s.sem
    ensures (forall i :: 0 <= i < |s.reqs| ==> s.reqs[i].phase == Finished) ==> s.sem == 0 && s.udpSlots == 0
  {
    ReachableInv(lim, trace, s);
    assert forall i :: 0 <= i < |s.reqs| ==> RequestInv(s.reqs[i]);
    CountsCompared(s.reqs);
    CountsByPhase(s.reqs);
  }

  /** In no reachable state does a release or a worker's send on its `done` channel have
      to wait. */
  lemma NothingBlocks(lim: Limits, trace: seq<Action>, s: State, a: Action)
    requires Reachable(lim, trace, s) && Enabled(s, a)
    ensures !Blocks(s, a)
  {
    ReachableInv(lim, trace, s);
    NeverBlocks(lim, s, a);
  }

  /** A request is turned away exactly when the semaphore is full, and an authenticated
      one never meets a bucket. */
  lemma AcquireIff(lim: Limits, s: State, i: nat, authenticated: bool)
    requires Inv(lim, s) && i < |s.reqs| && s.reqs[i].phase == Arrived
    ensures var s' := Step(lim, s, Acquire(i, authenticated));
            && |s'.reqs| == |s.reqs|
            && s'.reqs[i].phase == (if s.sem == lim.maxConcurrent then Finished else if authenticated then Admitted else Checking)
            && s'.sem == (if s.sem == lim.maxConcurrent then s.sem else s.sem + 1)
            && s'.udpSlots == s.udpSlots
  {
  }

  /** A state in which request i and the slots are as given and all else is as in s. */
  function With(s: State, sem: nat, udpSlots: nat, i: nat, r: Request): State
    requires i < |s.reqs|
  {
    State(sem, udpSlots, s.reqs[i := r])
  }

  /** A UDP session opens, from any state with room for it: authenticated, it gets both
      slots and starts both workers. */
  lemma SessionOpens(lim: Limits, s: State, i: nat)
    requires Inv(lim, s) && i < |s.reqs| && s.reqs[i].phase == Arrived
    requires s.sem < lim.maxConcurrent && s.udpSlots < lim.udpSessions
    ensures var s1 := With(s, s.sem + 1, s.udpSlots, i, Request(Admitted, true, false, NotStarted, NotStarted, 0));
            var s2 := With(s, s.sem + 1, s.udpSlots + 1, i, Request(Opening, true, true, NotStarted, NotStarted, 0));
            var s3 := With(s, s.sem + 1, s.udpSlots + 1, i, Request(Relaying, true, true, Running, Running, 0));
            && Next(lim, s, Acquire(i, true), s1)
            && Next(lim, s1, Dispatch(i, true), s2)
            && Next(lim, s2, OpenSession(i, true), s3)
  {
    assert RequestInv(s.reqs[i]);
  }

  /** And closes: when a worker exits, the main loop leaves, the other worker's send on
      `done` does not wait for it, and both slots go back. */
  lemma SessionCloses(lim: Limits, s: State, i: nat, upFirst: bool)
    requires Inv(lim, s) && i < |s.reqs| && s.reqs[i] == Request(Relaying, true, true, Running, Running, 0)
    ensures s.sem > 0 && s.udpSlots > 0
    ensures var up, down := if upFirst then Exited else Running, if upFirst then Running else Exited;
            var s1 := With(s, s.sem, s.udpSlots, i, Request(Relaying, true, true, up, down, 1));
            var s2 := With(s, s.sem, s.udpSlots, i, Request(Closing, true, true, up, down, 0));
            var s3 := With(s, s.sem, s.udpSlots - 1, i, Request(Returning, true, false, up, down, 0));
            var s4 := With(s, s.sem - 1, s.udpSlots - 1, i, Request(Finished, false, false, up, down, 0));
            var s5 := With(s, s.sem - 1, s.udpSlots - 1, i, Request(Finished, false, false, Exited, Exited, 1));
            && Next(lim, s, if upFirst then UpExits(i) else DownExits(i), s1)
            && Next(lim, s1, Leave(i, true), s2)
            && Next(lim, s2, FreeUdp(i), s3)
            && Next(lim, s3, Release(i), s4)
            && Next(lim, s4, if upFirst then DownExits(i) else UpExits(i), s5)
  {
    HeldCovers(s.reqs, i);
  }

  /** A second release of a grant changes nothing. */
  lemma ReleaseIsIdempotent(lim: Limits, trace: seq<Action>, s: State, i: nat)
    requires Reachable(lim, trace, s) && i < |s.reqs| && s.reqs[i].phase == Finished
    ensures Enabled(s, ReleaseAgain(i)) && !Blocks(s, ReleaseAgain(i)) && Step(lim, s, ReleaseAgain(i)) == s
  {
    ReachableInv(lim, trace, s);
    assert RequestInv(s.reqs[i]);
    assert s.reqs[i := s.reqs[i]] == s.reqs;
  }

  /** A request the bucket refuses has no net effect on any slot. */
  lemma RefusalGivesBack(lim: Limits, s: State, i: nat)
    requires Inv(lim, s) && i < |s.reqs| && s.reqs[i].phase == Arrived && s.sem < lim.maxConcurrent
    ensures Enabled(s, Acquire(i, false))
    ensures var s1 := Step(lim, s, Acquire(i, false));
            && Enabled(s1, AskBucket(i, false))
            && var s2 := Step(lim, s1, AskBucket(i, false));
               && Enabled(s2, GiveBack(i)) && !Blocks(s2, GiveBack(i))
               && Step(lim, s2, GiveBack(i)) == s.(reqs := s.reqs[i := s.reqs[i].(phase := Finished)])
  {
  }
}
