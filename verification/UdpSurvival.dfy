/** How long a UDP session lasts (internal/quicx/udp.go): it ends as soon as either worker
    exits, and the environment can bring that about exactly when the limits allow it. */
module UdpSurvival {
  import opened Bytes
  import opened UdpCodec
  import opened UdpIntegrity
  import opened UdpRelay

  /** A target that datagrams can come from. */
  predicate Matchable(target: NetAddr) {
    target.UdpAddr? && target.ip.Some? && target.port != 0
  }

  /** No run of at most n events ends the session. */
  ghost predicate AlwaysOpen(target: NetAddr, clientMax: nat, serverMax: nat, n: nat) {
    forall rs, events ::
      IsRelayRun(target, clientMax, serverMax, rs, events) && |events| <= n ==> SessionOpen(rs[|events|])
  }

  /** Exactly the answers that end the worker reading the socket: those that pass its own
      checks but have more than 64 fragments, or come when the sequences are used up. */
  lemma AnswerEndsIff(down: DownLink, target: NetAddr, dg: Datagram)
    requires target.UdpAddr? && down.running
    ensures var max := down.world.enc.maxPacket;
            !Answer(down, target, dg).running <==>
              && SourceMatches(dg.source, target) && 0 < |dg.data| <= max
              && (|dg.data| > MAX_COUNT * PAYLOAD_SIZE || down.world.enc.exhausted)
  {
    var max := down.world.enc.maxPacket;
    var buf := dg.data[..Min(|dg.data|, max + 1)];
    assert |dg.data| <= max ==> buf == dg.data;
    EncodableIff(max, buf);
  }

  // ---------- Staying open ----------

  /** The session is open and has sent at most n packets to the client. */
  ghost predicate OpenAfter(r: Relay, n: nat) {
    SessionOpen(r) && exists sent: nat :: sent <= n && HasSent(r.down.world.enc, sent)
  }

  lemma AnswerStaysOpen(down: DownLink, target: NetAddr, dg: Datagram, sent: nat)
    requires target.UdpAddr? && down.running && HasSent(down.world.enc, sent) && sent < SEQUENCES
    requires down.world.enc.maxPacket <= MAX_COUNT * PAYLOAD_SIZE
    ensures var down' := Answer(down, target, dg);
            down'.running && (HasSent(down'.world.enc, sent) || HasSent(down'.world.enc, sent + 1))
  {
    AnswerEndsIff(down, target, dg);
  }

  lemma StepStaysOpen(r: Relay, event: RelayEvent, clientMax: nat, serverMax: nat, n: nat)
    requires RelayInv(r, clientMax, serverMax) && Possible(r, event) && OpenAfter(r, n) && n < SEQUENCES
    requires Largest(clientMax) <= serverMax <= MAX_COUNT * PAYLOAD_SIZE
    ensures OpenAfter(RelayStep(r, event), n + 1)
  {
    var sent: nat :| sent <= n && HasSent(r.down.world.enc, sent);
    match event {
      case ClientWrites(p) =>
      case ServerReceives(d) => FeedKeepsInv(r.up, d);
      case TargetAnswers(dg) => AnswerStaysOpen(r.down, r.target, dg, sent);
      case ClientReceives(d, size) =>
        var w := DeliverStep(r.down.world, d).0;
        assert w.enc == r.down.world.enc;
      case Teardown =>
    }
  }

  lemma RunStepStaysOpen(target: NetAddr, clientMax: nat, serverMax: nat, rs: seq<Relay>, events: seq<RelayEvent>, k: nat)
    requires IsRelayRun(target, clientMax, serverMax, rs, events) && k < |events| && k < SEQUENCES
    requires Largest(clientMax) <= serverMax <= MAX_COUNT * PAYLOAD_SIZE
    requires OpenAfter(rs[k], k)
    ensures OpenAfter(rs[k + 1], k + 1)
  {
    RelayRunInv(target, clientMax, serverMax, rs, events, k);
    assert EventAt(rs, events, k);
    StepStaysOpen(rs[k], events[k], clientMax, serverMax, k);
  }

  lemma {:induction false} StaysOpen(target: NetAddr, clientMax: nat, serverMax: nat,
                                     rs: seq<Relay>, events: seq<RelayEvent>, k: nat)
    requires IsRelayRun(target, clientMax, serverMax, rs, events) && k <= |events| && k <= SEQUENCES
    requires Largest(clientMax) <= serverMax <= MAX_COUNT * PAYLOAD_SIZE
    ensures OpenAfter(rs[k], k)
  {
    if k == 0 {
      assert HasSent(rs[0].down.world.enc, 0);
    } else {
      StaysOpen(target, clientMax, serverMax, rs, events, k - 1);
      RunStepStaysOpen(target, clientMax, serverMax, rs, events, k - 1);
    }
  }

  // ---------- Staying closed ----------

  /** Nothing passes a session whose workers have both stopped. */
  lemma StoppedStep(r: Relay, event: RelayEvent)
    requires r.target.UdpAddr? && !r.up.running && !r.down.running
    ensures var r' := RelayStep(r, event);
            && !r'.up.running && !r'.down.running
            && r'.up.toTarget == r.up.toTarget && r'.down.world.sent == r.down.world.sent
  {
  }

  /** The main loop's return is final: from then on nothing is written to the target and
      nothing more is sent to the client. */
  lemma {:induction false} TeardownIsFinal(target: NetAddr, clientMax: nat, serverMax: nat,
                                           rs: seq<Relay>, events: seq<RelayEvent>, j: nat, k: nat)
    requires IsRelayRun(target, clientMax, serverMax, rs, events) && j < k <= |events| && events[j] == Teardown
    ensures !rs[k].up.running && !rs[k].down.running
    ensures rs[k].up.toTarget == rs[j].up.toTarget && rs[k].down.world.sent == rs[j].down.world.sent
  {
    assert EventAt(rs, events, k - 1);
    if j < k - 1 {
      TeardownIsFinal(target, clientMax, serverMax, rs, events, j, k - 1);
      StoppedStep(rs[k - 1], events[k - 1]);
    }
  }

  // ---------- Extending a run ----------

  lemma StartRun(target: NetAddr, clientMax: nat, serverMax: nat)
    requires target.UdpAddr?
    ensures IsRelayRun(target, clientMax, serverMax, [Start(target, clientMax, serverMax)], [])
  {
  }

  lemma ExtendRun(target: NetAddr, clientMax: nat, serverMax: nat, rs: seq<Relay>, events: seq<RelayEvent>,
                  event: RelayEvent, r': Relay)
    requires IsRelayRun(target, clientMax, serverMax, rs, events)
    requires rs[|events|].target == target && Possible(rs[|events|], event) && r' == RelayStep(rs[|events|], event)
    ensures IsRelayRun(target, clientMax, serverMax, rs + [r'], events + [event])
  {
    forall k | 0 <= k < |events + [event]| ensures EventAt(rs + [r'], events + [event], k) {
      ExtendAt(target, clientMax, serverMax, rs, events, event, r', k);
    }
  }

  lemma ExtendAt(target: NetAddr, clientMax: nat, serverMax: nat, rs: seq<Relay>, events: seq<RelayEvent>,
                 event: RelayEvent, r': Relay, k: nat)
    requires IsRelayRun(target, clientMax, serverMax, rs, events) && k <= |events|
    requires rs[|events|].target == target && Possible(rs[|events|], event) && r' == RelayStep(rs[|events|], event)
    ensures EventAt(rs + [r'], events + [event], k)
  {
    if k < |events| {
      assert EventAt(rs, events, k);
    }
  }

  // ---------- Ended by an answer ----------

  /** A reply of 64001 bytes, one more than 64 fragments hold, ends the session whenever
      the server's limit lets it through. */
  lemma LongReplyEnds(target: NetAddr, clientMax: nat, serverMax: nat, data: bytes)
    requires Matchable(target) && MAX_COUNT * PAYLOAD_SIZE < |data| <= serverMax
    ensures var r := Start(target, clientMax, serverMax);
            var event := TargetAnswers(Datagram(data, target));
            && IsRelayRun(target, clientMax, serverMax, [r, RelayStep(r, event)], [event])
            && SessionOpen(r) && !SessionOpen(RelayStep(r, event))
  {
    var r := Start(target, clientMax, serverMax);
    var event := TargetAnswers(Datagram(data, target));
    StartRun(target, clientMax, serverMax);
    ExtendRun(target, clientMax, serverMax, [r], [], event, RelayStep(r, event));
    assert [r] + [RelayStep(r, event)] == [r, RelayStep(r, event)];
    AnswerEndsIff(r.down, target, event.dg);
  }

  /** A run in which the target answers n times. */
  lemma {:induction false} Answers(target: NetAddr, clientMax: nat, serverMax: nat, n: nat)
    returns (rs: seq<Relay>, events: seq<RelayEvent>)
    requires Matchable(target) && serverMax > 0 && n <= SEQUENCES
    ensures IsRelayRun(target, clientMax, serverMax, rs, events) && |events| == n && rs[n].target == target
    ensures rs[n].down.running && rs[n].down.world.enc.maxPacket == serverMax && HasSent(rs[n].down.world.enc, n)
  {
    if n == 0 {
      rs, events := [Start(target, clientMax, serverMax)], [];
      StartRun(target, clientMax, serverMax);
    } else {
      rs, events := Answers(target, clientMax, serverMax, n - 1);
      var event := TargetAnswers(Datagram([0], target));
      var r' := RelayStep(rs[n - 1], event);
      ShortReply(rs[n - 1].down, target, n - 1);
      ExtendRun(target, clientMax, serverMax, rs, events, event, r');
      rs, events := rs + [r'], events + [event];
    }
  }

  lemma ShortReply(down: DownLink, target: NetAddr, n: nat)
    requires Matchable(target) && down.running && down.world.enc.maxPacket > 0
    requires HasSent(down.world.enc, n) && n < SEQUENCES
    ensures var down' := Answer(down, target, Datagram([0], target));
            down'.running && HasSent(down'.world.enc, n + 1) && down'.world.enc.maxPacket == down.world.enc.maxPacket
  {
    var data: bytes := [0];
    assert data[..Min(|data|, down.world.enc.maxPacket + 1)] == data;
  }

  /** After 2^32 answers the next one ends the session. */
  lemma ExhaustionEnds(target: NetAddr, clientMax: nat, serverMax: nat, n: nat)
    requires Matchable(target) && serverMax > 0 && n > SEQUENCES
    ensures !AlwaysOpen(target, clientMax, serverMax, n)
  {
    var rs, events := Answers(target, clientMax, serverMax, SEQUENCES);
    var event := TargetAnswers(Datagram([0], target));
    var r' := RelayStep(rs[SEQUENCES], event);
    AnswerEndsIff(rs[SEQUENCES].down, target, event.dg);
    ExtendRun(target, clientMax, serverMax, rs, events, event, r');
    assert !SessionOpen((rs + [r'])[|events + [event]|]);
  }

  // ---------- Ended by a packet ----------

  /** The first j fragments of a packet have arrived, each of full size. */
  ghost predicate Awaiting(pending: Pending, sequence: uint32, count: nat, j: nat) {
    if j == 0 then sequence !in pending
    else sequence in pending && AwaitingIn(pending[sequence], count, j)
  }

  ghost predicate AwaitingIn(a: Assembly, count: nat, j: nat) {
    && a.count == count && a.received == j && a.total == j * PAYLOAD_SIZE && a.expiresAt > 0
    && forall i :: j <= i < count ==> a.parts[i].None?
  }

  /** The delivery of fragment j of a packet at time 0. */
  function Next(sequence: uint32, packet: bytes, j: nat): Delivery
    requires j < FragmentCount(|packet|) <= MAX_COUNT
  {
    Delivery(FragmentAt(sequence, packet, j).ToFrame(), 0, 0)
  }

  lemma PlaceNext(limit: nat, pending: Pending, sequence: uint32, packet: bytes, j: nat)
    requires j < FragmentCount(|packet|) <= MAX_COUNT
    requires sequence in pending && AwaitingIn(pending[sequence], FragmentCount(|packet|), j)
    ensures var (p', r) := Place(limit, pending, FragmentAt(sequence, packet, j));
            if j * PAYLOAD_SIZE + |Chunk(packet, j)| > limit then r == Rejected(PacketTooLarge)
            else j + 1 < FragmentCount(|packet|) && |Chunk(packet, j)| == PAYLOAD_SIZE ==>
              r == Nothing && Awaiting(p', sequence, FragmentCount(|packet|), j + 1)
  {
  }

  lemma DeliverNext(limit: nat, pending: Pending, sequence: uint32, packet: bytes, j: nat)
    requires j < FragmentCount(|packet|) <= MAX_COUNT && Awaiting(pending, sequence, FragmentCount(|packet|), j)
    ensures var (p', r) := DecodeStep(limit, pending, Next(sequence, packet, j));
            if j * PAYLOAD_SIZE + |Chunk(packet, j)| > limit then r == Rejected(PacketTooLarge)
            else j + 1 < FragmentCount(|packet|) && |Chunk(packet, j)| == PAYLOAD_SIZE ==>
              r == Nothing && Awaiting(p', sequence, FragmentCount(|packet|), j + 1)
  {
    var f := FragmentAt(sequence, packet, j);
    ParseUndoesToFrame(f);
    var pruned := Prune(pending, 0);
    PlaceNext(limit, if sequence in pruned then pruned else Open(pruned, f, 0, 0), sequence, packet, j);
  }

  /** The sizes of the fragments: all full but the last, which completes the packet. */
  lemma ChunkSizes(packet: bytes, j: nat)
    requires j < FragmentCount(|packet|)
    ensures j + 1 < FragmentCount(|packet|) ==> |Chunk(packet, j)| == PAYLOAD_SIZE && j * PAYLOAD_SIZE + PAYLOAD_SIZE < |packet|
    ensures j + 1 == FragmentCount(|packet|) ==> j * PAYLOAD_SIZE + |Chunk(packet, j)| == |packet|
  {
  }

  /** The client has written one packet, one byte over the server's limit, and its first
      j fragments have arrived. */
  ghost predicate Midway(r: Relay, target: NetAddr, serverMax: nat, packet: bytes, j: nat) {
    && r.target == target && r.up.running && r.up.world.decLimit == serverMax
    && 0 in r.up.world.sent && r.up.world.sent[0] == packet
    && Awaiting(r.up.world.pending, 0, FragmentCount(|packet|), j)
  }

  lemma NextIsInFlight(sent: map<uint32, bytes>, packet: bytes, j: nat)
    requires 0 in sent && sent[0] == packet && j < FragmentCount(|packet|) <= MAX_COUNT
    ensures InFlight(sent, Next(0, packet, j).frame)
  {
    assert IsFrameOf(Next(0, packet, j).frame, 0, packet);
  }

  lemma FeedNext(r: Relay, target: NetAddr, serverMax: nat, packet: bytes, j: nat)
    requires target.UdpAddr? && Midway(r, target, serverMax, packet, j)
    requires j < FragmentCount(|packet|) <= MAX_COUNT && |packet| == serverMax + 1
    ensures var event := ServerReceives(Next(0, packet, j));
            && Possible(r, event)
            && (if j + 1 < FragmentCount(|packet|) then Midway(RelayStep(r, event), target, serverMax, packet, j + 1)
                else !SessionOpen(RelayStep(r, event)))
  {
    NextIsInFlight(r.up.world.sent, packet, j);
    ChunkSizes(packet, j);
    DeliverNext(serverMax, r.up.world.pending, 0, packet, j);
  }

  /** A run in which one more fragment arrives. */
  lemma FragmentArrives(target: NetAddr, clientMax: nat, serverMax: nat, packet: bytes, j: nat,
                        rs: seq<Relay>, events: seq<RelayEvent>)
    returns (rs': seq<Relay>, events': seq<RelayEvent>)
    requires IsRelayRun(target, clientMax, serverMax, rs, events) && Midway(rs[|events|], target, serverMax, packet, j)
    requires j < FragmentCount(|packet|) <= MAX_COUNT && |packet| == serverMax + 1
    ensures IsRelayRun(target, clientMax, serverMax, rs', events') && |events'| == |events| + 1
    ensures if j + 1 < FragmentCount(|packet|) then Midway(rs'[|events'|], target, serverMax, packet, j + 1)
            else !SessionOpen(rs'[|events'|])
  {
    var event := ServerReceives(Next(0, packet, j));
    var r' := RelayStep(rs[|events|], event);
    FeedNext(rs[|events|], target, serverMax, packet, j);
    ExtendRun(target, clientMax, serverMax, rs, events, event, r');
    rs', events' := rs + [r'], events + [event];
  }

  /** A run in which the client writes the packet. */
  lemma FirstWrite(target: NetAddr, clientMax: nat, serverMax: nat, packet: bytes)
    returns (rs: seq<Relay>, events: seq<RelayEvent>)
    requires target.UdpAddr? && Encodable(clientMax, packet)
    ensures IsRelayRun(target, clientMax, serverMax, rs, events) && |events| == 1
    ensures Midway(rs[1], target, serverMax, packet, 0)
  {
    var r, event := Start(target, clientMax, serverMax), ClientWrites(packet);
    StartRun(target, clientMax, serverMax);
    ExtendRun(target, clientMax, serverMax, [r], [], event, RelayStep(r, event));
    rs, events := [r] + [RelayStep(r, event)], [] + [event];
  }

  /** A run in which the client writes the packet and its first j fragments arrive. */
  lemma {:induction false} Fragments(target: NetAddr, clientMax: nat, serverMax: nat, packet: bytes, j: nat)
    returns (rs: seq<Relay>, events: seq<RelayEvent>)
    requires target.UdpAddr? && Encodable(clientMax, packet) && |packet| == serverMax + 1
    requires j < FragmentCount(|packet|)
    ensures IsRelayRun(target, clientMax, serverMax, rs, events) && |events| == j + 1
    ensures Midway(rs[j + 1], target, serverMax, packet, j)
  {
    if j == 0 {
      rs, events := FirstWrite(target, clientMax, serverMax, packet);
    } else {
      rs, events := Fragments(target, clientMax, serverMax, packet, j - 1);
      rs, events := FragmentArrives(target, clientMax, serverMax, packet, j - 1, rs, events);
    }
  }

  /** A packet one byte over the server's limit ends the session once all its fragments
      are there, if the client can encode it. */
  lemma LongPacketEnds(target: NetAddr, clientMax: nat, serverMax: nat, packet: bytes, n: nat)
    requires target.UdpAddr? && Encodable(clientMax, packet) && |packet| == serverMax + 1
    requires n > FragmentCount(|packet|)
    ensures !AlwaysOpen(target, clientMax, serverMax, n)
  {
    var j := FragmentCount(|packet|) - 1;
    var rs, events := Fragments(target, clientMax, serverMax, packet, j);
    rs, events := FragmentArrives(target, clientMax, serverMax, packet, j, rs, events);
    assert !SessionOpen(rs[|events|]);
  }

  function Zeros(n: nat): (data: bytes)
    ensures |data| == n
  {
    if n == 0 then [] else Zeros(n - 1) + [0]
  }

  // ---------- Exactly ----------

  /** Session survival, exactly: whatever client, network, target and clock do, no run of
      at most n events ends the session, if and only if the server's limit covers every
      packet the client can encode, is itself within what 64 fragments hold, and n does
      not exceed the 2^32 sequence numbers.  (A run that breaks the limits needs at most
      one write and 64 deliveries.) */
  lemma SurvivesIff(target: NetAddr, clientMax: nat, serverMax: nat, n: nat)
    requires Matchable(target) && clientMax > 0 && serverMax > 0 && n > MAX_COUNT
    ensures AlwaysOpen(target, clientMax, serverMax, n) <==>
              Largest(clientMax) <= serverMax <= MAX_COUNT * PAYLOAD_SIZE && n <= SEQUENCES
  {
    if n > SEQUENCES {
      ExhaustionEnds(target, clientMax, serverMax, n);
    } else if serverMax > MAX_COUNT * PAYLOAD_SIZE {
      LongReplyEnds(target, clientMax, serverMax, Zeros(serverMax));
    } else if Largest(clientMax) > serverMax {
      EncodableIff(clientMax, Zeros(serverMax + 1));
      LongPacketEnds(target, clientMax, serverMax, Zeros(serverMax + 1), n);
    } else {
      forall rs, events | IsRelayRun(target, clientMax, serverMax, rs, events) && |events| <= n
        ensures SessionOpen(rs[|events|])
      {
        StaysOpen(target, clientMax, serverMax, rs, events, |events|);
      }
    }
  }
}
