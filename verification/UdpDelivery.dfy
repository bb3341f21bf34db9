/** What must come out of a UDP association (internal/quicx/udp.go, udp_client.go): the
    target and the client's reader get exactly what the decoders return, and a packet
    whose fragments arrive in time comes out at the other end. */
module UdpDelivery {
  import opened Bytes
  import opened UdpCodec
  import opened UdpIntegrity
  import opened UdpCompleteness
  import opened UdpRelay

  // ---------- Exactly what the decoders return ----------

  /** The packet, if any, that the server's decoder returns to a running worker. */
  function DecodedUp(r: Relay, event: RelayEvent): seq<bytes> {
    if event.ServerReceives? && r.up.running then
      match DecodeStep(r.up.world.decLimit, r.up.world.pending, event.d).1
      case Packet(data) => [data]
      case _ => []
    else []
  }

  /** The packet, if any, that the client's decoder returns, cut to the reader's buffer. */
  function DecodedDown(r: Relay, event: RelayEvent): seq<(bytes, nat)> {
    if event.ClientReceives? then
      match DecodeStep(r.down.world.decLimit, r.down.world.pending, event.d).1
      case Packet(data) => [(if |data| <= event.size then data else data[..event.size], event.size)]
      case _ => []
    else []
  }

  function AllDecodedUp(rs: seq<Relay>, events: seq<RelayEvent>, k: nat): seq<bytes>
    requires |rs| == |events| + 1 && k <= |events|
  {
    if k == 0 then [] else AllDecodedUp(rs, events, k - 1) + DecodedUp(rs[k - 1], events[k - 1])
  }

  function AllDecodedDown(rs: seq<Relay>, events: seq<RelayEvent>, k: nat): seq<(bytes, nat)>
    requires |rs| == |events| + 1 && k <= |events|
  {
    if k == 0 then [] else AllDecodedDown(rs, events, k - 1) + DecodedDown(rs[k - 1], events[k - 1])
  }

  lemma StepHandsOver(r: Relay, event: RelayEvent)
    requires r.target.UdpAddr?
    ensures RelayStep(r, event).up.toTarget == r.up.toTarget + DecodedUp(r, event)
    ensures RelayStep(r, event).down.read == r.down.read + DecodedDown(r, event)
  {
    assert r.up.toTarget + [] == r.up.toTarget && r.down.read + [] == r.down.read;
    if event.ClientReceives? {
      ReturnHandsOver(r.down, DeliverStep(r.down.world, event.d).0, DeliverStep(r.down.world, event.d).1, event.size);
    }
  }

  lemma ReturnHandsOver(down: DownLink, w': World, outcome: Outcome, size: nat)
    ensures outcome.Packet? ==>
              var data := outcome.data;
              Return(down, w', outcome, size).read == down.read + [(if |data| <= size then data else data[..size], size)]
    ensures !outcome.Packet? ==> Return(down, w', outcome, size).read == down.read
  {
    if outcome.Packet? && |outcome.data| <= size {
      assert outcome.data[..|outcome.data|] == outcome.data;
    }
  }

  lemma RunHandsOver(target: NetAddr, clientMax: nat, serverMax: nat, rs: seq<Relay>, events: seq<RelayEvent>, k: nat)
    requires IsRelayRun(target, clientMax, serverMax, rs, events) && k < |events|
    ensures rs[k + 1].up.toTarget == rs[k].up.toTarget + DecodedUp(rs[k], events[k])
    ensures rs[k + 1].down.read == rs[k].down.read + DecodedDown(rs[k], events[k])
  {
    assert EventAt(rs, events, k);
    StepHandsOver(rs[k], events[k]);
  }

  lemma {:induction false} TargetGetsAll(target: NetAddr, clientMax: nat, serverMax: nat,
                                         rs: seq<Relay>, events: seq<RelayEvent>, k: nat)
    requires IsRelayRun(target, clientMax, serverMax, rs, events) && k <= |events|
    ensures rs[k].up.toTarget == AllDecodedUp(rs, events, k)
  {
    if k > 0 {
      TargetGetsAll(target, clientMax, serverMax, rs, events, k - 1);
      RunHandsOver(target, clientMax, serverMax, rs, events, k - 1);
      assert AllDecodedUp(rs, events, k) == AllDecodedUp(rs, events, k - 1) + DecodedUp(rs[k - 1], events[k - 1]);
    }
  }

  lemma {:induction false} ReaderGetsAll(target: NetAddr, clientMax: nat, serverMax: nat,
                                         rs: seq<Relay>, events: seq<RelayEvent>, k: nat)
    requires IsRelayRun(target, clientMax, serverMax, rs, events) && k <= |events|
    ensures rs[k].down.read == AllDecodedDown(rs, events, k)
  {
    if k > 0 {
      ReaderGetsAll(target, clientMax, serverMax, rs, events, k - 1);
      RunHandsOver(target, clientMax, serverMax, rs, events, k - 1);
      assert AllDecodedDown(rs, events, k) == AllDecodedDown(rs, events, k - 1) + DecodedDown(rs[k - 1], events[k - 1]);
    }
  }

  /** Nothing the decoders return is lost, repeated or reordered: in every run, the
      packets written to the target are exactly those the server's decoder returned while
      its worker ran, and those read are exactly those the client's decoder returned, cut
      to the buffers. */
  lemma HandsOverAll(target: NetAddr, clientMax: nat, serverMax: nat, rs: seq<Relay>, events: seq<RelayEvent>, k: nat)
    requires IsRelayRun(target, clientMax, serverMax, rs, events) && k <= |events|
    ensures rs[k].up.toTarget == AllDecodedUp(rs, events, k)
    ensures rs[k].down.read == AllDecodedDown(rs, events, k)
  {
    TargetGetsAll(target, clientMax, serverMax, rs, events, k);
    ReaderGetsAll(target, clientMax, serverMax, rs, events, k);
  }

  // ---------- A decoder among other events ----------

  /** One decoder watched for one sequence through the events of a run: `xs[k]` is the
      frame that event k brings it, if any. */
  ghost predicate WatchAt(limit: nat, ts: seq<Track>, xs: seq<Option<Delivery>>, sequence: uint32, k: nat)
    requires |ts| == |xs| + 1 && k < |xs|
  {
    ts[k + 1] == if xs[k].Some? then Advance(limit, ts[k], xs[k].value, sequence) else ts[k]
  }

  /** What the time and the evictions must be like at event k: readings within two seconds
      of the first fragment, which comes before any other frame. */
  ghost predicate Punctual(ts: seq<Track>, xs: seq<Option<Delivery>>, sequence: uint32, first: int, k: nat)
    requires |ts| == |xs| + 1 && k < |xs|
  {
    xs[k].Some? ==>
      && LegalChoice(ts[k].pending, xs[k].value)
      && first <= xs[k].value.now < first + 2_000_000_000
      && (ts[k].arrived == {} ==> OfSequence(xs[k].value, sequence) && xs[k].value.now == first)
  }

  /** The circumstances under which a packet must come out: from event `start` to event
      n, every call is punctual; the sequence is not pending at the start; and at most
      fifteen other assemblies were opened no earlier than its own. */
  ghost predicate InTime(limit: nat, ts: seq<Track>, xs: seq<Option<Delivery>>, sequence: uint32, first: int, start: nat, n: nat) {
    && |ts| == |xs| + 1 && start <= n <= |xs|
    && (forall k :: start <= k < n ==> WatchAt(limit, ts, xs, sequence, k))
    && (forall k :: start <= k < n ==> Punctual(ts, xs, sequence, first, k))
    && ts[start] == Track(ts[start].pending, {}, 0)
    && sequence !in Prune(ts[start].pending, first)
    && |Younger(ts[start].pending, sequence, first + 2_000_000_000)| + ts[n].others <= 15
  }

  /** Frames of the sequence are frames of the packet. */
  ghost predicate HonestAt(xs: seq<Option<Delivery>>, sequence: uint32, packet: bytes, k: nat)
    requires k < |xs|
  {
    xs[k].Some? && OfSequence(xs[k].value, sequence) ==> IsFrameOf(xs[k].value.frame, sequence, packet)
  }

  ghost predicate HonestFrames(xs: seq<Option<Delivery>>, sequence: uint32, packet: bytes, start: nat) {
    forall k :: start <= k < |xs| ==> HonestAt(xs, sequence, packet, k)
  }

  lemma WatchGrows(limit: nat, ts: seq<Track>, xs: seq<Option<Delivery>>, sequence: uint32, first: int, start: nat, n: nat, k: nat)
    requires InTime(limit, ts, xs, sequence, first, start, n) && start <= k < n
    ensures ts[k].arrived <= ts[k + 1].arrived && ts[k].others <= ts[k + 1].others
  {
    assert WatchAt(limit, ts, xs, sequence, k);
    if xs[k].Some? {
      AdvanceGrows(limit, ts[k], xs[k].value, sequence);
    }
  }

  lemma {:induction false} OthersGrow(limit: nat, ts: seq<Track>, xs: seq<Option<Delivery>>, sequence: uint32,
                                      first: int, start: nat, n: nat, j: nat, k: nat)
    requires InTime(limit, ts, xs, sequence, first, start, n) && start <= j <= k <= n
    ensures ts[j].arrived <= ts[k].arrived && ts[j].others <= ts[k].others
  {
    if j < k {
      OthersGrow(limit, ts, xs, sequence, first, start, n, j, k - 1);
      WatchGrows(limit, ts, xs, sequence, first, start, n, k - 1);
    }
  }

  lemma WatchedCallOk(limit: nat, ts: seq<Track>, xs: seq<Option<Delivery>>, sequence: uint32, packet: bytes,
                      first: int, start: nat, n: nat, k: nat)
    requires InTime(limit, ts, xs, sequence, first, start, n) && start <= k < n && xs[k].Some?
    requires HonestFrames(xs, sequence, packet, start)
    ensures CallOk(ts[k], xs[k].value, sequence, packet, first)
    ensures |Younger(ts[start].pending, sequence, first + 2_000_000_000)| + ts[k + 1].others <= 15
  {
    assert Punctual(ts, xs, sequence, first, k) && HonestAt(xs, sequence, packet, k);
    OthersGrow(limit, ts, xs, sequence, first, start, n, k + 1, n);
  }

  /** One event, while a fragment is missing. */
  lemma LinkStep(limit: nat, ts: seq<Track>, xs: seq<Option<Delivery>>, sequence: uint32, packet: bytes,
                 first: int, start: nat, n: nat, k: nat)
    requires InTime(limit, ts, xs, sequence, first, start, n) && start <= k < n
    requires HonestFrames(xs, sequence, packet, start) && Encodable(limit, packet)
    requires !Covers(ts[k].arrived, packet)
    requires Waiting(limit, ts[k], sequence, packet, first, |Younger(ts[start].pending, sequence, first + 2_000_000_000)|)
    ensures if Covers(ts[k + 1].arrived, packet) then
              xs[k].Some? && DecodeStep(limit, ts[k].pending, xs[k].value).1 == Packet(packet)
            else
              && (xs[k].Some? && OfSequence(xs[k].value, sequence) ==>
                    DecodeStep(limit, ts[k].pending, xs[k].value).1 == Nothing)
              && Waiting(limit, ts[k + 1], sequence, packet, first,
                         |Younger(ts[start].pending, sequence, first + 2_000_000_000)|)
  {
    assert WatchAt(limit, ts, xs, sequence, k);
    if xs[k].Some? {
      WatchedCallOk(limit, ts, xs, sequence, packet, first, start, n, k);
      WaitingStep(limit, ts[k], xs[k].value, sequence, packet, first,
                  |Younger(ts[start].pending, sequence, first + 2_000_000_000)|);
    }
  }

  lemma KeepsWaiting(limit: nat, ts: seq<Track>, xs: seq<Option<Delivery>>, sequence: uint32, packet: bytes,
                     first: int, start: nat, n: nat, k: nat)
    requires InTime(limit, ts, xs, sequence, first, start, n) && start <= k < n
    requires HonestFrames(xs, sequence, packet, start) && Encodable(limit, packet)
    requires !Covers(ts[k].arrived, packet) && !Covers(ts[k + 1].arrived, packet)
    requires Waiting(limit, ts[k], sequence, packet, first, |Younger(ts[start].pending, sequence, first + 2_000_000_000)|)
    ensures Waiting(limit, ts[k + 1], sequence, packet, first, |Younger(ts[start].pending, sequence, first + 2_000_000_000)|)
  {
    LinkStep(limit, ts, xs, sequence, packet, first, start, n, k);
  }

  lemma LinkStarts(limit: nat, t: Track, sequence: uint32, packet: bytes, first: int)
    requires BooksInv(limit, t.pending) && sequence !in Prune(t.pending, first) && t == Track(t.pending, {}, 0)
    ensures Waiting(limit, t, sequence, packet, first, |Younger(t.pending, sequence, first + 2_000_000_000)|)
  {
  }

  lemma {:induction false} LinkWaits(limit: nat, ts: seq<Track>, xs: seq<Option<Delivery>>, sequence: uint32, packet: bytes,
                                     first: int, start: nat, n: nat, k: nat)
    requires InTime(limit, ts, xs, sequence, first, start, n) && start <= k <= n
    requires HonestFrames(xs, sequence, packet, start) && Encodable(limit, packet) && BooksInv(limit, ts[start].pending)
    requires !Covers(ts[k].arrived, packet)
    ensures Waiting(limit, ts[k], sequence, packet, first, |Younger(ts[start].pending, sequence, first + 2_000_000_000)|)
  {
    if k == start {
      LinkStarts(limit, ts[start], sequence, packet, first);
    } else {
      OthersGrow(limit, ts, xs, sequence, first, start, n, k - 1, k);
      LinkWaits(limit, ts, xs, sequence, packet, first, start, n, k - 1);
      KeepsWaiting(limit, ts, xs, sequence, packet, first, start, n, k - 1);
    }
  }

  /** What the decoder returns at each event, until the packet is complete. */
  lemma LinkDelivers(limit: nat, ts: seq<Track>, xs: seq<Option<Delivery>>, sequence: uint32, packet: bytes,
                     first: int, start: nat, n: nat, k: nat)
    requires InTime(limit, ts, xs, sequence, first, start, n) && start <= k < n
    requires HonestFrames(xs, sequence, packet, start) && Encodable(limit, packet) && BooksInv(limit, ts[start].pending)
    requires !Covers(ts[k].arrived, packet)
    ensures if Covers(ts[k + 1].arrived, packet) then
              xs[k].Some? && DecodeStep(limit, ts[k].pending, xs[k].value).1 == Packet(packet)
            else
              xs[k].Some? && OfSequence(xs[k].value, sequence) ==> DecodeStep(limit, ts[k].pending, xs[k].value).1 == Nothing
  {
    LinkWaits(limit, ts, xs, sequence, packet, first, start, n, k);
    LinkStep(limit, ts, xs, sequence, packet, first, start, n, k);
  }

  function PendingAfter(limit: nat, pending: Pending, x: Option<Delivery>): Pending {
    if x.Some? then DecodeStep(limit, pending, x.value).0 else pending
  }

  lemma WatchedPending(limit: nat, ts: seq<Track>, xs: seq<Option<Delivery>>, sequence: uint32, first: int, start: nat, n: nat, k: nat)
    requires InTime(limit, ts, xs, sequence, first, start, n) && start <= k < n
    ensures ts[k + 1].pending == PendingAfter(limit, ts[k].pending, xs[k])
  {
    assert WatchAt(limit, ts, xs, sequence, k);
  }

  /** The limits never change and the decoders keep their books. */
  lemma RunFacts(target: NetAddr, clientMax: nat, serverMax: nat, rs: seq<Relay>, events: seq<RelayEvent>, k: nat)
    requires IsRelayRun(target, clientMax, serverMax, rs, events) && k <= |events|
    ensures rs[k].target == target
    ensures rs[k].up.world.enc.maxPacket == rs[k].down.world.decLimit == clientMax
    ensures rs[k].down.world.enc.maxPacket == rs[k].up.world.decLimit == serverMax
    ensures BooksInv(serverMax, rs[k].up.world.pending) && BooksInv(clientMax, rs[k].down.world.pending)
  {
    RelayRunInv(target, clientMax, serverMax, rs, events, k);
  }

  // ---------- Client to target ----------

  /** The frame the server's decoder is given at an event. */
  function TakenUp(r: Relay, event: RelayEvent): Option<Delivery> {
    if event.ServerReceives? && r.up.running then Some(event.d) else None
  }

  function FramesUp(rs: seq<Relay>, events: seq<RelayEvent>): (xs: seq<Option<Delivery>>)
    requires |rs| == |events| + 1
    ensures |xs| == |events| && forall k :: 0 <= k < |events| ==> xs[k] == TakenUp(rs[k], events[k])
  {
    if events == [] then []
    else FramesUp(rs[..|events|], events[..|events| - 1]) + [TakenUp(rs[|events| - 1], events[|events| - 1])]
  }

  lemma PendingUp(r: Relay, event: RelayEvent)
    requires r.target.UdpAddr?
    ensures RelayStep(r, event).up.world.pending == PendingAfter(r.up.world.decLimit, r.up.world.pending, TakenUp(r, event))
  {
  }

  lemma RunPendingUp(target: NetAddr, clientMax: nat, serverMax: nat, rs: seq<Relay>, events: seq<RelayEvent>, k: nat)
    requires IsRelayRun(target, clientMax, serverMax, rs, events) && k < |events|
    ensures rs[k + 1].up.world.pending == PendingAfter(serverMax, rs[k].up.world.pending, TakenUp(rs[k], events[k]))
  {
    assert EventAt(rs, events, k);
    RunFacts(target, clientMax, serverMax, rs, events, k);
    PendingUp(rs[k], events[k]);
  }

  lemma SentUpStays(r: Relay, event: RelayEvent, clientMax: nat, serverMax: nat, s: uint32)
    requires RelayInv(r, clientMax, serverMax) && s in r.up.world.sent
    ensures s in RelayStep(r, event).up.world.sent && RelayStep(r, event).up.world.sent[s] == r.up.world.sent[s]
  {
    if event.ClientWrites? {
      SendKeepsInv(r.up.world, event.p);
    }
  }

  lemma StillSentUp(target: NetAddr, clientMax: nat, serverMax: nat, rs: seq<Relay>, events: seq<RelayEvent>, k: nat, s: uint32)
    requires IsRelayRun(target, clientMax, serverMax, rs, events) && k < |events| && s in rs[k].up.world.sent
    ensures s in rs[k + 1].up.world.sent && rs[k + 1].up.world.sent[s] == rs[k].up.world.sent[s]
  {
    assert EventAt(rs, events, k);
    RelayRunInv(target, clientMax, serverMax, rs, events, k);
    SentUpStays(rs[k], events[k], clientMax, serverMax, s);
  }

  /** Event w gives the packet to WriteTo, which sends it under the sequence. */
  ghost predicate WrittenAs(rs: seq<Relay>, events: seq<RelayEvent>, w: nat, sequence: uint32, packet: bytes)
    requires |rs| == |events| + 1 && w < |events|
  {
    && events[w] == ClientWrites(packet)
    && EncodeStep(rs[w].up.world.enc, packet).1.Frames? && rs[w].up.world.enc.nextSeq == sequence
  }

  lemma {:induction false} StaysSentUp(target: NetAddr, clientMax: nat, serverMax: nat, rs: seq<Relay>, events: seq<RelayEvent>,
                                       w: nat, sequence: uint32, packet: bytes, k: nat)
    requires IsRelayRun(target, clientMax, serverMax, rs, events) && w < k <= |events|
    requires WrittenAs(rs, events, w, sequence, packet)
    ensures sequence in rs[k].up.world.sent && rs[k].up.world.sent[sequence] == packet
  {
    if w < k - 1 {
      StaysSentUp(target, clientMax, serverMax, rs, events, w, sequence, packet, k - 1);
      StillSentUp(target, clientMax, serverMax, rs, events, k - 1, sequence);
    } else {
      assert EventAt(rs, events, w);
    }
  }

  /** A genuine frame of a sequence is a frame of the packet sent under it. */
  lemma FrameOfSent(sent: map<uint32, bytes>, d: Delivery, sequence: uint32)
    requires InFlight(sent, d.frame) && OfSequence(d, sequence) && sequence in sent
    ensures IsFrameOf(d.frame, sequence, sent[sequence])
  {
    var s :| s in sent && IsFrameOf(d.frame, s, sent[s]);
    var i :| 0 <= i < FragmentCount(|sent[s]|) && d.frame == FragmentAt(s, sent[s], i).ToFrame();
    ParseUndoesToFrame(FragmentAt(s, sent[s], i));
  }

  lemma HonestUp(target: NetAddr, clientMax: nat, serverMax: nat, rs: seq<Relay>, events: seq<RelayEvent>,
                  w: nat, sequence: uint32, packet: bytes, start: nat)
    requires IsRelayRun(target, clientMax, serverMax, rs, events) && w < start
    requires w < |events| && WrittenAs(rs, events, w, sequence, packet)
    ensures HonestFrames(FramesUp(rs, events), sequence, packet, start)
  {
    var xs := FramesUp(rs, events);
    forall k | start <= k < |xs| ensures HonestAt(xs, sequence, packet, k) {
      if xs[k].Some? && OfSequence(xs[k].value, sequence) {
        assert EventAt(rs, events, k);
        StaysSentUp(target, clientMax, serverMax, rs, events, w, sequence, packet, k);
        FrameOfSent(rs[k].up.world.sent, events[k].d, sequence);
      }
    }
  }

  /** The watched decoder is the one of the run. */
  lemma {:induction false} WatchesUp(target: NetAddr, clientMax: nat, serverMax: nat, rs: seq<Relay>, events: seq<RelayEvent>,
                                     ts: seq<Track>, sequence: uint32, first: int, start: nat, n: nat, k: nat)
    requires IsRelayRun(target, clientMax, serverMax, rs, events)
    requires InTime(serverMax, ts, FramesUp(rs, events), sequence, first, start, n) && start <= k <= n
    requires ts[start].pending == rs[start].up.world.pending
    ensures ts[k].pending == rs[k].up.world.pending
  {
    if k > start {
      WatchesUp(target, clientMax, serverMax, rs, events, ts, sequence, first, start, n, k - 1);
      WatchedPending(serverMax, ts, FramesUp(rs, events), sequence, first, start, n, k - 1);
      RunPendingUp(target, clientMax, serverMax, rs, events, k - 1);
    }
  }

  /** End to end, upwards: a packet given to WriteTo, within the server's limit, is written
      to the target at the very event that brings its last missing fragment, in whatever
      order they come and whatever happens in between, as long as they come in time; no
      earlier frame of it makes anything come out. */
  lemma WrittenReachesTarget(target: NetAddr, clientMax: nat, serverMax: nat, rs: seq<Relay>, events: seq<RelayEvent>,
                             ts: seq<Track>, w: nat, sequence: uint32, packet: bytes, first: int, start: nat, n: nat, k: nat)
    requires IsRelayRun(target, clientMax, serverMax, rs, events) && w < start <= k < n <= |events|
    requires WrittenAs(rs, events, w, sequence, packet) && |packet| <= serverMax
    requires InTime(serverMax, ts, FramesUp(rs, events), sequence, first, start, n)
    requires ts[start].pending == rs[start].up.world.pending
    requires !Covers(ts[k].arrived, packet)
    ensures if Covers(ts[k + 1].arrived, packet)
            then rs[k + 1].up.toTarget == rs[k].up.toTarget + [packet]
            else events[k].ServerReceives? && OfSequence(events[k].d, sequence) ==>
              rs[k + 1].up.toTarget == rs[k].up.toTarget
  {
    var xs := FramesUp(rs, events);
    RunFacts(target, clientMax, serverMax, rs, events, w);
    RunFacts(target, clientMax, serverMax, rs, events, start);
    RunFacts(target, clientMax, serverMax, rs, events, k);
    HonestUp(target, clientMax, serverMax, rs, events, w, sequence, packet, start);
    WatchesUp(target, clientMax, serverMax, rs, events, ts, sequence, first, start, n, k);
    LinkDelivers(serverMax, ts, xs, sequence, packet, first, start, n, k);
    RunHandsOver(target, clientMax, serverMax, rs, events, k);
  }

  // ---------- Target to client ----------

  function TakenDown(event: RelayEvent): Option<Delivery> {
    if event.ClientReceives? then Some(event.d) else None
  }

  function FramesDown(events: seq<RelayEvent>): (xs: seq<Option<Delivery>>)
    ensures |xs| == |events| && forall k :: 0 <= k < |events| ==> xs[k] == TakenDown(events[k])
  {
    if events == [] then [] else FramesDown(events[..|events| - 1]) + [TakenDown(events[|events| - 1])]
  }

  lemma PendingDown(r: Relay, event: RelayEvent)
    requires r.target.UdpAddr?
    ensures RelayStep(r, event).down.world.pending == PendingAfter(r.down.world.decLimit, r.down.world.pending, TakenDown(event))
  {
  }

  lemma RunPendingDown(target: NetAddr, clientMax: nat, serverMax: nat, rs: seq<Relay>, events: seq<RelayEvent>, k: nat)
    requires IsRelayRun(target, clientMax, serverMax, rs, events) && k < |events|
    ensures rs[k + 1].down.world.pending == PendingAfter(clientMax, rs[k].down.world.pending, TakenDown(events[k]))
  {
    assert EventAt(rs, events, k);
    RunFacts(target, clientMax, serverMax, rs, events, k);
    PendingDown(rs[k], events[k]);
  }

  lemma SentDownStays(r: Relay, event: RelayEvent, clientMax: nat, serverMax: nat, s: uint32)
    requires RelayInv(r, clientMax, serverMax) && s in r.down.world.sent
    ensures s in RelayStep(r, event).down.world.sent && RelayStep(r, event).down.world.sent[s] == r.down.world.sent[s]
  {
    if event.TargetAnswers? && r.down.running {
      AnswerForwardsIff(r.down, r.target, event.dg);
    }
  }

  /** At event w the target's datagram reaches the running worker and can be encoded, and
      the sequence is the next one. */
  ghost predicate AnsweredAs(rs: seq<Relay>, events: seq<RelayEvent>, target: NetAddr, w: nat, sequence: uint32, packet: bytes)
    requires |rs| == |events| + 1 && w < |events| && target.UdpAddr?
  {
    && events[w].TargetAnswers? && events[w].dg.data == packet && SourceMatches(events[w].dg.source, target)
    && rs[w].down.running && Encodable(rs[w].down.world.enc.maxPacket, packet)
    && !rs[w].down.world.enc.exhausted && rs[w].down.world.enc.nextSeq == sequence
  }

  lemma {:induction false} StaysSentDown(target: NetAddr, clientMax: nat, serverMax: nat, rs: seq<Relay>, events: seq<RelayEvent>,
                                         w: nat, sequence: uint32, packet: bytes, k: nat)
    requires IsRelayRun(target, clientMax, serverMax, rs, events) && w < k <= |events|
    requires AnsweredAs(rs, events, target, w, sequence, packet)
    ensures sequence in rs[k].down.world.sent && rs[k].down.world.sent[sequence] == packet
  {
    assert EventAt(rs, events, k - 1);
    RelayRunInv(target, clientMax, serverMax, rs, events, k - 1);
    if w < k - 1 {
      StaysSentDown(target, clientMax, serverMax, rs, events, w, sequence, packet, k - 1);
      SentDownStays(rs[k - 1], events[k - 1], clientMax, serverMax, sequence);
    } else {
      AnswerForwardsIff(rs[w].down, target, events[w].dg);
    }
  }

  lemma HonestDown(target: NetAddr, clientMax: nat, serverMax: nat, rs: seq<Relay>, events: seq<RelayEvent>,
                  w: nat, sequence: uint32, packet: bytes, start: nat)
    requires IsRelayRun(target, clientMax, serverMax, rs, events) && w < start
    requires w < |events| && AnsweredAs(rs, events, target, w, sequence, packet)
    ensures HonestFrames(FramesDown(events), sequence, packet, start)
  {
    var xs := FramesDown(events);
    forall k | start <= k < |xs| ensures HonestAt(xs, sequence, packet, k) {
      if xs[k].Some? && OfSequence(xs[k].value, sequence) {
        assert EventAt(rs, events, k);
        StaysSentDown(target, clientMax, serverMax, rs, events, w, sequence, packet, k);
        FrameOfSent(rs[k].down.world.sent, events[k].d, sequence);
      }
    }
  }

  /** The watched decoder is the one of the run. */
  lemma {:induction false} WatchesDown(target: NetAddr, clientMax: nat, serverMax: nat, rs: seq<Relay>, events: seq<RelayEvent>,
                                     ts: seq<Track>, sequence: uint32, first: int, start: nat, n: nat, k: nat)
    requires IsRelayRun(target, clientMax, serverMax, rs, events)
    requires InTime(clientMax, ts, FramesDown(events), sequence, first, start, n) && start <= k <= n
    requires ts[start].pending == rs[start].down.world.pending
    ensures ts[k].pending == rs[k].down.world.pending
  {
    if k > start {
      WatchesDown(target, clientMax, serverMax, rs, events, ts, sequence, first, start, n, k - 1);
      WatchedPending(clientMax, ts, FramesDown(events), sequence, first, start, n, k - 1);
      RunPendingDown(target, clientMax, serverMax, rs, events, k - 1);
    }
  }

  /** End to end, downwards: an answer of the target within both limits is read at the
      very event that brings its last missing fragment, whole if the buffer has room. */
  lemma AnswerReachesReader(target: NetAddr, clientMax: nat, serverMax: nat, rs: seq<Relay>, events: seq<RelayEvent>,
                            ts: seq<Track>, w: nat, sequence: uint32, packet: bytes, first: int, start: nat, n: nat, k: nat)
    requires IsRelayRun(target, clientMax, serverMax, rs, events) && w < start <= k < n <= |events|
    requires AnsweredAs(rs, events, target, w, sequence, packet) && |packet| <= clientMax
    requires InTime(clientMax, ts, FramesDown(events), sequence, first, start, n)
    requires ts[start].pending == rs[start].down.world.pending
    requires !Covers(ts[k].arrived, packet)
    ensures if Covers(ts[k + 1].arrived, packet)
            then events[k].ClientReceives?
                 && rs[k + 1].down.read
                    == rs[k].down.read + [(if |packet| <= events[k].size then packet else packet[..events[k].size], events[k].size)]
            else events[k].ClientReceives? && OfSequence(events[k].d, sequence) ==>
              rs[k + 1].down.read == rs[k].down.read
  {
    var xs := FramesDown(events);
    RunFacts(target, clientMax, serverMax, rs, events, w);
    RunFacts(target, clientMax, serverMax, rs, events, start);
    RunFacts(target, clientMax, serverMax, rs, events, k);
    HonestDown(target, clientMax, serverMax, rs, events, w, sequence, packet, start);
    WatchesDown(target, clientMax, serverMax, rs, events, ts, sequence, first, start, n, k);
    LinkDelivers(clientMax, ts, xs, sequence, packet, first, start, n, k);
    RunHandsOver(target, clientMax, serverMax, rs, events, k);
  }
}
