/** The UDP association end to end: the packets given to the client's WriteTo
    (internal/quicx/udp_client.go), the two fragment codecs with an adversarial network
    between them, and the server session's two workers (internal/quicx/udp.go).  Either
    worker's exit makes the main loop return and cancel the other; how long a session
    lasts is the subject of `UdpSurvival`. */
module UdpRelay {
  import opened Bytes
  import opened UdpCodec
  import opened UdpIntegrity
  import NetIP

  /** A net.Addr: a UDP address, whose IP may be nil, or something else. */
  datatype NetAddr = UdpAddr(ip: Option<bytes>, port: nat) | OtherAddr

  /** udpSourceMatchesTarget, for a target that is not nil. */
  predicate SourceMatches(source: NetAddr, target: NetAddr)
    requires target.UdpAddr?
  {
    if target.ip.None? || target.port == 0 then false
    else if !source.UdpAddr? || source.ip.None? || source.port != target.port then false
    else NetIP.Equal(source.ip.value, target.ip.value)
  }

  /** A source is the target's exactly when port and address agree, in either IP form. */
  lemma SourceMatchesIff(source: NetAddr, target: NetAddr)
    requires target.UdpAddr? && target.ip.Some? && NetIP.To16(target.ip.value) != []
    ensures SourceMatches(source, target) <==>
              && target.port != 0 && source.UdpAddr? && source.port == target.port
              && source.ip.Some? && NetIP.To16(source.ip.value) == NetIP.To16(target.ip.value)
  {
    if source.UdpAddr? && source.ip.Some? && NetIP.To16(source.ip.value) != [] {
      NetIP.EqualIsSame16(source.ip.value, target.ip.value);
    }
  }

  /** A UDP datagram that reaches the session's socket. */
  datatype Datagram = Datagram(data: bytes, source: NetAddr)

  /** The client-to-target direction: client encoder and server decoder, whether the
      server's worker still runs, the packets given to WriteTo, and those written to
      the target. */
  datatype UpLink = UpLink(world: World, running: bool, written: set<bytes>, toTarget: seq<bytes>)

  /** The target-to-client direction: server encoder and client decoder, whether the
      server's worker still runs, the datagrams that reached the session's socket, and
      what ReadFrom calls returned, with their buffer sizes. */
  datatype DownLink = DownLink(world: World, running: bool, arrived: set<Datagram>, read: seq<(bytes, nat)>)

  datatype Relay = Relay(target: NetAddr, up: UpLink, down: DownLink)

  datatype RelayEvent =
    | ClientWrites(p: bytes)
    | ServerReceives(d: Delivery)
    | TargetAnswers(dg: Datagram)
    | ClientReceives(d: Delivery, size: nat)
    | Teardown  // the main loop has received from `done`, and its return ends both workers

  function Start(target: NetAddr, clientMax: nat, serverMax: nat): Relay {
    Relay(target,
          UpLink(Initial(clientMax, serverMax), true, {}, []),
          DownLink(Initial(serverMax, clientMax), true, {}, []))
  }

  function Write(up: UpLink, p: bytes): UpLink {
    up.(written := up.written + {p}, world := SendStep(up.world, p))
  }

  /** One iteration of the worker that feeds the target; a rejected frame ends it. */
  function Feed(up: UpLink, d: Delivery): UpLink {
    if !up.running then up else Forward(up, DeliverStep(up.world, d).0, DeliverStep(up.world, d).1)
  }

  function Forward(up: UpLink, w': World, outcome: Outcome): UpLink {
    match outcome
    case Nothing => up.(world := w')
    case Packet(data) => up.(world := w', toTarget := up.toTarget + [data])
    case Rejected(_) => up.(world := w', running := false)
  }

  /** One iteration of the worker that reads the socket: its buffer is one byte longer
      than the limit, so that a longer datagram shows as truncated and is dropped. */
  function Answer(down: DownLink, target: NetAddr, dg: Datagram): DownLink
    requires target.UdpAddr?
  {
    if !down.running then down
    else
      var down := down.(arrived := down.arrived + {dg});
      var max := down.world.enc.maxPacket;
      var buf := dg.data[..Min(|dg.data|, max + 1)];
      if |buf| == 0 || |buf| > max || !SourceMatches(dg.source, target) then down
      else if EncodeStep(down.world.enc, buf).1.EncodeFailed? then down.(running := false)
      else down.(world := SendStep(down.world, buf))
  }

  function Read(down: DownLink, d: Delivery, size: nat): DownLink {
    Return(down, DeliverStep(down.world, d).0, DeliverStep(down.world, d).1, size)
  }

  function Return(down: DownLink, w': World, outcome: Outcome, size: nat): DownLink {
    if outcome.Packet?
    then down.(world := w', read := down.read + [(outcome.data[..Min(size, |outcome.data|)], size)])
    else down.(world := w')
  }

  function RelayStep(r: Relay, event: RelayEvent): Relay
    requires r.target.UdpAddr?
  {
    match event
    case ClientWrites(p) => r.(up := Write(r.up, p))
    case ServerReceives(d) => r.(up := Feed(r.up, d))
    case TargetAnswers(dg) => r.(down := Answer(r.down, r.target, dg))
    case ClientReceives(d, size) => r.(down := Read(r.down, d, size))
    case Teardown => r.(up := r.up.(running := false), down := r.down.(running := false))
  }

  /** Both workers run: the session has not ended and is not about to. */
  predicate SessionOpen(r: Relay) {
    r.up.running && r.down.running
  }

  /** The network delivers in each direction only frames sent in that direction, and the
      main loop acts only on a worker's exit. */
  ghost predicate Possible(r: Relay, event: RelayEvent) {
    match event
    case ServerReceives(d) => InFlight(r.up.world.sent, d.frame)
    case ClientReceives(d, _) => InFlight(r.down.world.sent, d.frame)
    case Teardown => !SessionOpen(r)
    case _ => true
  }

  predicate SameLimits(w: World, w': World) {
    w'.enc.maxPacket == w.enc.maxPacket && w'.decLimit == w.decLimit
  }

  /** What the codec proofs give for one delivery. */
  ghost predicate GoodDelivery(w: World, w': World, outcome: Outcome) {
    && WorldInv(w') && SameLimits(w, w') && w'.sent == w.sent
    && (outcome.Packet? ==> |outcome.data| <= w.decLimit && exists s :: s in w.sent && w.sent[s] == outcome.data)
    && (Largest(w.enc.maxPacket) <= w.decLimit ==> !outcome.Rejected?)
  }

  lemma DeliveryIsGood(w: World, d: Delivery)
    requires WorldInv(w) && InFlight(w.sent, d.frame)
    ensures GoodDelivery(w, DeliverStep(w, d).0, DeliverStep(w, d).1)
  {
    DeliverKeepsInv(w, d);
  }

  // ---------- Upward ----------

  ghost predicate UpInv(up: UpLink) {
    && WorldInv(up.world)
    && (forall s | s in up.world.sent :: up.world.sent[s] in up.written)
    && (forall k :: 0 <= k < |up.toTarget| ==> up.toTarget[k] in up.written)
  }

  lemma WriteKeepsInv(up: UpLink, p: bytes)
    requires UpInv(up)
    ensures UpInv(Write(up, p)) && SameLimits(up.world, Write(up, p).world)
  {
    SendKeepsInv(up.world, p);
  }

  lemma ForwardKeepsInv(up: UpLink, w': World, outcome: Outcome)
    requires UpInv(up) && up.running && GoodDelivery(up.world, w', outcome)
    ensures UpInv(Forward(up, w', outcome)) && SameLimits(up.world, Forward(up, w', outcome).world)
    ensures Largest(up.world.enc.maxPacket) <= up.world.decLimit ==> Forward(up, w', outcome).running
  {
  }

  lemma FeedKeepsInv(up: UpLink, d: Delivery)
    requires UpInv(up) && InFlight(up.world.sent, d.frame)
    ensures UpInv(Feed(up, d)) && SameLimits(up.world, Feed(up, d).world)
    ensures Largest(up.world.enc.maxPacket) <= up.world.decLimit ==> Feed(up, d).running == up.running
  {
    if up.running {
      DeliveryIsGood(up.world, d);
      ForwardKeepsInv(up, DeliverStep(up.world, d).0, DeliverStep(up.world, d).1);
    }
  }

  // ---------- Downward ----------

  /** A whole datagram with this content reached the socket from the target itself. */
  ghost predicate Genuine(arrived: set<Datagram>, target: NetAddr, data: bytes)
    requires target.UdpAddr?
  {
    exists dg | dg in arrived :: dg.data == data && SourceMatches(dg.source, target)
  }

  /** What a ReadFrom call returned is a genuine answer, cut only to the size of the
      caller's buffer. */
  ghost predicate Faithful(arrived: set<Datagram>, target: NetAddr, limit: nat, read: (bytes, nat))
    requires target.UdpAddr?
  {
    exists whole: bytes ::
      Genuine(arrived, target, whole) && |whole| <= limit && read.0 == whole[..Min(read.1, |whole|)]
  }

  ghost predicate DownInv(down: DownLink, target: NetAddr)
    requires target.UdpAddr?
  {
    && WorldInv(down.world)
    && (forall s | s in down.world.sent :: Genuine(down.arrived, target, down.world.sent[s]))
    && (forall k :: 0 <= k < |down.read| ==> Faithful(down.arrived, target, down.world.decLimit, down.read[k]))
  }

  lemma MoreArrivals(arrived: set<Datagram>, dg: Datagram, target: NetAddr, limit: nat)
    requires target.UdpAddr?
    ensures forall data: bytes | Genuine(arrived, target, data) :: Genuine(arrived + {dg}, target, data)
    ensures forall read | Faithful(arrived, target, limit, read) :: Faithful(arrived + {dg}, target, limit, read)
  {
  }

  lemma AnswerKeepsInv(down: DownLink, target: NetAddr, dg: Datagram)
    requires target.UdpAddr? && DownInv(down, target)
    ensures DownInv(Answer(down, target, dg), target) && SameLimits(down.world, Answer(down, target, dg).world)
  {
    var max := down.world.enc.maxPacket;
    var buf := dg.data[..Min(|dg.data|, max + 1)];
    MoreArrivals(down.arrived, dg, target, down.world.decLimit);
    SendKeepsInv(down.world, buf);
    if |buf| <= max && SourceMatches(dg.source, target) {
      assert buf == dg.data;
      assert dg in down.arrived + {dg};
      assert Genuine(down.arrived + {dg}, target, buf);
    }
  }

  /** What is forwarded, exactly: a datagram is fragmented towards the client if and only
      if it came from the target, is not empty, fits the limit and the encoder takes it;
      one that is too long is dropped, never cut. */
  lemma AnswerForwardsIff(down: DownLink, target: NetAddr, dg: Datagram)
    requires target.UdpAddr? && down.running && WorldInv(down.world)
    ensures var enc, sent, sent' := down.world.enc, down.world.sent, Answer(down, target, dg).world.sent;
            if SourceMatches(dg.source, target) && Encodable(enc.maxPacket, dg.data) && !enc.exhausted
            then enc.nextSeq !in sent && sent' == sent[enc.nextSeq := dg.data]
            else sent' == sent
  {
    var max := down.world.enc.maxPacket;
    var buf := dg.data[..Min(|dg.data|, max + 1)];
    assert |buf| <= max ==> buf == dg.data;
    SendKeepsInv(down.world, buf);
  }

  lemma ReturnKeepsInv(down: DownLink, target: NetAddr, w': World, outcome: Outcome, size: nat)
    requires target.UdpAddr? && DownInv(down, target) && GoodDelivery(down.world, w', outcome)
    ensures DownInv(Return(down, w', outcome, size), target)
    ensures SameLimits(down.world, Return(down, w', outcome, size).world)
  {
  }

  lemma ReadKeepsInv(down: DownLink, target: NetAddr, d: Delivery, size: nat)
    requires target.UdpAddr? && DownInv(down, target) && InFlight(down.world.sent, d.frame)
    ensures DownInv(Read(down, d, size), target) && SameLimits(down.world, Read(down, d, size).world)
  {
    DeliveryIsGood(down.world, d);
    ReturnKeepsInv(down, target, DeliverStep(down.world, d).0, DeliverStep(down.world, d).1, size);
  }

  // ---------- Runs ----------

  ghost predicate EventAt(rs: seq<Relay>, events: seq<RelayEvent>, k: nat)
    requires |rs| == |events| + 1 && k < |events|
  {
    && rs[k].target.UdpAddr?
    && Possible(rs[k], events[k])
    && rs[k + 1] == RelayStep(rs[k], events[k])
  }

  /** A run of the relay from its start. */
  ghost predicate IsRelayRun(target: NetAddr, clientMax: nat, serverMax: nat, rs: seq<Relay>, events: seq<RelayEvent>) {
    && target.UdpAddr?
    && |rs| == |events| + 1
    && rs[0] == Start(target, clientMax, serverMax)
    && forall k :: 0 <= k < |events| ==> EventAt(rs, events, k)
  }

  ghost predicate RelayInv(r: Relay, clientMax: nat, serverMax: nat) {
    && r.target.UdpAddr?
    && UpInv(r.up) && DownInv(r.down, r.target)
    && r.up.world.enc.maxPacket == r.down.world.decLimit == clientMax
    && r.down.world.enc.maxPacket == r.up.world.decLimit == serverMax
    && (Largest(clientMax) <= serverMax ==> r.up.running || !r.down.running)
  }

  lemma RelayStepKeepsInv(r: Relay, event: RelayEvent, clientMax: nat, serverMax: nat)
    requires RelayInv(r, clientMax, serverMax) && Possible(r, event)
    ensures RelayInv(RelayStep(r, event), clientMax, serverMax) && RelayStep(r, event).target == r.target
  {
    match event {
      case ClientWrites(p) => WriteKeepsInv(r.up, p);
      case ServerReceives(d) => FeedKeepsInv(r.up, d);
      case TargetAnswers(dg) => AnswerKeepsInv(r.down, r.target, dg);
      case ClientReceives(d, size) => ReadKeepsInv(r.down, r.target, d, size);
      case Teardown =>
    }
  }

  lemma RelayRunStepInv(target: NetAddr, clientMax: nat, serverMax: nat, rs: seq<Relay>, events: seq<RelayEvent>, k: nat)
    requires IsRelayRun(target, clientMax, serverMax, rs, events) && k < |events|
    requires RelayInv(rs[k], clientMax, serverMax)
    ensures RelayInv(rs[k + 1], clientMax, serverMax) && rs[k + 1].target == rs[k].target
  {
    assert EventAt(rs, events, k);
    RelayStepKeepsInv(rs[k], events[k], clientMax, serverMax);
  }

  lemma StartInv(target: NetAddr, clientMax: nat, serverMax: nat)
    requires target.UdpAddr?
    ensures RelayInv(Start(target, clientMax, serverMax), clientMax, serverMax)
  {
    InitialInv(clientMax, serverMax);
    InitialInv(serverMax, clientMax);
  }

  lemma {:induction false} RelayRunInv(target: NetAddr, clientMax: nat, serverMax: nat,
                                       rs: seq<Relay>, events: seq<RelayEvent>, k: nat)
    requires IsRelayRun(target, clientMax, serverMax, rs, events) && k <= |events|
    ensures RelayInv(rs[k], clientMax, serverMax) && rs[k].target == target
  {
    if k == 0 {
      StartInv(target, clientMax, serverMax);
    } else {
      RelayRunInv(target, clientMax, serverMax, rs, events, k - 1);
      RelayRunStepInv(target, clientMax, serverMax, rs, events, k - 1);
    }
  }

  /** End-to-end relay integrity, in every state of every run: each packet the server
      wrote to the target was given to the client's WriteTo; each packet a client read
      into a buffer of at least the packet limit is a whole datagram that reached the
      server's socket from the target itself; and when the server accepts every packet the
      client can encode, no sequence of losses, duplications and reorderings stops the
      worker that feeds the target before the other one has stopped. */
  lemma RelayIntegrity(target: NetAddr, clientMax: nat, serverMax: nat, rs: seq<Relay>, events: seq<RelayEvent>, k: nat)
    requires IsRelayRun(target, clientMax, serverMax, rs, events) && k <= |events|
    ensures forall i :: 0 <= i < |rs[k].up.toTarget| ==> rs[k].up.toTarget[i] in rs[k].up.written
    ensures forall i :: 0 <= i < |rs[k].down.read| && rs[k].down.read[i].1 >= clientMax ==>
              Genuine(rs[k].down.arrived, target, rs[k].down.read[i].0)
    ensures Largest(clientMax) <= serverMax ==> rs[k].up.running || !rs[k].down.running
  {
    RelayRunInv(target, clientMax, serverMax, rs, events, k);
    var down := rs[k].down;
    forall i | 0 <= i < |down.read| && down.read[i].1 >= clientMax
      ensures Genuine(down.arrived, target, down.read[i].0)
    {
      WholeWhenRoom(down.arrived, target, clientMax, down.read[i]);
    }
  }

  lemma WholeWhenRoom(arrived: set<Datagram>, target: NetAddr, limit: nat, read: (bytes, nat))
    requires target.UdpAddr? && Faithful(arrived, target, limit, read) && read.1 >= limit
    ensures Genuine(arrived, target, read.0)
  {
  }
}
