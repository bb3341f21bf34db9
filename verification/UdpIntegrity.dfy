/** Whole runs of one encoder, an adversarial network and one decoder: the encoder's
    numbering, and reassembly integrity.

    The network may lose, duplicate, reorder and interleave frames at will; it cannot
    invent them, since they travel inside an authenticated QUIC connection.  Nothing here
    depends on which assembly is evicted, so the choice is left entirely free. */
module UdpIntegrity {
  import opened Bytes
  import opened UdpCodec

  // ---------- Fragments of a packet ----------

  /** The first n fragments of a packet, as the slots of an assembly. */
  function FirstParts(packet: bytes, n: nat): (parts: seq<Option<bytes>>)
    requires n <= FragmentCount(|packet|)
    ensures |parts| == n
    ensures forall i :: 0 <= i < n ==> parts[i] == Some(Chunk(packet, i))
  {
    if n == 0 then [] else FirstParts(packet, n - 1) + [Some(Chunk(packet, n - 1))]
  }

  function Parts(packet: bytes): seq<Option<bytes>> {
    FirstParts(packet, FragmentCount(|packet|))
  }

  lemma {:induction false} JoinChunks(packet: bytes, k: nat)
    requires k <= FragmentCount(|packet|)
    ensures Join(FirstParts(packet, k)) == packet[..Min(k * PAYLOAD_SIZE, |packet|)]
  {
    if k > 0 {
      JoinChunks(packet, k - 1);
      JoinPush(FirstParts(packet, k - 1), Chunk(packet, k - 1));
      ChunkBounds(|packet|, k);
      CutInTwo(packet, (k - 1) * PAYLOAD_SIZE, Min(k * PAYLOAD_SIZE, |packet|));
    }
  }

  /** Where the k-th fragment begins and ends. */
  lemma ChunkBounds(size: nat, k: nat)
    requires 0 < k <= FragmentCount(size)
    ensures 0 <= (k - 1) * PAYLOAD_SIZE < Min(k * PAYLOAD_SIZE, size)
    ensures Min((k - 1) * PAYLOAD_SIZE, size) == (k - 1) * PAYLOAD_SIZE
  {
    assert k * PAYLOAD_SIZE == (k - 1) * PAYLOAD_SIZE + PAYLOAD_SIZE;
  }

  lemma JoinPush(parts: seq<Option<bytes>>, chunk: bytes)
    ensures Join(parts + [Some(chunk)]) == Join(parts) + chunk
  {
    assert (parts + [Some(chunk)])[..|parts|] == parts;
  }

  lemma CutInTwo(packet: bytes, lo: nat, hi: nat)
    requires lo <= hi <= |packet|
    ensures packet[..lo] + packet[lo..hi] == packet[..hi]
  {
  }

  /** The frames of one Encode call: indices 0 to count-1 in order, payloads that
      concatenate back to the packet. */
  lemma FramesRejoin(sequence: uint32, packet: bytes)
    requires FragmentCount(|packet|) <= MAX_COUNT
    ensures var frames := FramesOf(sequence, packet);
            && (forall i :: 0 <= i < |frames| ==>
                  && Parse(frames[i]).Ok?
                  && var f := Parse(frames[i]).fragment;
                     f.sequence == sequence && f.index == i && f.count == |frames|
                     && Parts(packet)[i] == Some(f.payload)
                     && |f.payload| == if i < |frames| - 1 then 1000 else |packet| - 1000 * i)
            && Join(Parts(packet)) == packet
  {
    var frames := FramesOf(sequence, packet);
    forall i | 0 <= i < |frames|
      ensures Parse(frames[i]) == Ok(FragmentAt(sequence, packet, i))
    {
      ParseUndoesToFrame(FragmentAt(sequence, packet, i));
    }
    forall i | 0 <= i < |frames| ensures |Chunk(packet, i)| == if i < |frames| - 1 then 1000 else |packet| - 1000 * i {
      ChunkBounds(|packet|, i + 1);
      ChunkSize(packet, i);
    }
    JoinAllChunks(packet);
  }

  /** All fragments are full but the last, which completes the packet. */
  lemma ChunkSize(packet: bytes, i: nat)
    requires i < FragmentCount(|packet|)
    ensures |Chunk(packet, i)| == if i + 1 < FragmentCount(|packet|) then 1000 else |packet| - 1000 * i
  {
  }

  lemma JoinAllChunks(packet: bytes)
    ensures Join(Parts(packet)) == packet
    ensures SumLen(Parts(packet)) == |packet|
  {
    var n := FragmentCount(|packet|);
    JoinChunks(packet, n);
    assert packet[..Min(n * PAYLOAD_SIZE, |packet|)] == packet;
  }

  /** Filled slots of a partial assembly leave room for a missing one. */
  lemma {:induction false} MissingFits(parts: seq<Option<bytes>>, full: seq<Option<bytes>>, i: nat)
    requires |parts| == |full| && i < |parts| && parts[i].None? && full[i].Some?
    requires forall j :: 0 <= j < |parts| && parts[j].Some? ==> parts[j] == full[j]
    ensures SumLen(parts) + |full[i].value| <= SumLen(full)
  {
    var n := |parts| - 1;
    if i == n {
      SubLen(parts[..n], full[..n]);
    } else {
      MissingFits(parts[..n], full[..n], i);
    }
  }

  lemma {:induction false} SubLen(parts: seq<Option<bytes>>, full: seq<Option<bytes>>)
    requires |parts| == |full|
    requires forall j :: 0 <= j < |parts| && parts[j].Some? ==> parts[j] == full[j]
    ensures SumLen(parts) <= SumLen(full)
  {
    if parts != [] {
      SubLen(parts[..|parts| - 1], full[..|full| - 1]);
    }
  }

  // ---------- Encoder numbering ----------

  const SEQUENCES := 0x1_0000_0000

  /** The encoder after the first k calls. */
  function EncoderAt(maxPacket: nat, packets: seq<bytes>, k: nat): EncoderState
    requires k <= |packets|
  {
    if k == 0 then EncoderState(maxPacket, 0, false)
    else EncodeStep(EncoderAt(maxPacket, packets, k - 1), packets[k - 1]).0
  }

  predicate Succeeds(maxPacket: nat, packets: seq<bytes>, k: nat)
    requires k < |packets|
  {
    EncodeStep(EncoderAt(maxPacket, packets, k), packets[k]).1.Frames?
  }

  /** How many of the first k calls succeeded. */
  function Successes(maxPacket: nat, packets: seq<bytes>, k: nat): nat
    requires k <= |packets|
  {
    if k == 0 then 0
    else Successes(maxPacket, packets, k - 1) + if Succeeds(maxPacket, packets, k - 1) then 1 else 0
  }

  /** The encoder's two fields say exactly how many packets it has sent. */
  ghost predicate HasSent(e: EncoderState, n: nat) {
    && n <= SEQUENCES
    && e.exhausted == (n == SEQUENCES)
    && e.nextSeq == Min(n, SEQUENCES - 1)
  }

  lemma {:induction false} EncoderCounts(maxPacket: nat, packets: seq<bytes>, k: nat)
    requires k <= |packets|
    ensures HasSent(EncoderAt(maxPacket, packets, k), Successes(maxPacket, packets, k))
    ensures EncoderAt(maxPacket, packets, k).maxPacket == maxPacket
  {
    if k > 0 {
      EncoderCounts(maxPacket, packets, k - 1);
    }
  }

  lemma {:induction false} SuccessesMonotone(maxPacket: nat, packets: seq<bytes>, j: nat, k: nat)
    requires j <= k <= |packets|
    ensures Successes(maxPacket, packets, j) <= Successes(maxPacket, packets, k)
  {
    if j < k {
      SuccessesMonotone(maxPacket, packets, j, k - 1);
    }
  }

  /** Over any sequence of calls, the k-th call succeeds exactly when its size is
      acceptable and fewer than 2^32 earlier calls succeeded, and its sequence number is
      the number of those earlier successes: never reused, strictly increasing, nothing
      consumed by a rejected call, nothing accepted after 2^32 - 1 is used. */
  lemma EncoderNumbering(maxPacket: nat, packets: seq<bytes>, k: nat)
    requires k < |packets|
    ensures var n := Successes(maxPacket, packets, k);
            var r := EncodeStep(EncoderAt(maxPacket, packets, k), packets[k]).1;
            && (r.Frames? <==> Encodable(maxPacket, packets[k]) && n < SEQUENCES)
            && (r.Frames? ==> r.frames == FramesOf(n, packets[k]))
            && (forall j | 0 <= j < k && Succeeds(maxPacket, packets, j) :: Successes(maxPacket, packets, j) < n)
  {
    EncoderCounts(maxPacket, packets, k);
    forall j | 0 <= j < k && Succeeds(maxPacket, packets, j)
      ensures Successes(maxPacket, packets, j) < Successes(maxPacket, packets, k)
    {
      SuccessesMonotone(maxPacket, packets, j + 1, k);
    }
  }

  // ---------- Encoder, network, decoder ----------

  /** `sent` records the packet given to the Encode call that used each sequence. */
  datatype World = World(enc: EncoderState, decLimit: nat, pending: Pending, sent: map<uint32, bytes>)

  datatype Event = Send(packet: bytes) | Deliver(d: Delivery)

  ghost predicate IsFrameOf(frame: bytes, sequence: uint32, packet: bytes) {
    && FragmentCount(|packet|) <= MAX_COUNT
    && exists i :: 0 <= i < FragmentCount(|packet|) && frame == FragmentAt(sequence, packet, i).ToFrame()
  }

  /** Frames the network may still deliver: any frame ever sent, any number of times. */
  ghost predicate InFlight(sent: map<uint32, bytes>, frame: bytes) {
    exists s :: s in sent && IsFrameOf(frame, s, sent[s])
  }

  function SendStep(w: World, packet: bytes): World {
    var (enc', r) := EncodeStep(w.enc, packet);
    w.(enc := enc', sent := if r.Frames? then w.sent[w.enc.nextSeq := packet] else w.sent)
  }

  function DeliverStep(w: World, d: Delivery): (World, Outcome) {
    var (pending', r) := DecodeStep(w.decLimit, w.pending, d);
    (w.(pending := pending'), r)
  }

  /** A partial assembly that agrees with a packet. */
  ghost predicate Matches(a: Assembly, packet: bytes) {
    && a.count == FragmentCount(|packet|)
    && forall i :: 0 <= i < |a.parts| && a.parts[i].Some? ==> a.parts[i] == Parts(packet)[i]
  }

  ghost predicate Honest(pending: Pending, sent: map<uint32, bytes>) {
    forall s | s in pending :: s in sent && Matches(pending[s], sent[s])
  }

  ghost predicate WorldInv(w: World) {
    && BooksInv(w.decLimit, w.pending)
    && Honest(w.pending, w.sent)
    && EncoderInv(w.enc, w.sent)
  }

  /** Every logged sequence has been used, and every logged packet could be encoded. */
  ghost predicate EncoderInv(enc: EncoderState, sent: map<uint32, bytes>) {
    && (exists n: nat :: HasSent(enc, n) && forall s | s in sent :: s < n)
    && (forall s | s in sent :: Encodable(enc.maxPacket, sent[s]))
  }

  lemma SendKeepsInv(w: World, packet: bytes)
    requires WorldInv(w)
    ensures var w' := SendStep(w, packet);
            && WorldInv(w')
            && w'.enc.maxPacket == w.enc.maxPacket && w'.decLimit == w.decLimit
            && (forall s | s in w.sent :: s in w'.sent && w'.sent[s] == w.sent[s])
            && (EncodeStep(w.enc, packet).1.Frames? ==> w.enc.nextSeq !in w.sent)
  {
    var n: nat :| HasSent(w.enc, n) && forall s | s in w.sent :: s < n;
    var w' := SendStep(w, packet);
    var n' := if EncodeStep(w.enc, packet).1.Frames? then n + 1 else n;
    assert HasSent(w'.enc, n');
    assert forall s | s in w'.sent :: s < n';
  }

  /** Filling a slot of an assembly that agrees with a packet. */
  lemma FillHonest(a: Assembly, packet: bytes, i: nat)
    requires i < FragmentCount(|packet|) && Matches(a, packet) && a.parts[i].None?
    ensures var parts' := a.parts[i := Some(Chunk(packet, i))];
            && (forall j :: 0 <= j < |parts'| && parts'[j].Some? ==> parts'[j] == Parts(packet)[j])
            && (AllFilled(parts') ==> Join(parts') == packet)
            && (Filled(parts') == |parts'| ==> AllFilled(parts'))
            && SumLen(a.parts) + |Chunk(packet, i)| <= |packet|
  {
    var parts' := a.parts[i := Some(Chunk(packet, i))];
    JoinAllChunks(packet);
    MissingFits(a.parts, Parts(packet), i);
    FilledIsFull(parts');
    if AllFilled(parts') {
      assert parts' == Parts(packet);
    }
  }

  /** Place on an assembly that agrees with a packet, given one of its fragments. */
  lemma PlaceHonest(limit: nat, pending: Pending, sequence: uint32, packet: bytes, i: nat)
    requires i < FragmentCount(|packet|) <= MAX_COUNT
    requires sequence in pending && Matches(pending[sequence], packet)
    requires AssemblyOpen(limit, pending[sequence])
    ensures var (p', r) := Place(limit, pending, FragmentAt(sequence, packet, i));
            && (forall s | s in p' && s != sequence :: s in pending && p'[s] == pending[s])
            && (sequence in p' ==> Matches(p'[sequence], packet))
            && (r.Packet? ==> r.data == packet)
            && (|packet| <= limit ==> !r.Rejected?)
  {
    var a := pending[sequence];
    if a.parts[i].None? {
      FillSlot(a.parts, i, Chunk(packet, i));
      FillHonest(a, packet, i);
    }
  }

  /** A newly opened assembly agrees with any packet of its fragment count. */
  lemma OpenHonest(limit: nat, pruned: Pending, sent: map<uint32, bytes>, s: uint32, i: nat, now: int, victim: uint32)
    requires Honest(pruned, sent)
    requires s in sent && i < FragmentCount(|sent[s]|) <= MAX_COUNT
    ensures var p := Open(pruned, FragmentAt(s, sent[s], i), now, victim);
            Honest(p, sent) && AssemblyOpen(limit, p[s])
  {
    var count := FragmentCount(|sent[s]|);
    FreshIsOpen(limit, count, now);
    assert Matches(FreshAssembly(count, now), sent[s]);
  }

  lemma AcceptHonest(limit: nat, pending: Pending, sent: map<uint32, bytes>, s: uint32, i: nat, now: int, victim: uint32)
    requires BooksInv(limit, pending) && Honest(pending, sent)
    requires s in sent && i < FragmentCount(|sent[s]|) <= MAX_COUNT
    ensures var (p', r) := Accept(limit, pending, FragmentAt(s, sent[s], i), now, victim);
            && Honest(p', sent)
            && (r.Packet? ==> r.data == sent[s])
            && (|sent[s]| <= limit ==> !r.Rejected?)
  {
    var f := FragmentAt(s, sent[s], i);
    var pruned := Prune(pending, now);
    var p1 := if s in pruned then pruned else Open(pruned, f, now, victim);
    if s !in pruned {
      OpenHonest(limit, pruned, sent, s, i, now, victim);
    }
    PlaceHonest(limit, p1, s, sent[s], i);
    assert Accept(limit, pending, f, now, victim) == Place(limit, p1, f);
  }

  /** One delivery of a genuine frame: only that packet can come out, and nothing is
      rejected when the decoder's limit covers the packet. */
  lemma DeliverKeepsInv(w: World, d: Delivery)
    requires WorldInv(w) && InFlight(w.sent, d.frame)
    ensures var (w', r) := DeliverStep(w, d);
            && WorldInv(w')
            && w' == w.(pending := w'.pending)
            && Parse(d.frame).Ok?
            && Parse(d.frame).fragment.sequence in w.sent
            && (r.Packet? ==> r.data == w.sent[Parse(d.frame).fragment.sequence] && |r.data| <= w.decLimit)
            && (Largest(w.enc.maxPacket) <= w.decLimit ==> !r.Rejected?)
  {
    var s :| s in w.sent && IsFrameOf(d.frame, s, w.sent[s]);
    var i :| 0 <= i < FragmentCount(|w.sent[s]|) && d.frame == FragmentAt(s, w.sent[s], i).ToFrame();
    ParseUndoesToFrame(FragmentAt(s, w.sent[s], i));
    EncodableIff(w.enc.maxPacket, w.sent[s]);
    DecodeKeepsBooks(w.decLimit, w.pending, d);
    AcceptHonest(w.decLimit, w.pending, w.sent, s, i, d.now, d.victim);
  }

  // ---------- Runs ----------

  function Step(w: World, event: Event): World {
    match event
    case Send(packet) => SendStep(w, packet)
    case Deliver(d) => DeliverStep(w, d).0
  }

  function Initial(encLimit: nat, decLimit: nat): World {
    World(EncoderState(encLimit, 0, false), decLimit, map[], map[])
  }

  /** Event k takes world k to world k+1; the network delivers only frames sent before. */
  ghost predicate StepAt(ws: seq<World>, events: seq<Event>, k: nat)
    requires |ws| == |events| + 1 && k < |events|
  {
    && (events[k].Deliver? ==> InFlight(ws[k].sent, events[k].d.frame))
    && ws[k + 1] == Step(ws[k], events[k])
  }

  ghost predicate IsRun(encLimit: nat, decLimit: nat, ws: seq<World>, events: seq<Event>) {
    && |ws| == |events| + 1
    && ws[0] == Initial(encLimit, decLimit)
    && forall k :: 0 <= k < |events| ==> StepAt(ws, events, k)
  }

  /** Event j is the Encode call that was given `packet` and used `sequence`. */
  ghost predicate SentAs(ws: seq<World>, events: seq<Event>, j: nat, sequence: uint32, packet: bytes)
    requires |ws| == |events| + 1 && j < |events|
  {
    Sends(ws, events, j) && events[j].packet == packet && ws[j].enc.nextSeq == sequence
  }

  lemma StepKeepsInv(w: World, event: Event)
    requires WorldInv(w) && (event.Deliver? ==> InFlight(w.sent, event.d.frame))
    ensures var w' := Step(w, event);
            WorldInv(w') && w'.enc.maxPacket == w.enc.maxPacket && w'.decLimit == w.decLimit
  {
    match event {
      case Send(packet) => SendKeepsInv(w, packet);
      case Deliver(d) => DeliverKeepsInv(w, d);
    }
  }

  lemma InitialInv(encLimit: nat, decLimit: nat)
    ensures WorldInv(Initial(encLimit, decLimit))
  {
    assert HasSent(Initial(encLimit, decLimit).enc, 0);
  }

  lemma RunStepInv(encLimit: nat, decLimit: nat, ws: seq<World>, events: seq<Event>, k: nat)
    requires IsRun(encLimit, decLimit, ws, events) && k < |events| && WorldInv(ws[k])
    ensures WorldInv(ws[k + 1])
    ensures ws[k + 1].enc.maxPacket == ws[k].enc.maxPacket && ws[k + 1].decLimit == ws[k].decLimit
  {
    assert StepAt(ws, events, k);
    StepKeepsInv(ws[k], events[k]);
  }

  lemma {:induction false} RunInv(encLimit: nat, decLimit: nat, ws: seq<World>, events: seq<Event>, k: nat)
    requires IsRun(encLimit, decLimit, ws, events) && k <= |events|
    ensures WorldInv(ws[k]) && ws[k].enc.maxPacket == encLimit && ws[k].decLimit == decLimit
  {
    if k == 0 {
      InitialInv(encLimit, decLimit);
    } else {
      RunInv(encLimit, decLimit, ws, events, k - 1);
      RunStepInv(encLimit, decLimit, ws, events, k - 1);
    }
  }

  /** Event k is an Encode call that succeeds. */
  ghost predicate Sends(ws: seq<World>, events: seq<Event>, k: nat)
    requires |ws| == |events| + 1 && k < |events|
  {
    events[k].Send? && EncodeStep(ws[k].enc, events[k].packet).1.Frames?
  }

  /** What one event does to the log. */
  lemma StepLogs(encLimit: nat, decLimit: nat, ws: seq<World>, events: seq<Event>, k: nat)
    requires IsRun(encLimit, decLimit, ws, events) && k < |events|
    ensures ws[k + 1].sent == if Sends(ws, events, k) then ws[k].sent[ws[k].enc.nextSeq := events[k].packet]
                              else ws[k].sent
  {
    assert StepAt(ws, events, k);
  }

  /** The log holds what the Encode calls were given. */
  lemma {:induction false} LogIsHistory(encLimit: nat, decLimit: nat, ws: seq<World>, events: seq<Event>, k: nat, s: uint32)
    requires IsRun(encLimit, decLimit, ws, events) && k <= |events| && s in ws[k].sent
    ensures exists j :: 0 <= j < k && SentAs(ws, events, j, s, ws[k].sent[s])
  {
    assert k > 0;
    StepLogs(encLimit, decLimit, ws, events, k - 1);
    if Sends(ws, events, k - 1) && s == ws[k - 1].enc.nextSeq {
      assert SentAs(ws, events, k - 1, s, events[k - 1].packet);
    } else {
      LogIsHistory(encLimit, decLimit, ws, events, k - 1, s);
    }
  }

  lemma {:induction false} StaysLogged(encLimit: nat, decLimit: nat, ws: seq<World>, events: seq<Event>,
                                       i: nat, k: nat, sequence: uint32, p: bytes)
    requires IsRun(encLimit, decLimit, ws, events) && i < k <= |events|
    requires SentAs(ws, events, i, sequence, p)
    ensures sequence in ws[k].sent
  {
    StepLogs(encLimit, decLimit, ws, events, k - 1);
    if i < k - 1 {
      StaysLogged(encLimit, decLimit, ws, events, i, k - 1, sequence, p);
    }
  }

  /** A sequence names one Encode call only, so "the packet sent as that sequence" is
      meaningful. */
  lemma SentAsUnique(encLimit: nat, decLimit: nat, ws: seq<World>, events: seq<Event>,
                     i: nat, j: nat, sequence: uint32, p: bytes, q: bytes)
    requires IsRun(encLimit, decLimit, ws, events) && i < j < |events|
    requires SentAs(ws, events, i, sequence, p)
    ensures !SentAs(ws, events, j, sequence, q)
  {
    StaysLogged(encLimit, decLimit, ws, events, i, j, sequence, p);
    RunInv(encLimit, decLimit, ws, events, j);
    SendKeepsInv(ws[j], q);
  }

  /** Reassembly integrity: in every run, whatever is lost, duplicated, reordered or
      evicted and whatever the clock reads, a packet Decode returns is exactly the one
      given to the Encode call that used the frame's sequence; and no genuine frame is
      ever rejected when the decoder's limit is at least the longest packet the encoder can
      send. */
  lemma Integrity(encLimit: nat, decLimit: nat, ws: seq<World>, events: seq<Event>, k: nat)
    requires IsRun(encLimit, decLimit, ws, events) && k < |events| && events[k].Deliver?
    ensures Parse(events[k].d.frame).Ok?
    ensures var sequence := Parse(events[k].d.frame).fragment.sequence;
            var r := DeliverStep(ws[k], events[k].d).1;
            && (r.Packet? ==> exists j :: 0 <= j < k && SentAs(ws, events, j, sequence, r.data))
            && (Largest(encLimit) <= decLimit ==> !r.Rejected?)
  {
    RunInv(encLimit, decLimit, ws, events, k);
    assert StepAt(ws, events, k);
    DeliverKeepsInv(ws[k], events[k].d);
    LogIsHistory(encLimit, decLimit, ws, events, k, Parse(events[k].d.frame).fragment.sequence);
  }
}
