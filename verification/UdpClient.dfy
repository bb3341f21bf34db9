/** The client end of a UDP association (internal/quicx/udp_client.go): reads and writes
    as steps of the fragment codecs.  Deadlines and closing are not modelled. */
module UdpClient {
  import opened Bytes
  import opened UdpCodec
  import opened UdpEndpoints
  import opened UdpCounting

  /** A single-target UDP association.  `outbox` holds the datagrams handed to the
      request stream; `inbox` holds the datagrams the stream will deliver before the
      read context ends, each with the clock reading Decode will take. */
  class UdpConn {
    const maxPacket: nat
    const encoder: Encoder
    const decoder: Decoder
    var outbox: seq<bytes>
    var inbox: seq<(bytes, int)>

    ghost predicate Valid()
      reads this, decoder
    {
      decoder.Valid() && encoder.maxPacket == decoder.maxPacket == maxPacket
    }

    constructor (limit: int)
      ensures Valid() && fresh(encoder) && fresh(decoder)
      ensures outbox == [] && inbox == [] && decoder.pending == map[]
      ensures encoder.State() == EncoderState(if limit <= 0 then 16_384 else limit, 0, false)
    {
      var max := if limit <= 0 then DEFAULT_MAX_PACKET else limit;
      maxPacket := max;
      encoder := new Encoder(max);
      decoder := new Decoder(max);
      outbox, inbox := [], [];
    }

    /** SendDatagram fails from the `working`-th frame on. */
    method WriteTo(p: bytes, working: nat) returns (n: nat, ok: bool)
      requires Valid()
      modifies `outbox, encoder
      ensures Valid()
      ensures ok <==> 0 < |p| <= maxPacket
                      && EncodeStep(old(encoder.State()), p).1.Frames?
                      && FragmentCount(|p|) <= working
      ensures n == if ok then |p| else 0
      ensures encoder.State() == EncodeStep(old(encoder.State()), p).0
      ensures match EncodeStep(old(encoder.State()), p).1
              case Frames(frames) => outbox == old(outbox) + frames[..Min(working, |frames|)]
              case EncodeFailed(_) => outbox == old(outbox)
    {
      if |p| == 0 {
        return 0, false;
      }
      if |p| > maxPacket {
        return 0, false;
      }
      var r := encoder.Encode(p);
      if r.EncodeFailed? {
        return 0, false;
      }
      ghost var after := encoder.State();
      for k := 0 to |r.frames|
        invariant k <= working
        invariant outbox == old(outbox) + r.frames[..k]
        invariant encoder.State() == after
      {
        if k == working {
          return 0, false;
        }
        outbox := outbox + [r.frames[k]];
      }
      return |p|, true;
    }

    /** ReadFrom feeds datagrams to the decoder until a packet comes out, an error
        occurs or the stream delivers no more, and copies what fits into `p`.  `ds` are
        the decoder steps taken and `states` the decoder states they pass through. */
    method ReadFrom(p: array<byte>) returns (n: nat, ok: bool, ghost ds: seq<Delivery>, ghost states: seq<Pending>)
      requires Valid()
      modifies `inbox, decoder, p
      ensures Valid()
      ensures FedFrom(ds, old(inbox), inbox)
      ensures IsRun(maxPacket, states, ds) && states[0] == old(decoder.pending) && states[|ds|] == decoder.pending
      ensures if ok then
                exists data :: Ends(maxPacket, states, ds, Packet(data)) && n == Min(p.Length, |data|) && p[..n] == data[..n]
              else
                && n == 0 && p[..] == old(p[..])
                && ((inbox == [] && Silent(maxPacket, states, ds, |ds|)) ||
                    exists e :: Ends(maxPacket, states, ds, Rejected(e)))
    {
      ds, states := [], [decoder.pending];
      var packet: Outcome := Nothing;
      while inbox != [] && packet == Nothing
        invariant Valid()
        invariant FedFrom(ds, old(inbox), inbox)
        invariant IsRun(maxPacket, states, ds) && states[0] == old(decoder.pending) && states[|ds|] == decoder.pending
        invariant if packet == Nothing then Silent(maxPacket, states, ds, |ds|) else Ends(maxPacket, states, ds, packet)
        invariant unchanged(p)
        decreases |inbox|
      {
        packet, ds, states := Feed(old(inbox), ds, states);
      }
      if packet.Packet? {
        n := Copy(p, packet.data);
        return n, true, ds, states;
      }
      if packet.Rejected? {
        assert Ends(maxPacket, states, ds, Rejected(packet.error));
      }
      return 0, false, ds, states;
    }

    /** One datagram goes to the decoder. */
    method Feed(ghost before: seq<(bytes, int)>, ghost ds: seq<Delivery>, ghost states: seq<Pending>)
      returns (packet: Outcome, ghost ds': seq<Delivery>, ghost states': seq<Pending>)
      requires Valid() && inbox != [] && FedFrom(ds, before, inbox)
      requires IsRun(maxPacket, states, ds) && states[|ds|] == decoder.pending && Silent(maxPacket, states, ds, |ds|)
      modifies `inbox, decoder
      ensures Valid() && FedFrom(ds', before, inbox) && |inbox| < |old(inbox)|
      ensures IsRun(maxPacket, states', ds') && states'[|ds'|] == decoder.pending && states'[0] == states[0]
      ensures if packet == Nothing then Silent(maxPacket, states', ds', |ds'|) else Ends(maxPacket, states', ds', packet)
    {
      var (data, now) := inbox[0];
      inbox := inbox[1..];
      ghost var d;
      packet, d := decoder.Decode(data, now);
      ds', states' := ds + [d], states + [decoder.pending];
      Extend(maxPacket, states, ds, d, decoder.pending, packet);
    }
  }

  /** The first n calls returned neither a packet nor an error. */
  ghost predicate Silent(maxPacket: nat, states: seq<Pending>, ds: seq<Delivery>, n: nat)
    requires |states| == |ds| + 1 && n <= |ds|
  {
    forall k :: 0 <= k < n ==> OutcomeAt(maxPacket, states, ds, k) == Nothing
  }

  /** The last call, and no earlier one, returned something. */
  ghost predicate Ends(maxPacket: nat, states: seq<Pending>, ds: seq<Delivery>, outcome: Outcome)
    requires |states| == |ds| + 1
  {
    && ds != [] && Silent(maxPacket, states, ds, |ds| - 1)
    && OutcomeAt(maxPacket, states, ds, |ds| - 1) == outcome != Nothing
  }

  /** Go's copy: as much of the data as fits. */
  method Copy(p: array<byte>, data: bytes) returns (n: nat)
    modifies p
    ensures n == Min(p.Length, |data|) && p[..n] == data[..n]
  {
    n := Min(p.Length, |data|);
    forall i | 0 <= i < n {
      p[i] := data[i];
    }
  }

  /** The deliveries are the datagrams taken from the front of the inbox. */
  ghost predicate FedFrom(ds: seq<Delivery>, before: seq<(bytes, int)>, after: seq<(bytes, int)>) {
    && |ds| <= |before| && after == before[|ds|..]
    && forall k :: 0 <= k < |ds| ==> (ds[k].frame, ds[k].now) == before[k]
  }

  /** One more call extends a run. */
  lemma Extend(maxPacket: nat, states: seq<Pending>, ds: seq<Delivery>, d: Delivery, p: Pending, r: Outcome)
    requires IsRun(maxPacket, states, ds) && Silent(maxPacket, states, ds, |ds|)
    requires (p, r) == DecodeStep(maxPacket, states[|ds|], d)
    ensures IsRun(maxPacket, states + [p], ds + [d])
    ensures if r == Nothing then Silent(maxPacket, states + [p], ds + [d], |ds| + 1)
            else Ends(maxPacket, states + [p], ds + [d], r)
  {
    ExtendRun(maxPacket, states, ds, d, p);
    ExtendSilent(maxPacket, states, ds, d, p);
    LastOutcome(maxPacket, states, ds, d, p);
  }

  lemma ExtendRun(maxPacket: nat, states: seq<Pending>, ds: seq<Delivery>, d: Delivery, p: Pending)
    requires IsRun(maxPacket, states, ds) && p == DecodeStep(maxPacket, states[|ds|], d).0
    ensures IsRun(maxPacket, states + [p], ds + [d])
  {
    forall k | 0 <= k < |ds + [d]| ensures StepAt(maxPacket, states + [p], ds + [d], k) {
      ExtendAt(maxPacket, states, ds, d, p, k);
    }
  }

  lemma ExtendSilent(maxPacket: nat, states: seq<Pending>, ds: seq<Delivery>, d: Delivery, p: Pending)
    requires |states| == |ds| + 1 && Silent(maxPacket, states, ds, |ds|)
    ensures Silent(maxPacket, states + [p], ds + [d], |ds|)
  {
    forall k | 0 <= k < |ds| ensures OutcomeAt(maxPacket, states + [p], ds + [d], k) == Nothing {
      assert OutcomeAt(maxPacket, states, ds, k) == Nothing;
    }
  }

  lemma LastOutcome(maxPacket: nat, states: seq<Pending>, ds: seq<Delivery>, d: Delivery, p: Pending)
    requires |states| == |ds| + 1
    ensures OutcomeAt(maxPacket, states + [p], ds + [d], |ds|) == DecodeStep(maxPacket, states[|ds|], d).1
  {
  }

  /** Earlier calls are as before; the new one is the given step. */
  lemma ExtendAt(maxPacket: nat, states: seq<Pending>, ds: seq<Delivery>, d: Delivery, p: Pending, k: nat)
    requires IsRun(maxPacket, states, ds) && p == DecodeStep(maxPacket, states[|ds|], d).0 && k <= |ds|
    ensures StepAt(maxPacket, states + [p], ds + [d], k)
  {
    if k < |ds| {
      assert StepAt(maxPacket, states, ds, k);
    }
  }
}
