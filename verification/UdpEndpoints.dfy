/** The mutable fragment encoder and decoder (internal/quicx/udp_codec.go), proved to
    take exactly the steps of `UdpCodec`.  A locked method body is one step. */
module UdpEndpoints {
  import opened Bytes
  import opened UdpCodec

  class Encoder {
    const maxPacket: nat
    var nextSeq: uint32
    var exhausted: bool

    ghost function State(): EncoderState
      reads this
    {
      EncoderState(maxPacket, nextSeq, exhausted)
    }

    constructor (limit: int)
      ensures State() == EncoderState(if limit <= 0 then 16_384 else limit, 0, false)
    {
      maxPacket := if limit <= 0 then DEFAULT_MAX_PACKET else limit;
      nextSeq := 0;
      exhausted := false;
    }

    method Encode(packet: bytes) returns (r: EncodeResult)
      modifies this
      ensures (State(), r) == EncodeStep(old(State()), packet)
    {
      if |packet| == 0 {
        return EncodeFailed(EmptyPacket);
      }
      if |packet| > maxPacket {
        return EncodeFailed(PacketExceedsLimit);
      }
      var count := (|packet| + PAYLOAD_SIZE - 1) / PAYLOAD_SIZE;
      if count == 0 || count > MAX_COUNT {
        return EncodeFailed(TooManyFragments);
      }
      if exhausted {
        return EncodeFailed(SequenceExhausted);
      }
      var sequence := nextSeq;
      if sequence == 0xFFFF_FFFF {
        exhausted := true;
      } else {
        nextSeq := nextSeq + 1;
      }
      var frames := [];
      var index, offset := 0, 0;
      while offset < |packet|
        invariant 0 <= index <= count && offset == index * PAYLOAD_SIZE
        invariant frames == FirstFrames(sequence, packet, index)
      {
        var end := Min(offset + PAYLOAD_SIZE, |packet|);
        var frame := [FRAGMENT_VERSION] + PutUint32(sequence) + [index, count] + packet[offset..end];
        assert frame == FragmentAt(sequence, packet, index).ToFrame();
        frames := frames + [frame];
        index, offset := index + 1, offset + PAYLOAD_SIZE;
      }
      return Frames(frames);
    }
  }

  class Decoder {
    const maxPacket: nat
    var pending: Pending

    ghost predicate Valid()
      reads this
    {
      DecoderInv(maxPacket, pending)
    }

    constructor (limit: int)
      ensures Valid() && pending == map[]
      ensures maxPacket == if limit <= 0 then 16_384 else limit
    {
      maxPacket := if limit <= 0 then DEFAULT_MAX_PACKET else limit;
      pending := map[];
    }

    /** Go visits the entries in an order of its own choosing and deletes as it goes. */
    method PruneExpired(now: int)
      modifies this
      ensures pending == Prune(old(pending), now)
    {
      var unvisited := pending.Keys;
      while unvisited != {}
        invariant unvisited <= pending.Keys <= old(pending).Keys
        invariant forall s | s in pending :: pending[s] == old(pending)[s]
        invariant forall s | s in old(pending) && s !in unvisited ::
                    s in pending <==> old(pending)[s].expiresAt > now
        decreases unvisited
      {
        var s :| s in unvisited;
        unvisited := unvisited - {s};
        if !(pending[s].expiresAt > now) {
          pending := pending - {s};
        }
      }
      assert pending.Keys == Prune(old(pending), now).Keys;
    }

    method EvictOldest() returns (ghost victim: uint32)
      modifies this
      ensures old(pending) == map[] ==> pending == map[]
      ensures old(pending) != map[] ==>
                IsOldest(old(pending), victim) && pending == old(pending) - {victim}
    {
      var oldest: uint32, oldestExpiry, found := 0, 0, false;
      var unvisited := pending.Keys;
      while unvisited != {}
        invariant unvisited <= pending.Keys
        invariant !found ==> unvisited == pending.Keys
        invariant found ==> oldest in pending && pending[oldest].expiresAt == oldestExpiry
        invariant found ==> forall s | s in pending && s !in unvisited :: oldestExpiry <= pending[s].expiresAt
        decreases unvisited
      {
        var s :| s in unvisited;
        unvisited := unvisited - {s};
        if !found || pending[s].expiresAt < oldestExpiry {
          oldest, oldestExpiry, found := s, pending[s].expiresAt, true;
        }
      }
      victim := oldest;
      if found {
        pending := pending - {oldest};
      }
    }

    /** Decode takes one step of the model, with a victim the eviction loop chose. */
    method Decode(frame: bytes, now: int) returns (r: Outcome, ghost d: Delivery)
      requires Valid()
      modifies this
      ensures Valid()
      ensures d.frame == frame && d.now == now && LegalChoice(old(pending), d)
      ensures (pending, r) == DecodeStep(maxPacket, old(pending), d)
    {
      d := Delivery(frame, now, 0);
      if |frame| <= HEADER_SIZE || frame[0] != FRAGMENT_VERSION {
        r := Rejected(InvalidFrame);
        return;
      }
      var sequence := Uint32(frame[1..5]);
      var index, count := frame[5], frame[6];
      if count == 0 || count > MAX_COUNT || index >= count {
        r := Rejected(InvalidIndex);
        return;
      }
      var payload := frame[HEADER_SIZE..];
      if |payload| == 0 || |payload| > PAYLOAD_SIZE {
        r := Rejected(InvalidSize);
        return;
      }
      PruneExpired(now);
      if sequence !in pending {
        if |pending| >= MAX_ASSEMBLIES {
          ghost var victim := EvictOldest();
          d := d.(victim := victim);
        }
        pending := pending[sequence := AssemblyRecord(count, EmptySlots(count), 0, 0, now + ASSEMBLY_TTL)];
      } else if pending[sequence].count != count {
        pending := pending - {sequence};
        r := Rejected(ConflictingCount);
        DecodeKeepsInv(maxPacket, old(pending), d);
        return;
      }
      DecodeKeepsInv(maxPacket, old(pending), d);
      r := PlaceFragment(sequence, index, count, payload);
    }

    /** The end of Decode's locked body: the assembly is in the map. */
    method PlaceFragment(sequence: uint32, index: nat, count: nat, payload: bytes) returns (r: Outcome)
      requires Fragment(sequence, index, count, payload).Valid()
      requires sequence in pending && pending[sequence].count == count
      modifies this
      ensures (pending, r) == Place(maxPacket, old(pending), Fragment(sequence, index, count, payload))
    {
      var assembly: Assembly := pending[sequence];
      if assembly.parts[index].Some? {
        return Nothing;
      }
      if assembly.total + |payload| > maxPacket {
        pending := pending - {sequence};
        return Rejected(PacketTooLarge);
      }
      assembly := AssemblyRecord(count, assembly.parts[index := Some(payload)],
                                 assembly.received + 1, assembly.total + |payload|, assembly.expiresAt);
      pending := pending[sequence := assembly];
      if assembly.received != assembly.count {
        return Nothing;
      }
      var packet := JoinParts(assembly.parts);
      if packet.None? {
        return Rejected(IncompleteAssembly);
      }
      pending := pending - {sequence};
      assert pending == old(pending) - {sequence};
      return Packet(packet.value);
    }

    /** The reassembly loop: None when some part is missing. */
    static method JoinParts(parts: seq<Option<bytes>>) returns (packet: Option<bytes>)
      ensures packet == if AllFilled(parts) then Some(Join(parts)) else None
    {
      var joined := [];
      for k := 0 to |parts|
        invariant joined == Join(parts[..k]) && AllFilled(parts[..k])
      {
        if parts[k].None? {
          return None;
        }
        assert parts[..k + 1][..k] == parts[..k];
        joined := joined + parts[k].value;
      }
      assert parts[..|parts|] == parts;
      return Some(joined);
    }
  }
}
