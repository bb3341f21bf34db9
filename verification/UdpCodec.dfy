/** Fragmentation and reassembly of UDP packets over HTTP Datagrams
    (internal/quicx/udp_codec.go).

    The wire format, the value-level step of the encoder and of the decoder, and the
    decoder's state invariant.  `UdpEndpoints` proves that the mutable encoder and decoder
    take exactly these steps; `UdpIntegrity`, `UdpCounting` and `UdpCompleteness` prove
    what whole runs of them guarantee. */
module UdpCodec {
  import opened Bytes

  const DEFAULT_MAX_PACKET := 16 * 1024
  const FRAGMENT_VERSION: byte := 2
  const HEADER_SIZE := 7
  const PAYLOAD_SIZE := 1000
  const MAX_COUNT := 64
  const MAX_ASSEMBLIES := 16
  const ASSEMBLY_TTL := 2_000_000_000

  // ---------- Wire format ----------

  datatype Fragment = Fragment(sequence: uint32, index: nat, count: nat, payload: bytes) {
    predicate Valid() {
      && index < count <= MAX_COUNT
      && 0 < |payload| <= PAYLOAD_SIZE
    }

    function ToFrame(): (frame: bytes)
      requires Valid()
      ensures |frame| == HEADER_SIZE + |payload|
    {
      [FRAGMENT_VERSION] + PutUint32(sequence) + [index, count] + payload
    }
  }

  datatype DecodeError =
    | InvalidFrame
    | InvalidIndex
    | InvalidSize
    | ConflictingCount
    | PacketTooLarge
    | IncompleteAssembly

  datatype Parsed = Ok(fragment: Fragment) | Malformed(error: DecodeError)

  /** The checks Decode makes before it takes the lock. */
  function Parse(frame: bytes): (r: Parsed)
    ensures r.Ok? ==> r.fragment.Valid()
  {
    if |frame| <= HEADER_SIZE || frame[0] != FRAGMENT_VERSION then Malformed(InvalidFrame)
    else
      var index, count := frame[5], frame[6];
      if count == 0 || count > MAX_COUNT || index >= count then Malformed(InvalidIndex)
      else
        var payload := frame[HEADER_SIZE..];
        if |payload| == 0 || |payload| > PAYLOAD_SIZE then Malformed(InvalidSize)
        else Ok(Fragment(Uint32(frame[1..5]), index, count, payload))
  }

  /** The decoder's parser undoes the encoder's framing. */
  lemma ParseUndoesToFrame(f: Fragment)
    requires f.Valid()
    ensures Parse(f.ToFrame()) == Ok(f)
  {
    var frame := f.ToFrame();
    assert frame[1..5] == PutUint32(f.sequence);
    assert frame[5] == f.index && frame[6] == f.count;
    assert frame[HEADER_SIZE..] == f.payload;
    Uint32RoundTrip(f.sequence);
  }

  /** The layout of a frame: version 2, big-endian sequence, index, count, payload. */
  lemma FrameLayout(f: Fragment)
    requires f.Valid()
    ensures var b := f.ToFrame();
            && |b| == 7 + |f.payload| && b[0] == 2
            && b[1] as int * 0x100_0000 + b[2] as int * 0x1_0000 + b[3] as int * 0x100 + b[4] == f.sequence
            && b[5] == f.index && b[6] == f.count && b[7..] == f.payload
  {
    var b := f.ToFrame();
    assert b[1..5] == PutUint32(f.sequence);
    assert b[1..5] == [b[1], b[2], b[3], b[4]];
    assert b[7..] == f.payload;
  }

  /** Exactly which frames the decoder takes, and why it refuses the others. */
  lemma ParseIff(b: bytes)
    ensures Parse(b).Ok? <==> 7 < |b| <= 1007 && b[0] == 2 && b[5] < b[6] <= 64
    ensures Parse(b) == Malformed(InvalidFrame) <==> |b| <= 7 || b[0] != 2
    ensures Parse(b) == Malformed(InvalidIndex) <==> |b| > 7 && b[0] == 2 && !(b[5] < b[6] <= 64)
    ensures Parse(b).Ok? ==> Parse(b).fragment.ToFrame() == b
  {
    if Parse(b).Ok? {
      assert PutUint32(Uint32(b[1..5])) == b[1..5] by {
        Uint32Surjective(b[1..5]);
      }
      assert b == [b[0]] + b[1..5] + [b[5], b[6]] + b[7..];
    }
  }

  // ---------- Encoder ----------

  datatype EncodeError = EmptyPacket | PacketExceedsLimit | TooManyFragments | SequenceExhausted
  datatype EncodeResult = Frames(frames: seq<bytes>) | EncodeFailed(error: EncodeError)

  datatype EncoderState = EncoderState(maxPacket: nat, nextSeq: uint32, exhausted: bool)

  function FragmentCount(size: nat): nat {
    (size + PAYLOAD_SIZE - 1) / PAYLOAD_SIZE
  }

  /** The packets the size checks of Encode let through. */
  predicate Encodable(maxPacket: nat, packet: bytes) {
    && 0 < |packet| <= maxPacket
    && FragmentCount(|packet|) <= MAX_COUNT
  }

  /** The longest packet that can be encoded under a limit. */
  function Largest(maxPacket: nat): nat {
    Min(maxPacket, MAX_COUNT * PAYLOAD_SIZE)
  }

  lemma EncodableIff(maxPacket: nat, packet: bytes)
    ensures Encodable(maxPacket, packet) <==> 0 < |packet| <= Largest(maxPacket)
    ensures Largest(maxPacket) == Min(maxPacket, 64_000)
  {
  }

  function Chunk(packet: bytes, index: nat): (chunk: bytes)
    requires index < FragmentCount(|packet|)
    ensures 0 < |chunk| <= PAYLOAD_SIZE
  {
    packet[index * PAYLOAD_SIZE .. Min((index + 1) * PAYLOAD_SIZE, |packet|)]
  }

  function FragmentAt(sequence: uint32, packet: bytes, index: nat): (f: Fragment)
    requires index < FragmentCount(|packet|) <= MAX_COUNT
    ensures f.Valid()
  {
    Fragment(sequence, index, FragmentCount(|packet|), Chunk(packet, index))
  }

  /** The first n frames of a packet. */
  function FirstFrames(sequence: uint32, packet: bytes, n: nat): (frames: seq<bytes>)
    requires n <= FragmentCount(|packet|) <= MAX_COUNT
    ensures |frames| == n
    ensures forall i :: 0 <= i < n ==> frames[i] == FragmentAt(sequence, packet, i).ToFrame()
  {
    if n == 0 then []
    else FirstFrames(sequence, packet, n - 1) + [FragmentAt(sequence, packet, n - 1).ToFrame()]
  }

  function FramesOf(sequence: uint32, packet: bytes): seq<bytes>
    requires FragmentCount(|packet|) <= MAX_COUNT
  {
    FirstFrames(sequence, packet, FragmentCount(|packet|))
  }

  function EncodeStep(e: EncoderState, packet: bytes): (EncoderState, EncodeResult) {
    if |packet| == 0 then (e, EncodeFailed(EmptyPacket))
    else if |packet| > e.maxPacket then (e, EncodeFailed(PacketExceedsLimit))
    else if FragmentCount(|packet|) > MAX_COUNT then (e, EncodeFailed(TooManyFragments))
    else if e.exhausted then (e, EncodeFailed(SequenceExhausted))
    else
      var e' := if e.nextSeq == 0xFFFF_FFFF then e.(exhausted := true) else e.(nextSeq := e.nextSeq + 1);
      (e', Frames(FramesOf(e.nextSeq, packet)))
  }

  /** Why Encode fails, in the order of its checks; a failure changes nothing. */
  lemma EncodeFailsWith(e: EncoderState, packet: bytes)
    ensures var (e', r) := EncodeStep(e, packet);
            && (r.EncodeFailed? ==> e' == e)
            && (r == EncodeFailed(EmptyPacket) <==> |packet| == 0)
            && (r == EncodeFailed(PacketExceedsLimit) <==> 0 < |packet| && e.maxPacket < |packet|)
            && (r == EncodeFailed(TooManyFragments) <==> 64_000 < |packet| <= e.maxPacket)
            && (r == EncodeFailed(SequenceExhausted) <==> 0 < |packet| <= Min(e.maxPacket, 64_000) && e.exhausted)
  {
    EncodableIff(e.maxPacket, packet);
  }

  // ---------- Decoder ----------

  datatype AssemblyRecord = AssemblyRecord(
    count: nat, parts: seq<Option<bytes>>, received: nat, total: nat, expiresAt: int)

  /** The parts slice is always allocated with `count` slots. */
  type Assembly = a: AssemblyRecord | |a.parts| == a.count
    witness AssemblyRecord(0, [], 0, 0, 0)

  type Pending = map<uint32, Assembly>

  datatype Outcome = Nothing | Packet(data: bytes) | Rejected(error: DecodeError)

  function Filled(parts: seq<Option<bytes>>): nat {
    if parts == [] then 0
    else Filled(parts[..|parts| - 1]) + if parts[|parts| - 1].Some? then 1 else 0
  }

  function PartLen(part: Option<bytes>): nat {
    if part.Some? then |part.value| else 0
  }

  function SumLen(parts: seq<Option<bytes>>): nat {
    if parts == [] then 0
    else SumLen(parts[..|parts| - 1]) + PartLen(parts[|parts| - 1])
  }

  function Join(parts: seq<Option<bytes>>): (data: bytes)
    ensures |data| == SumLen(parts)
  {
    if parts == [] then []
    else Join(parts[..|parts| - 1]) + if parts[|parts| - 1].Some? then parts[|parts| - 1].value else []
  }

  predicate AllFilled(parts: seq<Option<bytes>>) {
    forall i :: 0 <= i < |parts| ==> parts[i].Some?
  }

  function Prune(pending: Pending, now: int): (r: Pending)
    ensures r.Keys <= pending.Keys
    ensures |r| <= |pending|
  {
    var r := map s | s in pending && pending[s].expiresAt > now :: pending[s];
    SubsetSize(r.Keys, pending.Keys);
    r
  }

  /** What evictOldestLocked may choose: the map iteration order decides among ties. */
  predicate IsOldest(pending: Pending, victim: uint32) {
    && victim in pending
    && forall s | s in pending :: pending[victim].expiresAt <= pending[s].expiresAt
  }

  /** The assembly with one more part. */
  function Fill(a: Assembly, f: Fragment): Assembly
    requires f.index < a.count
  {
    AssemblyRecord(a.count, a.parts[f.index := Some(f.payload)], a.received + 1, a.total + |f.payload|, a.expiresAt)
  }

  /** Storing a fragment in the assembly that is already in the map for it. */
  function Place(maxPacket: nat, pending: Pending, f: Fragment): (Pending, Outcome)
    requires f.Valid()
    requires f.sequence in pending && pending[f.sequence].count == f.count
  {
    var a := pending[f.sequence];
    if a.parts[f.index].Some? then (pending, Nothing)
    else if a.total + |f.payload| > maxPacket then (pending - {f.sequence}, Rejected(PacketTooLarge))
    else
      var a' := Fill(a, f);
      if a'.received != a'.count then (pending[f.sequence := a'], Nothing)
      else if !AllFilled(a'.parts) then (pending[f.sequence := a'], Rejected(IncompleteAssembly))
      else (pending - {f.sequence}, Packet(Join(a'.parts)))
  }

  /** make([][]byte, n): n empty slots. */
  function EmptySlots(n: nat): (parts: seq<Option<bytes>>)
    ensures |parts| == n && forall i :: 0 <= i < n ==> parts[i] == None
  {
    if n == 0 then [] else EmptySlots(n - 1) + [None]
  }

  function FreshAssembly(count: nat, now: int): Assembly {
    AssemblyRecord(count, EmptySlots(count), 0, 0, now + ASSEMBLY_TTL)
  }

  /** The oldest assembly makes room in a full map. */
  function MakeRoom(pruned: Pending, victim: uint32): Pending {
    if |pruned| >= MAX_ASSEMBLIES then pruned - {victim} else pruned
  }

  /** The pending map with a new assembly for the fragment. */
  function Open(pruned: Pending, f: Fragment, now: int, victim: uint32): Pending {
    MakeRoom(pruned, victim)[f.sequence := FreshAssembly(f.count, now)]
  }

  /** The locked part of Decode. */
  function Accept(maxPacket: nat, pending: Pending, f: Fragment, now: int, victim: uint32): (Pending, Outcome)
    requires f.Valid()
  {
    var pruned := Prune(pending, now);
    if f.sequence !in pruned then Place(maxPacket, Open(pruned, f, now, victim), f)
    else if pruned[f.sequence].count != f.count then (pruned - {f.sequence}, Rejected(ConflictingCount))
    else Place(maxPacket, pruned, f)
  }

  /** One call of Decode: a frame, the clock reading and, if one is evicted, the victim. */
  datatype Delivery = Delivery(frame: bytes, now: int, victim: uint32)

  function DecodeStep(maxPacket: nat, pending: Pending, d: Delivery): (Pending, Outcome) {
    match Parse(d.frame)
    case Malformed(e) => (pending, Rejected(e))
    case Ok(f) => Accept(maxPacket, pending, f, d.now, d.victim)
  }

  /** Does this call open a new assembly? */
  predicate Opens(pending: Pending, d: Delivery) {
    Parse(d.frame).Ok? && Parse(d.frame).fragment.sequence !in Prune(pending, d.now)
  }

  /** The victim is a choice the eviction loop can make. */
  predicate LegalChoice(pending: Pending, d: Delivery) {
    Opens(pending, d) && |Prune(pending, d.now)| >= MAX_ASSEMBLIES ==>
      IsOldest(Prune(pending, d.now), d.victim)
  }

  // ---------- Decoder invariant ----------

  predicate AssemblyInv(maxPacket: nat, a: Assembly) {
    && a.received == Filled(a.parts)
    && 1 <= a.received < a.count <= MAX_COUNT
    && (forall i :: 0 <= i < |a.parts| && a.parts[i].Some? ==> 0 < |a.parts[i].value| <= PAYLOAD_SIZE)
    && a.total == SumLen(a.parts) <= maxPacket
  }

  ghost predicate BooksInv(maxPacket: nat, pending: Pending) {
    forall s | s in pending :: AssemblyInv(maxPacket, pending[s])
  }

  ghost predicate DecoderInv(maxPacket: nat, pending: Pending) {
    BooksInv(maxPacket, pending) && |pending| <= MAX_ASSEMBLIES
  }

  // ---------- Lemmas about parts ----------

  lemma {:induction false} FillSlot(parts: seq<Option<bytes>>, i: nat, payload: bytes)
    requires i < |parts| && parts[i].None?
    ensures Filled(parts[i := Some(payload)]) == Filled(parts) + 1
    ensures SumLen(parts[i := Some(payload)]) == SumLen(parts) + |payload|
  {
    var n := |parts| - 1;
    var parts' := parts[i := Some(payload)];
    if i == n {
      assert parts'[..n] == parts[..n];
    } else {
      assert parts'[..n] == parts[..n][i := Some(payload)];
      FillSlot(parts[..n], i, payload);
    }
  }

  lemma {:induction false} FilledIsFull(parts: seq<Option<bytes>>)
    ensures Filled(parts) <= |parts|
    ensures Filled(parts) == |parts| <==> AllFilled(parts)
  {
    if parts != [] {
      var n := |parts| - 1;
      FilledIsFull(parts[..n]);
      if AllFilled(parts) {
        assert AllFilled(parts[..n]);
      }
      if Filled(parts) == |parts| {
        forall i | 0 <= i < |parts| ensures parts[i].Some? {
          if i < n { assert parts[..n][i].Some?; }
        }
      }
    }
  }

  lemma {:induction false} EmptyParts(parts: seq<Option<bytes>>)
    requires forall i :: 0 <= i < |parts| ==> parts[i].None?
    ensures Filled(parts) == 0 && SumLen(parts) == 0
  {
    if parts != [] {
      EmptyParts(parts[..|parts| - 1]);
    }
  }

  // ---------- The invariant is kept ----------

  /** Assemblies on which Place may act: as the invariant says, or just opened. */
  predicate AssemblyOpen(maxPacket: nat, a: Assembly) {
    && a.received == Filled(a.parts) < a.count <= MAX_COUNT
    && (forall i :: 0 <= i < |a.parts| && a.parts[i].Some? ==> 0 < |a.parts[i].value| <= PAYLOAD_SIZE)
    && a.total == SumLen(a.parts) <= maxPacket
  }

  /** Filling an empty slot keeps the books of one assembly. */
  lemma FillKeepsBooks(maxPacket: nat, a: Assembly, f: Fragment)
    requires f.Valid() && f.count == a.count && AssemblyOpen(maxPacket, a)
    requires a.parts[f.index].None? && a.total + |f.payload| <= maxPacket
    ensures var a' := Fill(a, f);
            && a'.received == Filled(a'.parts)
            && a'.total == SumLen(a'.parts) == |Join(a'.parts)|
            && (a'.received == a'.count ==> AllFilled(a'.parts))
            && (a'.received != a'.count ==> AssemblyInv(maxPacket, a'))
  {
    FillSlot(a.parts, f.index, f.payload);
    FilledIsFull(a.parts[f.index := Some(f.payload)]);
  }

  lemma PlaceKeepsBooks(maxPacket: nat, pending: Pending, f: Fragment)
    requires f.Valid() && f.sequence in pending && pending[f.sequence].count == f.count
    requires AssemblyOpen(maxPacket, pending[f.sequence])
    requires pending[f.sequence].received > 0 || pending[f.sequence].parts[f.index].None?
    requires forall s | s in pending && s != f.sequence :: AssemblyInv(maxPacket, pending[s])
    ensures var (p', r) := Place(maxPacket, pending, f);
            && BooksInv(maxPacket, p') && p'.Keys <= pending.Keys
            && r != Rejected(IncompleteAssembly)
            && (r.Packet? ==> 0 < |r.data| <= maxPacket)
  {
    var a := pending[f.sequence];
    if a.parts[f.index].None? && a.total + |f.payload| <= maxPacket {
      FillKeepsBooks(maxPacket, a, f);
    }
  }

  lemma FreshIsOpen(maxPacket: nat, count: nat, now: int)
    requires 0 < count <= MAX_COUNT
    ensures AssemblyOpen(maxPacket, FreshAssembly(count, now))
  {
    EmptyParts(EmptySlots(count));
  }

  lemma OpenKeepsBooks(maxPacket: nat, pruned: Pending, f: Fragment, now: int, victim: uint32)
    requires f.Valid() && BooksInv(maxPacket, pruned)
    ensures var p := Open(pruned, f, now, victim);
            && AssemblyOpen(maxPacket, p[f.sequence])
            && forall s | s in p && s != f.sequence :: AssemblyInv(maxPacket, p[s])
  {
    FreshIsOpen(maxPacket, f.count, now);
  }

  /** Whatever bytes arrive, whatever the clock says and whatever is evicted: Decode keeps
      the books of its assemblies, never meets an incomplete one, and returns packets
      within the limit. */
  lemma DecodeKeepsBooks(maxPacket: nat, pending: Pending, d: Delivery)
    requires BooksInv(maxPacket, pending)
    ensures var (p', r) := DecodeStep(maxPacket, pending, d);
            && BooksInv(maxPacket, p')
            && r != Rejected(IncompleteAssembly)
            && (r.Packet? ==> 0 < |r.data| <= maxPacket)
  {
    if Parse(d.frame).Ok? {
      var f := Parse(d.frame).fragment;
      var pruned := Prune(pending, d.now);
      if f.sequence !in pruned {
        OpenKeepsBooks(maxPacket, pruned, f, d.now, d.victim);
        PlaceKeepsBooks(maxPacket, Open(pruned, f, d.now, d.victim), f);
      } else if pruned[f.sequence].count == f.count {
        PlaceKeepsBooks(maxPacket, pruned, f);
      }
    }
  }

  lemma DecodeKeepsSize(maxPacket: nat, pending: Pending, d: Delivery)
    requires |pending| <= MAX_ASSEMBLIES && LegalChoice(pending, d)
    ensures |DecodeStep(maxPacket, pending, d).0| <= MAX_ASSEMBLIES
  {
  }

  /** The decoder invariant, for arbitrary frames and readings: at most sixteen pending
      assemblies, each with its books in order. */
  lemma DecodeKeepsInv(maxPacket: nat, pending: Pending, d: Delivery)
    requires DecoderInv(maxPacket, pending) && LegalChoice(pending, d)
    ensures var (p', r) := DecodeStep(maxPacket, pending, d);
            && DecoderInv(maxPacket, p') && |p'| <= 16
            && r != Rejected(IncompleteAssembly)
            && (r.Packet? ==> 0 < |r.data| <= maxPacket)
  {
    DecodeKeepsBooks(maxPacket, pending, d);
    DecodeKeepsSize(maxPacket, pending, d);
  }

  /** Exactly when a frame is rejected, and what is left: a malformed one changes nothing;
      one whose count conflicts with its live assembly, or whose payload takes the packet
      over the limit, takes that assembly with it; and a sequence whose packet came out is
      forgotten. */
  lemma RejectedIff(maxPacket: nat, pending: Pending, d: Delivery)
    requires BooksInv(maxPacket, pending)
    ensures var (p', r) := DecodeStep(maxPacket, pending, d);
            match Parse(d.frame)
            case Malformed(e) => r == Rejected(e) && p' == pending
            case Ok(f) =>
              var live := f.sequence in pending && pending[f.sequence].expiresAt > d.now;
              var conflict := live && pending[f.sequence].count != f.count;
              var duplicate := live && !conflict && pending[f.sequence].parts[f.index].Some?;
              && (r == Rejected(ConflictingCount) <==> conflict)
              && (r == Rejected(PacketTooLarge) <==>
                    !conflict && !duplicate && (if live then pending[f.sequence].total else 0) + |f.payload| > maxPacket)
              && (r.Rejected? ==> r.error == ConflictingCount || r.error == PacketTooLarge)
              && (r.Rejected? || r.Packet? ==> f.sequence !in p')
              && (duplicate ==> r == Nothing && f.sequence in p' && p'[f.sequence] == pending[f.sequence])
  {
    if Parse(d.frame).Ok? {
      var f := Parse(d.frame).fragment;
      var pruned := Prune(pending, d.now);
      if f.sequence !in pruned {
        var opened' := Open(pruned, f, d.now, d.victim);
        FreshIsOpen(maxPacket, f.count, d.now);
        assert opened'[f.sequence] == FreshAssembly(f.count, d.now);
        PlaceRejects(maxPacket, opened', f);
      } else if pruned[f.sequence].count == f.count {
        PlaceRejects(maxPacket, pruned, f);
      }
    }
  }

  lemma PlaceRejects(maxPacket: nat, pending: Pending, f: Fragment)
    requires f.Valid() && f.sequence in pending && pending[f.sequence].count == f.count
    requires AssemblyOpen(maxPacket, pending[f.sequence])
    ensures var a, (p', r) := pending[f.sequence], Place(maxPacket, pending, f);
            && (r.Rejected? <==> a.parts[f.index].None? && a.total + |f.payload| > maxPacket)
            && (r.Rejected? ==> r.error == PacketTooLarge)
            && (r.Rejected? || r.Packet? ==> f.sequence !in p')
            && (a.parts[f.index].Some? ==> r == Nothing && p' == pending)
  {
    var a := pending[f.sequence];
    if a.parts[f.index].None? && a.total + |f.payload| <= maxPacket {
      FillKeepsBooks(maxPacket, a, f);
    }
  }

  /** The two-second lifetime: after any call nothing expired is pending, and a packet
      comes out only of an assembly that had not expired -- or of a single-fragment
      packet, at once. */
  lemma DecodeHonoursLifetime(maxPacket: nat, pending: Pending, d: Delivery)
    requires Parse(d.frame).Ok?
    ensures var (p', r) := DecodeStep(maxPacket, pending, d);
            var f := Parse(d.frame).fragment;
            && (forall s | s in p' :: p'[s].expiresAt > d.now)
            && (forall s | s in p' && s != f.sequence :: s in pending && p'[s] == pending[s])
            && (r.Packet? && f.count > 1 ==> f.sequence in pending && pending[f.sequence].expiresAt > d.now)
            && (f.sequence in p' ==>
                  p'[f.sequence].expiresAt == if f.sequence in pending && pending[f.sequence].expiresAt > d.now
                                              then pending[f.sequence].expiresAt else d.now + 2_000_000_000)
  {
    var f := Parse(d.frame).fragment;
    var pruned := Prune(pending, d.now);
    if f.sequence !in pruned && f.count > 1 {
      var a := FreshAssembly(f.count, d.now);
      assert a.count != a.received + 1;
    }
  }
}
