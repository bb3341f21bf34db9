/** When the decoder is bound to return a packet. */
module UdpCompleteness {
  import opened Bytes
  import opened UdpCodec
  import opened UdpIntegrity

  predicate OfSequence(d: Delivery, sequence: uint32) {
    Parse(d.frame).Ok? && Parse(d.frame).fragment.sequence == sequence
  }

  /** Every fragment of the packet is among these. */
  ghost predicate Covers(got: set<nat>, packet: bytes) {
    forall i :: 0 <= i < FragmentCount(|packet|) ==> i in got
  }

  ghost predicate Within(got: set<nat>, packet: bytes) {
    forall i | i in got :: i < FragmentCount(|packet|)
  }

  /** Other assemblies that expire no earlier than `deadline`, i.e. were opened no
      earlier than the assembly with that deadline. */
  function Younger(pending: Pending, sequence: uint32, deadline: int): set<uint32> {
    set s | s in pending && s != sequence && pending[s].expiresAt >= deadline
  }

  /** A decoder watched for one sequence: its state, the fragment indices of the
      sequence that have arrived, and how many assemblies of other sequences were opened. */
  datatype Track = Track(pending: Pending, arrived: set<nat>, others: nat)

  function Advance(maxPacket: nat, t: Track, d: Delivery, sequence: uint32): Track {
    if OfSequence(d, sequence) then
      Track(DecodeStep(maxPacket, t.pending, d).0, t.arrived + {Parse(d.frame).fragment.index}, t.others)
    else
      Track(DecodeStep(maxPacket, t.pending, d).0, t.arrived, t.others + if Opens(t.pending, d) then 1 else 0)
  }

  /** The assembly of `sequence` holds exactly the fragments in `got`. */
  ghost predicate Holds(pending: Pending, sequence: uint32, packet: bytes, got: set<nat>, deadline: int) {
    && sequence in pending
    && Matches(pending[sequence], packet)
    && pending[sequence].expiresAt == deadline
    && (forall i :: 0 <= i < |pending[sequence].parts| ==> (pending[sequence].parts[i].Some? <==> i in got))
  }

  /** Before the first fragment the sequence is not pending; afterwards its assembly
      holds what arrived, and at most `rivals` others expire no earlier. */
  ghost predicate Progress(pending: Pending, sequence: uint32, packet: bytes, got: set<nat>, first: int, rivals: nat) {
    && Within(got, packet)
    && |Younger(pending, sequence, first + ASSEMBLY_TTL)| <= rivals
    && if got == {} then sequence !in Prune(pending, first)
       else Holds(pending, sequence, packet, got, first + ASSEMBLY_TTL)
  }

  /** A slot is filled: what the assembly then holds, and whether it is complete. */
  lemma FillProgress(maxPacket: nat, a: Assembly, sequence: uint32, packet: bytes, i: nat, got: set<nat>)
    requires i < FragmentCount(|packet|) <= MAX_COUNT && |packet| <= maxPacket
    requires Matches(a, packet) && AssemblyOpen(maxPacket, a) && i !in got
    requires forall j :: 0 <= j < |a.parts| ==> (a.parts[j].Some? <==> j in got)
    ensures var f := FragmentAt(sequence, packet, i);
            var a' := Fill(a, f);
            && a.total + |f.payload| <= maxPacket
            && Matches(a', packet)
            && (forall j :: 0 <= j < |a'.parts| ==> (a'.parts[j].Some? <==> j in got + {i}))
            && (AllFilled(a'.parts) <==> Covers(got + {i}, packet))
            && (a'.received == a'.count <==> AllFilled(a'.parts))
            && (AllFilled(a'.parts) ==> Join(a'.parts) == packet)
  {
    FillSlot(a.parts, i, Chunk(packet, i));
    FillHonest(a, packet, i);
    FilledIsFull(a.parts[i := Some(Chunk(packet, i))]);
  }

  lemma PlaceProgress(maxPacket: nat, pending: Pending, sequence: uint32, packet: bytes, i: nat, got: set<nat>, deadline: int)
    requires i < FragmentCount(|packet|) <= MAX_COUNT && |packet| <= maxPacket
    requires Holds(pending, sequence, packet, got, deadline) && AssemblyOpen(maxPacket, pending[sequence])
    requires !Covers(got, packet)
    ensures var (p', r) := Place(maxPacket, pending, FragmentAt(sequence, packet, i));
            && (forall s | s != sequence && s in p' :: s in pending && p'[s] == pending[s])
            && if Covers(got + {i}, packet) then r == Packet(packet)
               else r == Nothing && Holds(p', sequence, packet, got + {i}, deadline)
  {
    var a := pending[sequence];
    if a.parts[i].Some? {
      assert got + {i} == got;
    } else {
      FillProgress(maxPacket, a, sequence, packet, i, got);
    }
  }

  /** The first fragment of the sequence opens its assembly. */
  lemma FirstOpens(maxPacket: nat, pruned: Pending, sequence: uint32, packet: bytes, i: nat, now: int, victim: uint32)
    requires i < FragmentCount(|packet|) <= MAX_COUNT && BooksInv(maxPacket, pruned)
    ensures var p := Open(pruned, FragmentAt(sequence, packet, i), now, victim);
            && Holds(p, sequence, packet, {}, now + ASSEMBLY_TTL) && AssemblyOpen(maxPacket, p[sequence])
            && (forall s | s != sequence && s in p :: s in pruned && p[s] == pruned[s])
  {
    var count := FragmentCount(|packet|);
    FreshIsOpen(maxPacket, count, now);
    FreshHolds(packet, now);
    OpenHasFresh(pruned, FragmentAt(sequence, packet, i), now, victim);
  }

  lemma FreshHolds(packet: bytes, now: int)
    ensures var a := FreshAssembly(FragmentCount(|packet|), now);
            && Matches(a, packet) && a.expiresAt == now + ASSEMBLY_TTL
            && forall i :: 0 <= i < |a.parts| ==> a.parts[i].None?
  {
  }

  lemma OpenHasFresh(pruned: Pending, f: Fragment, now: int, victim: uint32)
    ensures var p := Open(pruned, f, now, victim);
            && f.sequence in p && p[f.sequence] == FreshAssembly(f.count, now)
            && forall s | s != f.sequence && s in p :: s in pruned && p[s] == pruned[s]
  {
  }

  /** What a call leaves to the other assemblies cannot become younger. */
  lemma YoungerShrinks(pending: Pending, p': Pending, sequence: uint32, deadline: int)
    requires forall s | s != sequence && s in p' :: s in pending && p'[s] == pending[s]
    ensures |Younger(p', sequence, deadline)| <= |Younger(pending, sequence, deadline)|
  {
    SubsetSize(Younger(p', sequence, deadline), Younger(pending, sequence, deadline));
  }

  /** The map in which the fragment's assembly is found or opened. */
  lemma FindOrOpen(maxPacket: nat, pending: Pending, d: Delivery, sequence: uint32, packet: bytes, i: nat,
                   got: set<nat>, first: int, rivals: nat) returns (p1: Pending)
    requires BooksInv(maxPacket, pending)
    requires i < FragmentCount(|packet|) <= MAX_COUNT
    requires Parse(d.frame) == Ok(FragmentAt(sequence, packet, i))
    requires d.now < first + ASSEMBLY_TTL && (got == {} ==> d.now == first)
    requires Progress(pending, sequence, packet, got, first, rivals)
    ensures Holds(p1, sequence, packet, got, first + ASSEMBLY_TTL) && AssemblyOpen(maxPacket, p1[sequence])
    ensures forall s | s != sequence && s in p1 :: s in pending && p1[s] == pending[s]
    ensures DecodeStep(maxPacket, pending, d) == Place(maxPacket, p1, FragmentAt(sequence, packet, i))
  {
    var pruned := Prune(pending, d.now);
    if got == {} {
      p1 := Open(pruned, FragmentAt(sequence, packet, i), d.now, d.victim);
      FirstOpens(maxPacket, pruned, sequence, packet, i, d.now, d.victim);
    } else {
      p1 := pruned;
    }
  }

  /** A fragment of the sequence arrives before the deadline. */
  lemma OwnStep(maxPacket: nat, pending: Pending, d: Delivery, sequence: uint32, packet: bytes, i: nat,
                got: set<nat>, first: int, rivals: nat)
    requires BooksInv(maxPacket, pending)
    requires i < FragmentCount(|packet|) <= MAX_COUNT && |packet| <= maxPacket
    requires Parse(d.frame) == Ok(FragmentAt(sequence, packet, i))
    requires d.now < first + ASSEMBLY_TTL && (got == {} ==> d.now == first)
    requires Progress(pending, sequence, packet, got, first, rivals) && !Covers(got, packet)
    ensures var (p', r) := DecodeStep(maxPacket, pending, d);
            if Covers(got + {i}, packet) then r == Packet(packet)
            else r == Nothing && Progress(p', sequence, packet, got + {i}, first, rivals)
  {
    var p1 := FindOrOpen(maxPacket, pending, d, sequence, packet, i, got, first, rivals);
    PlaceProgress(maxPacket, p1, sequence, packet, i, got, first + ASSEMBLY_TTL);
    var (p', r) := Place(maxPacket, p1, FragmentAt(sequence, packet, i));
    ProgressFrom(pending, p', sequence, packet, i, got, first, rivals);
  }

  lemma ProgressFrom(pending: Pending, p': Pending, sequence: uint32, packet: bytes, i: nat,
                     got: set<nat>, first: int, rivals: nat)
    requires i < FragmentCount(|packet|) && Progress(pending, sequence, packet, got, first, rivals)
    requires forall s | s != sequence && s in p' :: s in pending && p'[s] == pending[s]
    ensures Holds(p', sequence, packet, got + {i}, first + ASSEMBLY_TTL) ==>
              Progress(p', sequence, packet, got + {i}, first, rivals)
  {
    YoungerShrinks(pending, p', sequence, first + ASSEMBLY_TTL);
    assert i in got + {i};
  }

  /** A full map in which the given assembly is oldest has fifteen younger others. */
  lemma OldestHasYounger(pruned: Pending, sequence: uint32)
    requires |pruned| >= MAX_ASSEMBLIES && IsOldest(pruned, sequence)
    ensures |Younger(pruned, sequence, pruned[sequence].expiresAt)| >= MAX_ASSEMBLIES - 1
  {
    assert Younger(pruned, sequence, pruned[sequence].expiresAt) == pruned.Keys - {sequence};
  }

  lemma PlaceOther(maxPacket: nat, pending: Pending, f: Fragment)
    requires f.Valid() && f.sequence in pending && pending[f.sequence].count == f.count
    ensures var p' := Place(maxPacket, pending, f).0;
            && (forall s | s != f.sequence :: s in p' <==> s in pending)
            && (forall s | s in p' :: p'[s].expiresAt == pending[s].expiresAt)
            && (forall s | s != f.sequence && s in p' :: p'[s] == pending[s])
  {
  }

  /** Any other call before the deadline leaves the assembly alone, provided not too
      many younger assemblies compete with it. */
  lemma OtherStep(maxPacket: nat, pending: Pending, d: Delivery, sequence: uint32, packet: bytes,
                  got: set<nat>, first: int, rivals: nat)
    requires LegalChoice(pending, d)
    requires !OfSequence(d, sequence) && d.now < first + ASSEMBLY_TTL && got != {}
    requires Progress(pending, sequence, packet, got, first, rivals)
    requires Opens(pending, d) ==> rivals < MAX_ASSEMBLIES - 1
    ensures Progress(DecodeStep(maxPacket, pending, d).0, sequence, packet, got, first,
                     rivals + if Opens(pending, d) then 1 else 0)
  {
    var deadline := first + ASSEMBLY_TTL;
    var p' := DecodeStep(maxPacket, pending, d).0;
    var before, after := Younger(pending, sequence, deadline), Younger(p', sequence, deadline);
    if Parse(d.frame).Ok? {
      var f := Parse(d.frame).fragment;
      var pruned := Prune(pending, d.now);
      if f.sequence !in pruned {
        if |pruned| >= MAX_ASSEMBLIES && d.victim == sequence {
          OldestHasYounger(pruned, sequence);
          SubsetSize(Younger(pruned, sequence, deadline), before);
          assert false;
        }
        PlaceOther(maxPacket, Open(pruned, f, d.now, d.victim), f);
        assert after <= before + {f.sequence};
        SubsetSize(after, before + {f.sequence});
      } else {
        if pruned[f.sequence].count == f.count {
          PlaceOther(maxPacket, pruned, f);
        }
        assert after <= before;
        SubsetSize(after, before);
      }
    }
  }

  // ---------- The run ----------

  /** A call the completeness claim allows: a legal eviction choice, a genuine frame if
      it is of the sequence (other frames are arbitrary bytes), a reading within the
      lifetime of the assembly, which the first call opens. */
  ghost predicate CallOk(t: Track, d: Delivery, sequence: uint32, packet: bytes, first: int) {
    && LegalChoice(t.pending, d)
    && (OfSequence(d, sequence) ==> IsFrameOf(d.frame, sequence, packet))
    && first <= d.now < first + 2_000_000_000
    && (t.arrived == {} ==> OfSequence(d, sequence) && d.now == first)
  }

  /** Call k, in the run. */
  ghost predicate StepAt(maxPacket: nat, ts: seq<Track>, ds: seq<Delivery>, sequence: uint32, packet: bytes, first: int, k: nat)
    requires |ts| == |ds| + 1 && k < |ds|
  {
    CallOk(ts[k], ds[k], sequence, packet, first) && ts[k + 1] == Advance(maxPacket, ts[k], ds[k], sequence)
  }

  /** Deliveries to a decoder that starts in any state in which the sequence is not
      pending, with at most fifteen other assemblies opened no earlier than its own:
      already pending at the start, or opened during the run. */
  ghost predicate Scenario(maxPacket: nat, ts: seq<Track>, ds: seq<Delivery>, sequence: uint32, packet: bytes, first: int) {
    && |ts| == |ds| + 1
    && (forall k :: 0 <= k < |ds| ==> StepAt(maxPacket, ts, ds, sequence, packet, first, k))
    && ts[0] == Track(ts[0].pending, {}, 0)
    && BooksInv(maxPacket, ts[0].pending)
    && Encodable(maxPacket, packet)
    && sequence !in Prune(ts[0].pending, first)
    && |Younger(ts[0].pending, sequence, first + 2_000_000_000)| + ts[|ds|].others <= 15
  }

  ghost predicate Waiting(maxPacket: nat, t: Track, sequence: uint32, packet: bytes, first: int, older: nat) {
    && BooksInv(maxPacket, t.pending)
    && Progress(t.pending, sequence, packet, t.arrived, first, older + t.others)
  }

  /** One call, from any watched state. */
  lemma WaitingStep(maxPacket: nat, t: Track, d: Delivery, sequence: uint32, packet: bytes, first: int, older: nat)
    requires Encodable(maxPacket, packet) && CallOk(t, d, sequence, packet, first)
    requires Waiting(maxPacket, t, sequence, packet, first, older) && !Covers(t.arrived, packet)
    requires older + Advance(maxPacket, t, d, sequence).others <= MAX_ASSEMBLIES - 1
    ensures var t' := Advance(maxPacket, t, d, sequence);
            var r := DecodeStep(maxPacket, t.pending, d).1;
            if Covers(t'.arrived, packet) then r == Packet(packet)
            else (OfSequence(d, sequence) ==> r == Nothing)
                 && Waiting(maxPacket, t', sequence, packet, first, older)
  {
    DecodeKeepsBooks(maxPacket, t.pending, d);
    if OfSequence(d, sequence) {
      var i :| 0 <= i < FragmentCount(|packet|) && d.frame == FragmentAt(sequence, packet, i).ToFrame();
      ParseUndoesToFrame(FragmentAt(sequence, packet, i));
      OwnStep(maxPacket, t.pending, d, sequence, packet, i, t.arrived, first, older + t.others);
    } else {
      OtherStep(maxPacket, t.pending, d, sequence, packet, t.arrived, first, older + t.others);
    }
  }

  lemma AdvanceGrows(maxPacket: nat, t: Track, d: Delivery, sequence: uint32)
    ensures var t' := Advance(maxPacket, t, d, sequence);
            t.arrived <= t'.arrived && t.others <= t'.others
  {
  }

  lemma {:induction false} TrackGrows(maxPacket: nat, ts: seq<Track>, ds: seq<Delivery>, sequence: uint32,
                                      packet: bytes, first: int, j: nat, k: nat)
    requires Scenario(maxPacket, ts, ds, sequence, packet, first) && j <= k <= |ds|
    ensures ts[j].arrived <= ts[k].arrived && ts[j].others <= ts[k].others
  {
    if j < k {
      TrackGrows(maxPacket, ts, ds, sequence, packet, first, j, k - 1);
      assert StepAt(maxPacket, ts, ds, sequence, packet, first, k - 1);
      AdvanceGrows(maxPacket, ts[k - 1], ds[k - 1], sequence);
    }
  }

  lemma {:induction false} WaitsUntilCovered(maxPacket: nat, ts: seq<Track>, ds: seq<Delivery>, sequence: uint32,
                                             packet: bytes, first: int, k: nat)
    requires Scenario(maxPacket, ts, ds, sequence, packet, first) && k <= |ds|
    requires !Covers(ts[k].arrived, packet)
    ensures Waiting(maxPacket, ts[k], sequence, packet, first, |Younger(ts[0].pending, sequence, first + ASSEMBLY_TTL)|)
  {
    if k > 0 {
      TrackGrows(maxPacket, ts, ds, sequence, packet, first, k - 1, k);
      WaitsUntilCovered(maxPacket, ts, ds, sequence, packet, first, k - 1);
      RunStep(maxPacket, ts, ds, sequence, packet, first, k - 1);
    }
  }

  lemma RunStep(maxPacket: nat, ts: seq<Track>, ds: seq<Delivery>, sequence: uint32, packet: bytes, first: int, k: nat)
    requires Scenario(maxPacket, ts, ds, sequence, packet, first) && k < |ds|
    requires !Covers(ts[k].arrived, packet)
    requires Waiting(maxPacket, ts[k], sequence, packet, first, |Younger(ts[0].pending, sequence, first + ASSEMBLY_TTL)|)
    ensures var r := DecodeStep(maxPacket, ts[k].pending, ds[k]).1;
            if Covers(ts[k + 1].arrived, packet) then r == Packet(packet)
            else (OfSequence(ds[k], sequence) ==> r == Nothing)
                 && Waiting(maxPacket, ts[k + 1], sequence, packet, first,
                            |Younger(ts[0].pending, sequence, first + ASSEMBLY_TTL)|)
  {
    assert StepAt(maxPacket, ts, ds, sequence, packet, first, k);
    TrackGrows(maxPacket, ts, ds, sequence, packet, first, k + 1, |ds|);
    WaitingStep(maxPacket, ts[k], ds[k], sequence, packet, first, |Younger(ts[0].pending, sequence, first + ASSEMBLY_TTL)|);
  }

  /** Reassembly completeness: once the first fragment of a sequence has opened its
      assembly, as long as readings stay within its two seconds and at most fifteen
      other assemblies opened no earlier than it compete with it, Decode stays silent on
      the sequence while a fragment is missing and returns the packet at the very call
      that brings the last missing one -- in whatever order, with whatever duplicates,
      and whatever other frames, well-formed or not, come in between. */
  lemma Completeness(maxPacket: nat, ts: seq<Track>, ds: seq<Delivery>, sequence: uint32, packet: bytes, first: int, k: nat)
    requires Scenario(maxPacket, ts, ds, sequence, packet, first) && k < |ds|
    requires !Covers(ts[k].arrived, packet)
    ensures var r := DecodeStep(maxPacket, ts[k].pending, ds[k]).1;
            if Covers(ts[k + 1].arrived, packet) then r == Packet(packet)
            else OfSequence(ds[k], sequence) ==> r == Nothing
  {
    WaitsUntilCovered(maxPacket, ts, ds, sequence, packet, first, k);
    RunStep(maxPacket, ts, ds, sequence, packet, first, k);
  }

  lemma {:induction false} NoOthers(maxPacket: nat, ts: seq<Track>, ds: seq<Delivery>, sequence: uint32,
                                    packet: bytes, first: int, k: nat)
    requires |ts| == |ds| + 1 && ts[0].others == 0 && k <= |ds|
    requires forall j :: 0 <= j < |ds| ==> StepAt(maxPacket, ts, ds, sequence, packet, first, j)
    requires forall j :: 0 <= j < |ds| ==> OfSequence(ds[j], sequence)
    ensures ts[k].others == 0
  {
    if k > 0 {
      NoOthers(maxPacket, ts, ds, sequence, packet, first, k - 1);
      assert StepAt(maxPacket, ts, ds, sequence, packet, first, k - 1);
    }
  }

  /** Encode and Decode are inverse: a fresh decoder that is given the frames of one
      Encode call, in any order and with any repetitions, returns that packet at the call
      that completes them. */
  lemma AnyOrder(maxPacket: nat, ts: seq<Track>, ds: seq<Delivery>, sequence: uint32, packet: bytes, first: int, k: nat)
    requires |ts| == |ds| + 1 && ts[0] == Track(map[], {}, 0) && Encodable(maxPacket, packet) && k < |ds|
    requires forall j :: 0 <= j < |ds| ==> StepAt(maxPacket, ts, ds, sequence, packet, first, j)
    requires forall j :: 0 <= j < |ds| ==> OfSequence(ds[j], sequence)
    requires !Covers(ts[k].arrived, packet) && Covers(ts[k + 1].arrived, packet)
    ensures DecodeStep(maxPacket, ts[k].pending, ds[k]).1 == Packet(packet)
  {
    NoOthers(maxPacket, ts, ds, sequence, packet, first, |ds|);
    assert Younger(ts[0].pending, sequence, first + ASSEMBLY_TTL) == {};
    Completeness(maxPacket, ts, ds, sequence, packet, first, k);
  }
}
