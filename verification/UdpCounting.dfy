/** How often the decoder can return a packet, for arbitrary frame streams. */
module UdpCounting {
  import opened Bytes
  import opened UdpCodec

  /** Call k takes the pending map from states[k] to states[k+1]. */
  ghost predicate StepAt(maxPacket: nat, states: seq<Pending>, ds: seq<Delivery>, k: nat)
    requires |states| == |ds| + 1 && k < |ds|
  {
    states[k + 1] == DecodeStep(maxPacket, states[k], ds[k]).0
  }

  /** A run of Decode calls, on arbitrary frames. */
  ghost predicate IsRun(maxPacket: nat, states: seq<Pending>, ds: seq<Delivery>) {
    && |states| == |ds| + 1
    && forall k :: 0 <= k < |ds| ==> StepAt(maxPacket, states, ds, k)
  }

  function OutcomeAt(maxPacket: nat, states: seq<Pending>, ds: seq<Delivery>, k: nat): Outcome
    requires |states| == |ds| + 1 && k < |ds|
  {
    DecodeStep(maxPacket, states[k], ds[k]).1
  }

  /** The frame is a well-formed fragment of the given sequence and fragment count. */
  predicate Belongs(d: Delivery, sequence: uint32, count: nat) {
    Parse(d.frame).Ok? && Parse(d.frame).fragment.sequence == sequence && Parse(d.frame).fragment.count == count
  }

  /** One if call k returned the packet of this sequence and count, else zero. */
  function EmitsAt(maxPacket: nat, states: seq<Pending>, ds: seq<Delivery>, k: nat, sequence: uint32, count: nat): nat
    requires |states| == |ds| + 1 && k < |ds|
  {
    if Belongs(ds[k], sequence, count) && OutcomeAt(maxPacket, states, ds, k).Packet? then 1 else 0
  }

  /** One if frame k carried this one fragment, else zero. */
  function ArrivesAt(ds: seq<Delivery>, k: nat, sequence: uint32, count: nat, index: nat): nat
    requires k < |ds|
  {
    if Belongs(ds[k], sequence, count) && Parse(ds[k].frame).fragment.index == index then 1 else 0
  }

  /** How many packets of this sequence and count the first k calls returned. */
  function Emissions(maxPacket: nat, states: seq<Pending>, ds: seq<Delivery>, k: nat, sequence: uint32, count: nat): nat
    requires |states| == |ds| + 1 && k <= |ds|
  {
    if k == 0 then 0
    else Emissions(maxPacket, states, ds, k - 1, sequence, count) + EmitsAt(maxPacket, states, ds, k - 1, sequence, count)
  }

  /** How many of the first k frames carried this one fragment. */
  function Arrivals(ds: seq<Delivery>, k: nat, sequence: uint32, count: nat, index: nat): nat
    requires k <= |ds|
  {
    if k == 0 then 0
    else Arrivals(ds, k - 1, sequence, count, index) + ArrivesAt(ds, k - 1, sequence, count, index)
  }

  /** One if the fragment is stored and may still be used once, else zero. */
  function Stored(pending: Pending, sequence: uint32, count: nat, index: nat): nat
    requires index < count
  {
    if sequence in pending && pending[sequence].count == count && pending[sequence].parts[index].Some? then 1 else 0
  }

  lemma PlaceSpends(maxPacket: nat, pending: Pending, f: Fragment, sequence: uint32, count: nat, index: nat)
    requires f.Valid() && index < count
    requires f.sequence in pending && pending[f.sequence].count == f.count
    ensures var (p', r) := Place(maxPacket, pending, f);
            Stored(p', sequence, count, index) + (if f.sequence == sequence && f.count == count && r.Packet? then 1 else 0)
            <= Stored(pending, sequence, count, index)
               + if f.sequence == sequence && f.count == count && f.index == index then 1 else 0
  {
    if f.sequence == sequence && f.count == count {
      var parts := pending[sequence].parts;
      var parts' := parts[f.index := Some(f.payload)];
      assert AllFilled(parts') ==> parts'[index].Some?;
    }
  }

  /** A step returns a packet only by spending one stored copy of each fragment, and
      stores a copy only of the fragment it was given. */
  lemma StepSpends(maxPacket: nat, pending: Pending, d: Delivery, sequence: uint32, count: nat, index: nat)
    requires index < count
    ensures var (p', r) := DecodeStep(maxPacket, pending, d);
            Stored(p', sequence, count, index) + (if Belongs(d, sequence, count) && r.Packet? then 1 else 0)
            <= Stored(pending, sequence, count, index)
               + if Belongs(d, sequence, count) && Parse(d.frame).fragment.index == index then 1 else 0
  {
    if Parse(d.frame).Ok? {
      var f := Parse(d.frame).fragment;
      var pruned := Prune(pending, d.now);
      if f.sequence !in pruned {
        PlaceSpends(maxPacket, Open(pruned, f, d.now, d.victim), f, sequence, count, index);
      } else if pruned[f.sequence].count == f.count {
        PlaceSpends(maxPacket, pruned, f, sequence, count, index);
      }
    }
  }

  /** The same for call k of a run. */
  lemma SpendsAt(maxPacket: nat, states: seq<Pending>, ds: seq<Delivery>, k: nat, sequence: uint32, count: nat, index: nat)
    requires IsRun(maxPacket, states, ds) && index < count && k < |ds|
    ensures Stored(states[k + 1], sequence, count, index) + EmitsAt(maxPacket, states, ds, k, sequence, count)
            <= Stored(states[k], sequence, count, index) + ArrivesAt(ds, k, sequence, count, index)
  {
    assert StepAt(maxPacket, states, ds, k);
    StepSpends(maxPacket, states[k], ds[k], sequence, count, index);
  }

  /** Emission counting: whatever arrives and whenever, the packet of a sequence is
      returned at most as often as any one of its fragments arrived.  Over a network
      that does not duplicate, that is at most once. */
  lemma {:induction false} EmissionBound(maxPacket: nat, states: seq<Pending>, ds: seq<Delivery>, k: nat,
                                         sequence: uint32, count: nat, index: nat)
    requires IsRun(maxPacket, states, ds) && states[0] == map[] && index < count && k <= |ds|
    ensures Emissions(maxPacket, states, ds, k, sequence, count) + Stored(states[k], sequence, count, index)
            <= Arrivals(ds, k, sequence, count, index)
  {
    if k > 0 {
      EmissionBound(maxPacket, states, ds, k - 1, sequence, count, index);
      SpendsAt(maxPacket, states, ds, k - 1, sequence, count, index);
      assert Emissions(maxPacket, states, ds, k, sequence, count)
          == Emissions(maxPacket, states, ds, k - 1, sequence, count) + EmitsAt(maxPacket, states, ds, k - 1, sequence, count);
      assert Arrivals(ds, k, sequence, count, index)
          == Arrivals(ds, k - 1, sequence, count, index) + ArrivesAt(ds, k - 1, sequence, count, index);
    }
  }

  /** At most once: if some fragment of a packet arrived no more than once, so did the
      packet come out. */
  lemma AtMostOnce(maxPacket: nat, states: seq<Pending>, ds: seq<Delivery>, sequence: uint32, count: nat, index: nat)
    requires IsRun(maxPacket, states, ds) && states[0] == map[] && index < count
    requires Arrivals(ds, |ds|, sequence, count, index) <= 1
    ensures Emissions(maxPacket, states, ds, |ds|, sequence, count) <= 1
  {
    EmissionBound(maxPacket, states, ds, |ds|, sequence, count, index);
  }
}
