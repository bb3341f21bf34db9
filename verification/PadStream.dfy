/** The padding stream (internal/padstream/padstream.go): a framing writer with random
    padding and keep-alives, and an incremental three-stage reader.

    The wire format, the writer's discipline, what a wire is worth to a reader, and the
    reader's step.  The connection is in `PadConn`, runs of one direction in `PadLink`. */
module PadStream {
  import opened Bytes

  const PADDING_ONLY: byte := 0
  const DATA_WITH_PAD: byte := 1
  const DATA_NO_PAD: byte := 2
  const HEADER := 5
  const MAX_CHUNK := 65535

  datatype Policy = Policy(maxPadding: uint16, initialFrames: int, initialMax: uint16, keepAliveChance: int)

  // ---------- Frames ----------

  datatype FrameRecord = FrameRecord(kind: byte, payload: bytes, pad: bytes)

  type Frame = f: FrameRecord | |f.payload| <= MAX_CHUNK && |f.pad| <= MAX_CHUNK
    witness FrameRecord(0, [], [])

  function Header(f: Frame): (h: bytes)
    ensures |h| == HEADER
  {
    [f.kind] + PutUint16(|f.payload|) + PutUint16(|f.pad|)
  }

  function FrameBytes(f: Frame): (b: bytes)
    ensures |b| == HEADER + |f.pad| + |f.payload|
  {
    Header(f) + f.pad + f.payload
  }

  /** The layout of a frame: type, big-endian payload and padding sizes, then the padding
      and after it the payload. */
  lemma FrameLayout(f: Frame)
    ensures var b, n := FrameBytes(f), 5 + |f.pad|;
            && |b| == n + |f.payload| && b[0] == f.kind
            && b[1] as int * 256 + b[2] == |f.payload| && b[3] as int * 256 + b[4] == |f.pad|
            && b[5..n] == f.pad && b[n..] == f.payload
  {
    var b := FrameBytes(f);
    assert b[..5] == Header(f);
    assert forall i :: 0 <= i < 5 ==> b[i] == Header(f)[i];
  }

  function Wire(frames: seq<Frame>): bytes {
    if frames == [] then [] else Wire(frames[..|frames| - 1]) + FrameBytes(frames[|frames| - 1])
  }

  /** The application bytes that frames carry. */
  function Content(frames: seq<Frame>): bytes {
    if frames == [] then [] else Content(frames[..|frames| - 1]) + frames[|frames| - 1].payload
  }

  function DataCount(frames: seq<Frame>): nat {
    if frames == [] then 0
    else DataCount(frames[..|frames| - 1]) + if frames[|frames| - 1].payload != [] then 1 else 0
  }

  lemma Append(frames: seq<Frame>, f: Frame)
    ensures Wire(frames + [f]) == Wire(frames) + FrameBytes(f)
    ensures Content(frames + [f]) == Content(frames) + f.payload
    ensures DataCount(frames + [f]) == DataCount(frames) + if f.payload != [] then 1 else 0
  {
  }

  // ---------- Writer discipline ----------

  /** What Write may send when `sent` data frames went before. */
  predicate DataFrameOk(policy: Policy, sent: nat, f: Frame) {
    && f.payload != []
    && if sent < policy.initialFrames then f.kind == DATA_WITH_PAD && |f.pad| <= policy.initialMax
       else |f.pad| <= policy.maxPadding && f.kind == if f.pad == [] then DATA_NO_PAD else DATA_WITH_PAD
  }

  /** What maybeKeepAlive may send: nothing before the first data frame. */
  predicate KeepAliveOk(policy: Policy, sent: nat, f: Frame) {
    sent > 0 && f.kind == PADDING_ONLY && f.payload == [] && |f.pad| <= policy.maxPadding
  }

  predicate DataRun(policy: Policy, sent: nat, frames: seq<Frame>) {
    forall i :: 0 <= i < |frames| ==> DataFrameOk(policy, sent + i, frames[i])
  }

  predicate Disciplined(policy: Policy, frames: seq<Frame>) {
    forall i :: 0 <= i < |frames| ==>
      if frames[i].payload != [] then DataFrameOk(policy, DataCount(frames[..i]), frames[i])
      else KeepAliveOk(policy, DataCount(frames[..i]), frames[i])
  }

  // ---------- What a wire is worth to a reader ----------

  function FrameSize(wire: bytes): nat
    requires |wire| >= HEADER
  {
    HEADER + Uint16(wire[3..5]) + Uint16(wire[1..3])
  }

  predicate StartsWithFrame(wire: bytes) {
    |wire| >= HEADER && |wire| >= FrameSize(wire)
  }

  function FirstPayload(wire: bytes): bytes
    requires StartsWithFrame(wire)
  {
    wire[HEADER + Uint16(wire[3..5])..FrameSize(wire)]
  }

  function AfterFirst(wire: bytes): bytes
    requires StartsWithFrame(wire)
  {
    wire[FrameSize(wire)..]
  }

  /** The payloads of the complete frames at the front of any bytes whatever. */
  function Deliverable(wire: bytes): bytes
    decreases |wire|
  {
    if !StartsWithFrame(wire) then [] else FirstPayload(wire) + Deliverable(AfterFirst(wire))
  }

  /** The bytes end on a frame boundary. */
  predicate Complete(wire: bytes)
    decreases |wire|
  {
    wire == [] || (StartsWithFrame(wire) && Complete(AfterFirst(wire)))
  }

  lemma FirstFrameAppend(w: bytes, x: bytes)
    requires StartsWithFrame(w)
    ensures StartsWithFrame(w + x)
    ensures FirstPayload(w + x) == FirstPayload(w) && AfterFirst(w + x) == AfterFirst(w) + x
  {
    assert (w + x)[1..3] == w[1..3] && (w + x)[3..5] == w[3..5];
    var pad: nat, size := Uint16(w[3..5]), FrameSize(w);
    assert (w + x)[HEADER + pad..size] == w[HEADER + pad..size];
    assert (w + x)[size..] == w[size..] + x;
  }

  lemma {:induction false} DeliverableAppend(w: bytes, x: bytes)
    requires Complete(w)
    ensures Deliverable(w + x) == Deliverable(w) + Deliverable(x)
    ensures Complete(x) ==> Complete(w + x)
    decreases |w|
  {
    if w == [] {
      assert w + x == x;
    } else {
      FirstFrameAppend(w, x);
      DeliverableAppend(AfterFirst(w), x);
      assert FirstPayload(w) + (Deliverable(AfterFirst(w)) + Deliverable(x))
          == (FirstPayload(w) + Deliverable(AfterFirst(w))) + Deliverable(x);
    }
  }

  lemma OneFrame(f: Frame)
    ensures Complete(FrameBytes(f)) && Deliverable(FrameBytes(f)) == f.payload
  {
  }

  /** The reader's reading of what the writer wrote. */
  lemma {:induction false} WireDelivers(frames: seq<Frame>)
    ensures Complete(Wire(frames)) && Deliverable(Wire(frames)) == Content(frames)
  {
    if frames != [] {
      var n := |frames| - 1;
      WireDelivers(frames[..n]);
      OneFrame(frames[n]);
      DeliverableAppend(Wire(frames[..n]), FrameBytes(frames[n]));
    }
  }

  // ---------- The reader ----------

  datatype Reader = Reader(stage: nat, payloadLen: uint16, padLen: uint16, buf: bytes) {
    predicate Valid() {
      match stage
      case 0 => true
      case 1 => padLen > 0 && buf == []
      case 2 => payloadLen > 0 && buf == []
      case _ => false
    }

    /** Bytes of padding and of payload still to come of the current frame. */
    function PadLeft(): nat { if stage == 1 then padLen else 0 }
    function PayloadLeft(): nat { if stage == 0 then 0 else payloadLen }

    /** What a reader in this state will return, given these bytes on the wire. */
    function Owed(wire: bytes): bytes {
      var body := PadLeft() + PayloadLeft();
      buf + if |wire| < body then [] else wire[PadLeft()..body] + Deliverable(wire[body..])
    }

    /** The wire ends on a frame boundary. */
    predicate Aligned(wire: bytes) {
      var body := PadLeft() + PayloadLeft();
      |wire| >= body && Complete(wire[body..])
    }

    function Need(): nat {
      if stage == 0 then HEADER else if stage == 1 then padLen else payloadLen
    }

    /** One iteration of Read's loop on an empty buffer, when the raw read succeeds. */
    function Pull(wire: bytes): Reader
      requires Valid() && |wire| >= Need()
    {
      if stage == 0 then
        var payload, pad := Uint16(wire[1..3]), Uint16(wire[3..5]);
        Reader(if pad > 0 then 1 else if payload > 0 then 2 else 0, payload, pad, buf)
      else if stage == 1 then
        Reader(if payloadLen > 0 then 2 else 0, payloadLen, padLen, buf)
      else
        Reader(0, payloadLen, padLen, wire[..payloadLen])
    }
  }

  /** The first frame, seen from behind its header. */
  lemma PullFirst(wire: bytes)
    requires StartsWithFrame(wire)
    ensures var pad: nat, size := Uint16(wire[3..5]), FrameSize(wire);
            && pad <= size - HEADER <= |wire[HEADER..]|
            && wire[HEADER..][pad..size - HEADER] == FirstPayload(wire)
            && wire[HEADER..][size - HEADER..] == AfterFirst(wire)
  {
    var pad: nat, size := Uint16(wire[3..5]), FrameSize(wire);
    assert wire[HEADER..][pad..size - HEADER] == wire[HEADER + pad..size];
    assert wire[HEADER..][size - HEADER..] == wire[size..];
  }

  lemma PullHeader(r: Reader, wire: bytes)
    requires r.stage == 0 && r.buf == [] && |wire| >= HEADER
    ensures var r', wire' := r.Pull(wire), wire[HEADER..];
            r'.Valid() && r'.Owed(wire') == r.Owed(wire) && (r.Aligned(wire) ==> r'.Aligned(wire'))
  {
    assert wire[0..] == wire;
    assert r.Owed(wire) == Deliverable(wire) && r.Aligned(wire) == Complete(wire);
    if StartsWithFrame(wire) {
      PullFirst(wire);
    }
  }

  lemma PullPadding(r: Reader, wire: bytes)
    requires r.stage == 1 && r.padLen > 0 && r.buf == [] && |wire| >= r.padLen
    ensures var r', wire' := r.Pull(wire), wire[r.padLen..];
            r'.Valid() && r'.Owed(wire') == r.Owed(wire) && (r.Aligned(wire) ==> r'.Aligned(wire'))
  {
  }

  lemma PullPayload(r: Reader, wire: bytes)
    requires r.stage == 2 && r.payloadLen > 0 && r.buf == [] && |wire| >= r.payloadLen
    ensures var r', wire' := r.Pull(wire), wire[r.payloadLen..];
            r'.Valid() && r'.Owed(wire') == r.Owed(wire) && (r.Aligned(wire) ==> r'.Aligned(wire'))
  {
  }

  /** An iteration returns nothing and loses nothing, on any wire. */
  lemma PullConserves(r: Reader, wire: bytes)
    requires r.Valid() && r.buf == [] && |wire| >= r.Need()
    ensures var r', wire' := r.Pull(wire), wire[r.Need()..];
            && r'.Valid() && r'.Owed(wire') == r.Owed(wire) && (r.Aligned(wire) ==> r'.Aligned(wire'))
            && |wire'| < |wire|
  {
    if r.stage == 0 {
      PullHeader(r, wire);
    } else if r.stage == 1 {
      PullPadding(r, wire);
    } else {
      PullPayload(r, wire);
    }
  }

  /** When the raw read cannot succeed there is nothing left to return, and if the wire
      ends on a frame boundary it is drained. */
  lemma StarvedOwesNothing(r: Reader, wire: bytes)
    requires r.Valid() && r.buf == [] && |wire| < r.Need()
    ensures r.Owed(wire) == []
    ensures r.Aligned(wire) ==> r.stage == 0 && wire == []
  {
  }

  lemma OwedAppend(r: Reader, wire: bytes, x: bytes)
    requires r.Aligned(wire) && Complete(x)
    ensures r.Aligned(wire + x) && r.Owed(wire + x) == r.Owed(wire) + Deliverable(x)
  {
    var body := r.PadLeft() + r.PayloadLeft();
    var rest := wire[body..];
    assert (wire + x)[body..] == rest + x;
    assert (wire + x)[r.PadLeft()..body] == wire[r.PadLeft()..body];
    DeliverableAppend(rest, x);
    Regroup(r.buf, wire[r.PadLeft()..body], Deliverable(rest), Deliverable(x));
  }

  lemma Regroup(a: bytes, b: bytes, c: bytes, d: bytes)
    ensures a + (b + (c + d)) == a + (b + c) + d
  {
  }

  lemma OwedFrame(r: Reader, wire: bytes, f: Frame)
    requires r.Aligned(wire)
    ensures r.Aligned(wire + FrameBytes(f)) && r.Owed(wire + FrameBytes(f)) == r.Owed(wire) + f.payload
  {
    OneFrame(f);
    OwedAppend(r, wire, FrameBytes(f));
  }
}
