/** Runs of one direction of a padding connection: a writer that sends data frames and
    keep-alives, the bytes in flight, and the reader at the other end, interleaved in any
    way.

    A Write call is a sequence of `DataSent` steps, whose contents concatenate to its
    argument (`PadConn.Conn.Write`); a Read call is any number of `Pulled` steps and one
    `Took` step.  A raw read that waits for bytes still on their way is a step that is
    taken later. */
module PadLink {
  import opened Bytes
  import opened PadStream

  datatype Link = Link(frames: seq<Frame>, sent: nat, wire: bytes, reader: Reader, returned: bytes)

  datatype Event =
    | DataSent(f: Frame)
    | KeepAliveSent(f: Frame)
    | Pulled
    | Took(room: nat)

  ghost predicate Possible(policy: Policy, l: Link, event: Event) {
    match event
    case DataSent(f) => DataFrameOk(policy, l.sent, f)
    case KeepAliveSent(f) => KeepAliveOk(policy, l.sent, f)
    case Pulled => l.reader.Valid() && l.reader.buf == [] && |l.wire| >= l.reader.Need()
    case Took(_) => l.reader.buf != []
  }

  function Step(policy: Policy, l: Link, event: Event): Link
    requires Possible(policy, l, event)
  {
    match event
    case DataSent(f) => l.(frames := l.frames + [f], sent := l.sent + 1, wire := l.wire + FrameBytes(f))
    case KeepAliveSent(f) => l.(frames := l.frames + [f], wire := l.wire + FrameBytes(f))
    case Pulled => l.(reader := l.reader.Pull(l.wire), wire := l.wire[l.reader.Need()..])
    case Took(room) =>
      var n := Min(room, |l.reader.buf|);
      l.(reader := l.reader.(buf := l.reader.buf[n..]), returned := l.returned + l.reader.buf[..n])
  }

  ghost predicate LinkInv(policy: Policy, l: Link) {
    && Disciplined(policy, l.frames)
    && l.sent == DataCount(l.frames)
    && l.reader.Valid()
    && l.reader.Aligned(l.wire)
    && l.returned + l.reader.Owed(l.wire) == Content(l.frames)
  }

  /** A frame put on the wire is owed to the reader after everything before it. */
  lemma SendConserves(l: Link, f: Frame)
    requires l.reader.Aligned(l.wire) && l.returned + l.reader.Owed(l.wire) == Content(l.frames)
    ensures l.reader.Aligned(l.wire + FrameBytes(f))
    ensures l.returned + l.reader.Owed(l.wire + FrameBytes(f)) == Content(l.frames + [f])
  {
    OwedFrame(l.reader, l.wire, f);
    Associate(l.returned, l.reader.Owed(l.wire), f.payload);
    assert Content(l.frames + [f]) == Content(l.frames) + f.payload by {
      Append(l.frames, f);
    }
  }

  lemma SendKeepsInv(policy: Policy, l: Link, event: Event)
    requires LinkInv(policy, l) && Possible(policy, l, event) && (event.DataSent? || event.KeepAliveSent?)
    ensures LinkInv(policy, Step(policy, l, event))
  {
    SendConserves(l, event.f);
    Append(l.frames, event.f);
    DisciplinedAppend(policy, l.frames, event.f);
  }

  lemma DisciplinedAppend(policy: Policy, frames: seq<Frame>, f: Frame)
    requires Disciplined(policy, frames)
    requires if f.payload != [] then DataFrameOk(policy, DataCount(frames), f) else KeepAliveOk(policy, DataCount(frames), f)
    ensures Disciplined(policy, frames + [f])
  {
    forall i | 0 <= i < |frames + [f]|
      ensures (frames + [f])[..i] == if i < |frames| then frames[..i] else frames
    {
    }
  }

  lemma ReadKeepsInv(policy: Policy, l: Link, event: Event)
    requires LinkInv(policy, l) && Possible(policy, l, event) && (event.Pulled? || event.Took?)
    ensures LinkInv(policy, Step(policy, l, event))
  {
    if event.Pulled? {
      PullConserves(l.reader, l.wire);
    } else {
      var n := Min(event.room, |l.reader.buf|);
      var tail := l.wire[0..0] + Deliverable(l.wire[0..]);
      assert l.returned + (l.reader.buf + tail) == l.returned + l.reader.buf[..n] + (l.reader.buf[n..] + tail);
    }
  }

  ghost predicate Reachable(policy: Policy, events: seq<Event>, l: Link)
    decreases |events|
  {
    if events == [] then l == Link([], 0, [], Reader(0, 0, 0, []), [])
    else
      var n := |events| - 1;
      exists l0 :: Reachable(policy, events[..n], l0) && Possible(policy, l0, events[n]) && l == Step(policy, l0, events[n])
  }

  lemma {:induction false} ReachableInv(policy: Policy, events: seq<Event>, l: Link)
    requires Reachable(policy, events, l)
    ensures LinkInv(policy, l)
    decreases |events|
  {
    if events == [] {
      assert l.wire[0..] == [] && Complete([]);
    } else {
      var n := |events| - 1;
      var l0 :| Reachable(policy, events[..n], l0) && Possible(policy, l0, events[n]) && l == Step(policy, l0, events[n]);
      ReachableInv(policy, events[..n], l0);
      if events[n].DataSent? || events[n].KeepAliveSent? {
        SendKeepsInv(policy, l0, events[n]);
      } else {
        ReadKeepsInv(policy, l0, events[n]);
      }
    }
  }

  /** Padding stream round trip: in every run, for any padding drawn, any keep-alives in
      between and any read sizes, the bytes returned are a prefix of the bytes written,
      all of them once nothing is in flight or buffered, and until then the reader has a
      step to take. */
  lemma RoundTrip(policy: Policy, events: seq<Event>, l: Link)
    requires Reachable(policy, events, l)
    ensures l.returned <= Content(l.frames)
    ensures l.wire == [] && l.reader.buf == [] ==> l.returned == Content(l.frames)
    ensures l.wire != [] || l.reader.buf != [] ==> Possible(policy, l, Took(1)) || Possible(policy, l, Pulled)
  {
    ReachableInv(policy, events, l);
    if l.reader.buf == [] && |l.wire| < l.reader.Need() {
      StarvedOwesNothing(l.reader, l.wire);
    }
    if l.wire == [] && l.reader.buf == [] {
      StarvedOwesNothing(l.reader, l.wire);
    }
  }

  /** Writer discipline in every run: the wire is a sequence of well-formed frames; the
      first one carries data; a frame is padding-only exactly when its payload is empty;
      the first `initialFrames` data frames are of type 1 and padded up to `initialMax`,
      later ones up to `maxPadding` and of type 2 exactly when not padded. */
  lemma WriterDiscipline(policy: Policy, events: seq<Event>, l: Link, i: nat)
    requires Reachable(policy, events, l) && i < |l.frames|
    ensures var f := l.frames[i];
            var earlier := DataCount(l.frames[..i]);
            && (i == 0 ==> f.payload != [])
            && (f.kind == 0 <==> f.payload == [])
            && (f.payload == [] ==> |f.pad| <= policy.maxPadding)
            && (f.payload != [] && earlier < policy.initialFrames ==> f.kind == 1 && |f.pad| <= policy.initialMax)
            && (f.payload != [] && earlier >= policy.initialFrames ==>
                  |f.pad| <= policy.maxPadding && f.kind == if f.pad == [] then 2 else 1)
  {
    ReachableInv(policy, events, l);
    assert i == 0 ==> l.frames[..i] == [];
  }

  /** Every Write call is such a run: whenever it starts, the frames it sends
      (`PadConn.Conn.Write`) can be taken as `DataSent` steps, one after the other, and
      put exactly their bytes on the wire. */
  lemma {:induction false} WriteIsRun(policy: Policy, events: seq<Event>, l: Link, frames: seq<Frame>)
    returns (events': seq<Event>, l': Link)
    requires Reachable(policy, events, l) && DataRun(policy, l.sent, frames)
    ensures Reachable(policy, events', l')
    ensures l' == Link(l.frames + frames, l.sent + |frames|, l.wire + Wire(frames), l.reader, l.returned)
    decreases |frames|
  {
    if frames == [] {
      events', l' := events, l;
      assert l.frames + frames == l.frames && l.wire + Wire(frames) == l.wire;
    } else {
      var n := |frames| - 1;
      var f := frames[n];
      var init, l0 := WriteIsRun(policy, events, l, frames[..n]);
      events', l' := init + [DataSent(f)], Step(policy, l0, DataSent(f));
      assert events'[..|init|] == init;
      assert l.frames + frames[..n] + [f] == l.frames + frames;
      Associate(l.wire, Wire(frames[..n]), FrameBytes(f));
    }
  }
}
