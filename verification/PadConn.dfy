/** The padding connection itself (internal/padstream/padstream.go), over a raw stream
    that has room for so many more bytes before writes fail and delivers `incoming`
    before reads fail.  Random draws are arbitrary values within their bounds. */
module PadConn {
  import opened Bytes
  import opened PadStream

  method RandInt(max: uint16) returns (n: uint16)
    ensures n <= max
  {
    if max == 0 {
      return 0;
    }
    n :| 0 <= n <= max;
  }

  method RandBytes(n: uint16) returns (pad: bytes)
    ensures |pad| == n
  {
    var buf := new byte[n];
    return buf[..];
  }

  method ShouldKeepAlive(chance: int) returns (yes: bool)
    ensures (chance <= 0 ==> !yes) && (chance >= 100 ==> yes)
  {
    if chance <= 0 {
      return false;
    }
    var n :| 0 <= n < 100;
    return n < chance;
  }

  /** The write side of the raw stream: what it has taken, and how much more it will take
      before a write fails. */
  datatype Sink = Sink(out: bytes, room: nat)

  function Put(s: Sink, data: bytes): Sink {
    if |data| <= s.room then Sink(s.out + data, s.room - |data|) else Sink(s.out + data[..s.room], 0)
  }

  /** Writing in two goes, or going on after a failure, is writing all at once. */
  lemma PutInParts(s: Sink, a: bytes, b: bytes)
    ensures Put(Put(s, a), b) == Put(s, a + b)
  {
  }

  lemma PutNothing(s: Sink)
    ensures Put(s, []) == s
  {
  }

  class Conn {
    const policy: Policy
    var framesSent: nat
    var readBuf: bytes
    var readStage: nat
    var readPayloadLen: uint16
    var readPadLen: uint16
    var incoming: bytes
    var sink: Sink

    function State(): Reader
      reads this
    {
      Reader(readStage, readPayloadLen, readPadLen, readBuf)
    }

    /** The application bytes this end will still return. */
    ghost function Owed(): bytes
      reads this
    {
      State().Owed(incoming)
    }

    /** The state in which Read rolls the dice for a keep-alive. */
    ghost predicate Idle()
      reads this
    {
      State() == Reader(0, 0, 0, [])
    }

    ghost predicate Valid()
      reads this
    {
      State().Valid() && policy.initialFrames > 0 && policy.initialMax > 0
    }

    constructor (incoming: bytes, room: nat, p: Policy)
      ensures Valid() && framesSent == 0 && State() == Reader(0, 0, 0, [])
      ensures this.incoming == incoming && sink == Sink([], room)
      ensures policy == p.(initialFrames := if p.initialFrames <= 0 then 8 else p.initialFrames,
                           initialMax := if p.initialMax == 0 then 255 else p.initialMax)
    {
      policy := Policy(p.maxPadding, if p.initialFrames <= 0 then 8 else p.initialFrames,
                       if p.initialMax == 0 then 255 else p.initialMax, p.keepAliveChance);
      framesSent, readBuf, readStage, readPayloadLen, readPadLen := 0, [], 0, 0, 0;
      this.incoming, sink := incoming, Sink([], room);
    }

    /** A raw write: all of it, or an error after what fits. */
    method RawWrite(data: bytes) returns (n: nat, ok: bool)
      modifies `sink
      ensures sink == Put(old(sink), data)
      ensures n == Min(|data|, old(sink.room)) && ok == (|data| <= old(sink.room))
    {
      n, ok := Min(|data|, sink.room), |data| <= sink.room;
      sink := if ok then Sink(sink.out + data, sink.room - n) else Sink(sink.out + data[..n], 0);
    }

    /** Header, padding and payload of one data frame, stopping at the first error; `n` is
        the number of payload bytes written. */
    method SendFrame(f: Frame) returns (n: nat, ok: bool)
      modifies `sink
      ensures sink == Put(old(sink), FrameBytes(f)) && ok == (|FrameBytes(f)| <= old(sink.room))
      ensures n == Max(0, Min(|f.payload|, old(sink.room) - (HEADER + |f.pad|)))
    {
      PutInParts(sink, Header(f), f.pad);
      PutInParts(sink, Header(f) + f.pad, f.payload);
      n, ok := RawWrite(Header(f));
      PutNothing(sink);
      if !ok {
        return 0, false;
      }
      if |f.pad| > 0 {
        n, ok := RawWrite(f.pad);
        if !ok {
          return 0, false;
        }
      }
      n, ok := RawWrite(f.payload);
    }

    /** Write: the bytes go out as disciplined data frames that carry exactly them.  If the
        raw stream fails, what went out is the front of such frames and `total` counts the
        payload bytes among it. */
    method Write(b: bytes) returns (total: nat, ok: bool, ghost frames: seq<Frame>)
      requires Valid()
      modifies `framesSent, `sink
      ensures Valid()
      ensures DataRun(policy, old(framesSent), frames)
      ensures FullUpTo(frames, |frames| - 1)
      ensures sink == Put(old(sink), Wire(frames)) && ok == (|Wire(frames)| <= old(sink.room))
      ensures ok ==> Content(frames) == b && total == |b| && framesSent == old(framesSent) + |frames|
      ensures !ok ==> && frames != [] && Content(frames) <= b
                      && framesSent == old(framesSent) + |frames| - 1
                      && var done, last := frames[..|frames| - 1], frames[|frames| - 1];
                         total == |Content(done)|
                                  + Max(0, Min(|last.payload|, old(sink.room) - |Wire(done)| - HEADER - |last.pad|))
    {
      total, ok, frames := 0, true, [];
      PutNothing(sink);
      var rest := b;
      while |rest| > 0
        invariant Written(old(sink), old(framesSent), b, frames, rest) && ok && total == |Content(frames)|
        decreases |rest|
      {
        var n;
        n, ok, frames := SendChunk(old(sink), old(framesSent), b, frames, rest);
        total := total + n;
        if !ok {
          return;
        }
        rest := rest[n..];
      }
    }

    /** So far, and since the connection was in the given state, Write has sent `frames`
        and has `rest` of its argument left. */
    ghost predicate Written(start: Sink, first: nat, b: bytes, frames: seq<Frame>, rest: bytes)
      reads this
    {
      && Valid() && DataRun(policy, first, frames) && framesSent == first + |frames|
      && FullUpTo(frames, |frames| - 1) && (rest != [] ==> FullUpTo(frames, |frames|))
      && b == Content(frames) + rest
      && sink == Put(start, Wire(frames)) && |Wire(frames)| <= start.room
    }

    /** One iteration of Write's loop. */
    method SendChunk(ghost start: Sink, ghost first: nat, ghost b: bytes, ghost frames: seq<Frame>, rest: bytes)
      returns (n: nat, ok: bool, ghost frames': seq<Frame>)
      requires rest != [] && Written(start, first, b, frames, rest)
      modifies `framesSent, `sink
      ensures |frames'| == |frames| + 1 && frames'[..|frames|] == frames
      ensures sink == Put(start, Wire(frames')) && ok == (|Wire(frames')| <= start.room)
      ensures ok ==> 0 < n <= |rest| && Written(start, first, b, frames', rest[n..])
                     && |Content(frames')| == |Content(frames)| + n
      ensures !ok ==> && Valid() && framesSent == first + |frames| && DataRun(policy, first, frames')
                      && FullUpTo(frames', |frames|) && Content(frames') <= b
                      && var f := frames'[|frames|];
                         n == Max(0, Min(|f.payload|, start.room - |Wire(frames)| - HEADER - |f.pad|))
    {
      var chunk := rest[..Min(|rest|, MAX_CHUNK)];
      var f := NextFrame(chunk);
      WriteGrows(start, frames, f, b, rest);
      RunGrows(policy, first, frames, f, rest);
      frames' := frames + [f];
      n, ok := SendFrame(f);
      if ok {
        framesSent := framesSent + 1;
      }
    }

    /** Draw the padding of the next data frame and choose its type. */
    method NextFrame(chunk: bytes) returns (f: Frame)
      requires 0 < |chunk| <= MAX_CHUNK
      ensures f.payload == chunk && DataFrameOk(policy, framesSent, f)
    {
      var padLen: uint16, kind: byte;
      if framesSent < policy.initialFrames {
        padLen := RandInt(policy.initialMax);
        kind := DATA_WITH_PAD;
      } else {
        padLen := RandInt(policy.maxPadding);
        kind := if padLen > 0 then DATA_WITH_PAD else DATA_NO_PAD;
      }
      var pad := RandBytes(padLen);
      f := FrameRecord(kind, chunk, pad);
    }

    /** maybeKeepAlive: nothing, or one padding-only frame, and never before the first
        data frame.  Errors of the raw stream are ignored, as the source does. */
    method MaybeKeepAlive() returns (ghost sent: seq<Frame>)
      requires Valid()
      modifies `sink
      ensures Valid()
      ensures |sent| <= 1 && forall i :: 0 <= i < |sent| ==> KeepAliveOk(policy, framesSent, sent[i])
      ensures policy.keepAliveChance <= 0 ==> sent == []
      ensures policy.keepAliveChance >= 100 && framesSent > 0 ==> |sent| == 1
      ensures sink == Put(old(sink), Wire(sent))
    {
      sent := [];
      PutNothing(sink);
      var roll := ShouldKeepAlive(policy.keepAliveChance);
      if roll {
        if framesSent == 0 {
          return;
        }
        var padLen := RandInt(policy.maxPadding);
        var pad := RandBytes(padLen);
        var f: Frame := FrameRecord(PADDING_ONLY, [], pad);
        OneKeepAlive(f);
        PutInParts(sink, Header(f), pad);
        var n, ok := RawWrite(Header(f));
        PutNothing(sink);
        if padLen > 0 {
          n, ok := RawWrite(pad);
        }
        sent := [f];
      }
    }

    /** Since the raw stream was `start`, exactly the keep-alives in `sent` have gone out. */
    ghost predicate Emitted(start: Sink, sent: seq<Frame>)
      reads this
    {
      && sink == Put(start, Wire(sent))
      && (forall i :: 0 <= i < |sent| ==> KeepAliveOk(policy, framesSent, sent[i]))
      && (policy.keepAliveChance <= 0 ==> sent == [])
    }

    /** Read's hook: maybeKeepAlive, when the reader is idle, after those in `sent`. */
    method RollWhenIdle(ghost start: Sink, ghost sent: seq<Frame>) returns (ghost sent': seq<Frame>)
      requires Valid() && Emitted(start, sent)
      modifies `sink
      ensures Valid() && Emitted(start, sent') && |sent| <= |sent'|
      ensures policy.keepAliveChance >= 100 && framesSent > 0 && Idle() ==> sent' != []
    {
      sent' := sent;
      if readStage == 0 && |readBuf| == 0 && readPayloadLen == 0 && readPadLen == 0 {
        ghost var more := MaybeKeepAlive();
        AppendSent(sent, more);
        PutInParts(start, Wire(sent), Wire(more));
        sent' := sent + more;
      }
    }

    /** A raw full read: `n` bytes, or an error that uses up what is left. */
    method ReadFull(n: nat) returns (data: bytes, ok: bool)
      modifies `incoming
      ensures ok == (n <= |old(incoming)|)
      ensures ok ==> data == old(incoming)[..n] && incoming == old(incoming)[n..]
      ensures !ok ==> incoming == []
    {
      if n <= |incoming| {
        data, ok := incoming[..n], true;
        incoming := incoming[n..];
      } else {
        data, ok := incoming, false;
        incoming := [];
      }
    }

    /** One iteration of Read's loop after the buffer was found empty. */
    method Advance() returns (ok: bool)
      requires Valid() && readBuf == []
      modifies `readBuf, `readStage, `readPayloadLen, `readPadLen, `incoming
      ensures ok == (|old(incoming)| >= old(State().Need()))
      ensures ok ==> State() == old(State()).Pull(old(incoming)) && incoming == old(incoming)[old(State().Need())..]
      ensures !ok ==> State() == old(State()) && incoming == []
      ensures Valid() && Owed() == old(Owed()) && (!ok ==> Owed() == [])
      ensures ok ==> |incoming| < |old(incoming)|
      ensures ok && old(State().Aligned(incoming)) ==> State().Aligned(incoming)
    {
      if |incoming| >= State().Need() {
        PullConserves(State(), incoming);
      } else {
        StarvedOwesNothing(State(), incoming);
        StarvedOwesNothing(State(), []);
      }
      var data;
      if readStage == 0 {
        data, ok := ReadFull(HEADER);
        if !ok {
          return;
        }
        readPayloadLen := Uint16(data[1..3]);
        readPadLen := Uint16(data[3..5]);
        assert old(incoming)[1..3] == data[1..3] && old(incoming)[3..5] == data[3..5];
        if readPadLen > 0 {
          readStage := 1;
        } else if readPayloadLen > 0 {
          readStage := 2;
        }
      } else if readStage == 1 {
        data, ok := ReadFull(readPadLen);
        if !ok {
          return;
        }
        readStage := if readPayloadLen > 0 then 2 else 0;
      } else {
        data, ok := ReadFull(readPayloadLen);
        if !ok {
          return;
        }
        readBuf := data;
        readStage := 0;
      }
    }

    /** The front of a non-empty buffer is copied out. */
    method TakeBuffered(room: nat) returns (data: bytes)
      requires Valid() && readBuf != []
      modifies `readBuf
      ensures Valid() && data == old(readBuf)[..Min(room, |old(readBuf)|)]
      ensures old(Owed()) == data + Owed()
      ensures old(State().Aligned(incoming)) ==> State().Aligned(incoming)
    {
      var n := Min(room, |readBuf|);
      SplitBuffer(State(), incoming, n);
      data := readBuf[..n];
      readBuf := readBuf[n..];
    }

    /** Read, with room for `room` bytes, on any incoming bytes: what it returns is the
        front of what was owed and the rest stays owed; it fails only when nothing is
        owed; and with a non-empty buffer it returns at least one byte or fails.  On the
        way it may emit keep-alives, never before the first data frame; it does, if the
        policy makes them certain and the reader is idle. */
    method Read(room: nat) returns (data: bytes, ok: bool, ghost sent: seq<Frame>)
      requires Valid()
      modifies `readBuf, `readStage, `readPayloadLen, `readPadLen, `incoming, `sink
      ensures Valid()
      ensures |data| <= room
      ensures ok ==> old(Owed()) == data + Owed() && (room > 0 ==> data != [])
      ensures ok && old(State().Aligned(incoming)) ==> State().Aligned(incoming)
      ensures !ok ==> data == [] && old(Owed()) == [] && Owed() == [] && incoming == []
      ensures Emitted(old(sink), sent)
      ensures policy.keepAliveChance >= 100 && framesSent > 0 && old(Idle()) ==> sent != []
    {
      sent := [];
      PutNothing(sink);
      ghost var certain := policy.keepAliveChance >= 100 && framesSent > 0 && Idle();
      while true
        invariant Valid() && Owed() == old(Owed())
        invariant certain ==> sent != [] || Idle()
        invariant old(State().Aligned(incoming)) ==> State().Aligned(incoming)
        invariant Emitted(old(sink), sent)
        decreases |incoming|
      {
        sent := RollWhenIdle(old(sink), sent);
        if |readBuf| > 0 {
          data := TakeBuffered(room);
          return data, true, sent;
        }
        ok := Advance();
        if !ok {
          return [], false, sent;
        }
      }
    }
  }

  /** The first n frames carry as much as a frame can. */
  ghost predicate FullUpTo(frames: seq<Frame>, n: int) {
    forall i :: 0 <= i < n && i < |frames| ==> |frames[i].payload| == 65535
  }

  /** One more frame: the wire and the content grow by it. */
  lemma WriteGrows(s: Sink, frames: seq<Frame>, f: Frame, b: bytes, rest: bytes)
    requires b == Content(frames) + rest && |f.payload| <= |rest| && f.payload == rest[..|f.payload|]
    ensures var frames' := frames + [f];
            && |Wire(frames')| == |Wire(frames)| + |FrameBytes(f)|
            && Put(Put(s, Wire(frames)), FrameBytes(f)) == Put(s, Wire(frames'))
            && b == Content(frames') + rest[|f.payload|..]
            && |Content(frames')| == |Content(frames)| + |f.payload|
            && frames'[..|frames|] == frames
  {
    Append(frames, f);
    PutInParts(s, Wire(frames), FrameBytes(f));
    assert rest == f.payload + rest[|f.payload|..];
    Associate(Content(frames), f.payload, rest[|f.payload|..]);
  }

  lemma RunGrows(policy: Policy, sent: nat, frames: seq<Frame>, f: Frame, rest: bytes)
    requires DataRun(policy, sent, frames) && DataFrameOk(policy, sent + |frames|, f)
    requires FullUpTo(frames, |frames|) && |f.payload| == Min(|rest|, 65535)
    ensures DataRun(policy, sent, frames + [f])
    ensures FullUpTo(frames + [f], |frames|) && (rest[|f.payload|..] != [] ==> FullUpTo(frames + [f], |frames| + 1))
  {
  }

  lemma WireOfOne(f: Frame)
    ensures Wire([f]) == FrameBytes(f)
  {
  }

  lemma OneKeepAlive(f: Frame)
    requires f.payload == []
    ensures Wire([f]) == Header(f) + f.pad
  {
  }

  lemma AppendSent(a: seq<Frame>, b: seq<Frame>)
    requires |b| <= 1
    ensures Wire(a + b) == Wire(a) + Wire(b)
  {
    if b == [] {
      assert a + b == a && Wire(a) + [] == Wire(a);
    } else {
      var f := b[0];
      assert b == [f];
      WireOfOne(f);
      Append(a, f);
    }
  }

  lemma SplitBuffer(r: Reader, wire: bytes, n: nat)
    requires r.Valid() && r.buf != [] && n <= |r.buf|
    ensures var r' := r.(buf := r.buf[n..]);
            && r'.Valid() && r.Owed(wire) == r.buf[..n] + r'.Owed(wire)
            && (r.Aligned(wire) ==> r'.Aligned(wire))
  {
  }
}
