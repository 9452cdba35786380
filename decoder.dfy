/** The adapter's shared state as a value, and the two atomic steps that act on
    it: `Step`, one run of the SPI interrupt handler for one incoming byte, and
    `LoopStep`, one pass of the main loop taking one frame off the queue. The
    imperative adapter in module Panel is proved to perform exactly these. */
module Decoder {
  import opened Wire
  import opened Commands
  import RingBuffers

  /** The most frames the queue holds: one slot stays empty. */
  const MaxLive: int := RingBuffers.Length - 1

  /** `capacity() - 10`: a push that leaves this many frames queued raises busy. */
  const BusyLevel: int := RingBuffers.Length - 10

  /** `pos`: bytes of the current frame received (0: the next byte is a header);
      `toread`: payload bytes still expected; `buf`: the frame being assembled;
      `queue`: the live frames of the ring buffer, oldest first; `busy`: the
      busy line; `buttons`: the last button mask read; `encoder`: the encoder
      count since it was last reset. */
  datatype Snapshot = Snapshot(
    pos: int, toread: int, buf: Frame, queue: seq<Frame>,
    busy: bool, buttons: Byte, encoder: int)

  /** The state between two bytes: either waiting for a header, or inside a
      frame of opcode 2..6 with `pos - 1` payload bytes stored and `toread`
      still to come, out of the `buf.len` the header announced. */
  predicate Inv(s: Snapshot)
  {
    |s.queue| <= MaxLive &&
    (s.pos == 0 ||
     (1 <= s.pos && 0 < s.toread && s.pos + s.toread == s.buf.len + 1 &&
      s.buf.len < 32 && OpSetCursor <= s.buf.cmd <= OpBeep))
  }

  /** A header of opcode 7 with a non-zero length, other than INIT and POLL
      (0xE1..0xFD), leads the handler to write `buf.data[-1]`; such bytes
      are outside the model. */
  predicate Defined(s: Snapshot, b: Byte)
  {
    s.pos != 0 || High(b) != OpOther || b == CmdInit || b == CmdPoll || Low(b) == 0
  }

  /** The end of a frame: queue it unless the queue is full, raise busy when
      the push leaves `BusyLevel` or more frames queued, and expect a header. */
  function Complete(s: Snapshot): (r: Snapshot)
    requires |s.queue| <= MaxLive
    ensures r.pos == 0 && |r.queue| <= MaxLive
    ensures |s.queue| < MaxLive ==> r.queue == s.queue + [s.buf]
    ensures |s.queue| == MaxLive ==> r.queue == s.queue
    ensures r.busy <==> s.busy || (|s.queue| < MaxLive && |s.queue| + 1 >= BusyLevel)
    ensures r.toread == s.toread && r.buf == s.buf
    ensures r.buttons == s.buttons && r.encoder == s.encoder
  {
    if |s.queue| < MaxLive then
      var q := s.queue + [s.buf];
      s.(queue := q, busy := if |q| >= BusyLevel then true else s.busy, pos := 0)
    else
      s.(pos := 0)
  }

  /** The interrupt handler for byte `b`: the new state and the byte, if
      any, placed in the data register as the reply to the next exchange. */
  function Step(s: Snapshot, b: Byte): (r: (Snapshot, Option<Byte>))
    requires Inv(s) && Defined(s, b)
    ensures Inv(r.0)
    ensures r.1.Some? ==> s.pos == 0 && High(b) == OpGetStatus
    ensures r.0.buttons == s.buttons
    ensures r.0.encoder == s.encoder || r.0.encoder == 0
  {
    if s.pos == 0 then
      var n := Low(b);
      var op := High(b);
      if op == OpRead then
        (s.(toread := n), None)
      else if op == OpGetStatus then
        var s1 := s.(toread := n);
        if n == ReadButtons then (s1, Some(s.buttons))
        else if n == ReadEncoder then (s1.(encoder := 0), Some(LowByte(s.encoder)))
        else if n == ReadQueue then (s1, Some(LowByte(|s.queue|)))
        else (s1, None)
      else if op == OpOther then
        if b == CmdInit then
          (Complete(s.(buf := s.buf.(cmd := CmdInit, len := 0), toread := 0, queue := [])), None)
        else if b == CmdPoll then
          (s.(toread := n, busy := if s.queue == [] then false else s.busy), None)
        else
          // 0xE0: no frame was started, yet the stale `buf` is queued
          (Complete(s.(toread := 0)), None)
      else
        var s1 := s.(buf := s.buf.(cmd := op, len := n), toread := n, pos := 1);
        if n > 0 then (s1, None) else (Complete(s1), None)
    else
      var data := if s.pos < PayloadSize then s.buf.data[s.pos - 1 := b] else s.buf.data;
      var s1 := s.(buf := s.buf.(data := data), pos := s.pos + 1, toread := s.toread - 1);
      if s1.toread == 0 then (Complete(s1), None) else (s1, None)
  }

  /** The effect of `clear()` on the state. */
  function Cleared(s: Snapshot): (r: Snapshot)
    ensures Inv(r)
    ensures r.pos == 0 && r.queue == [] && !r.busy && r.buttons == 0 && r.encoder == 0
    ensures r.toread == s.toread && r.buf == s.buf
  {
    s.(pos := 0, buttons := 0, encoder := 0, queue := [], busy := false)
  }

  /** The frame part of the main loop: when a frame is queued, take the oldest
      one off and carry it out; INIT also resets the state. */
  function LoopStep(s: Snapshot): (r: (Snapshot, seq<Action>))
    requires Inv(s)
    ensures Inv(r.0)
    ensures s.queue == [] ==> r == (s, [])
    ensures s.queue != [] && s.queue[0].cmd != CmdInit ==>
      r.0 == s.(queue := s.queue[1..]) && r.1 == Dispatch(s.queue[0])
    ensures s.queue != [] && s.queue[0].cmd == CmdInit ==>
      r.0 == Cleared(s) && r.1 == ResetActions
  {
    if s.queue == [] then (s, [])
    else
      var f := s.queue[0];
      var s1 := s.(queue := s.queue[1..]);
      (if f.cmd == CmdInit then Cleared(s1) else s1, Dispatch(f))
  }

  /** Every byte of `bs`, handled in order, is one the model defines. */
  predicate RunDefined(s: Snapshot, bs: seq<Byte>)
    decreases |bs|
  {
    Inv(s) && (bs == [] || (Defined(s, bs[0]) && RunDefined(Step(s, bs[0]).0, bs[1..])))
  }

  /** The state after the handler has run once for each byte of `bs`. */
  function Run(s: Snapshot, bs: seq<Byte>): (r: Snapshot)
    requires RunDefined(s, bs)
    ensures Inv(r)
    decreases |bs|
  {
    if bs == [] then s else Run(Step(s, bs[0]).0, bs[1..])
  }

  /** The buffer of frame `s.buf` once the payload bytes `p` are stored from
      `pos - 1` on. */
  function Filled(s: Snapshot, p: seq<Byte>): (r: Snapshot)
    requires 1 <= s.pos && s.pos - 1 + |p| <= PayloadSize
  {
    s.(buf := s.buf.(data := s.buf.data[..s.pos - 1] + p + s.buf.data[s.pos - 1 + |p|..]), toread := 0)
  }

  /** One payload byte inside a frame: it is stored at `pos - 1`, always
      inside the payload array, and the frame completes when it was the last. */
  lemma StepInFrame(s: Snapshot, b: Byte)
    requires Inv(s) && s.pos >= 1
    ensures Defined(s, b) && s.pos - 1 < PayloadSize
    ensures
      var s1 := s.(buf := s.buf.(data := s.buf.data[s.pos - 1 := b]), pos := s.pos + 1, toread := s.toread - 1);
      Step(s, b).0 == if s1.toread == 0 then Complete(s1) else s1
  {
  }

  /** Storing the first byte of `p` and then the rest, one slot further on,
      fills the payload as storing all of `p` at once does. */
  lemma FilledByFirst(s: Snapshot, p: seq<Byte>)
    requires 1 <= s.pos && s.pos - 1 + |p| <= PayloadSize && p != []
    ensures
      var s1 := s.(buf := s.buf.(data := s.buf.data[s.pos - 1 := p[0]]), pos := s.pos + 1, toread := s.toread - 1);
      Filled(s1, p[1..]) == Filled(s, p).(pos := s.pos + 1)
  {
    var s1 := s.(buf := s.buf.(data := s.buf.data[s.pos - 1 := p[0]]), pos := s.pos + 1, toread := s.toread - 1);
    assert Filled(s1, p[1..]).buf.data == Filled(s, p).buf.data;
  }

  /** Inside a frame, the remaining `toread` payload bytes are stored in
      order, every one of them inside the payload array, and then the frame
      is completed. */
  lemma {:induction false} Accumulate(s: Snapshot, p: seq<Byte>)
    requires Inv(s) && s.pos >= 1 && |p| == s.toread
    ensures s.pos - 1 + |p| < PayloadSize
    ensures RunDefined(s, p)
    ensures Run(s, p) == Complete(Filled(s, p))
    decreases |p|
  {
    StepInFrame(s, p[0]);
    FilledByFirst(s, p);
    var s1 := s.(buf := s.buf.(data := s.buf.data[s.pos - 1 := p[0]]), pos := s.pos + 1, toread := s.toread - 1);
    if |p| == 1 {
      assert Complete(s1) == Complete(Filled(s, p)) by {
        assert s1.(pos := s.pos) == Filled(s, p);
      }
      assert RunDefined(Complete(s1), p[1..]);
    } else {
      Accumulate(s1, p[1..]);
    }
  }

  /** A header of opcode 2..6 and length n, followed by n payload bytes,
      assembles the frame with that opcode, that length and those bytes first
      in its payload, and completes it. */
  lemma FrameAssembled(s: Snapshot, b: Byte, p: seq<Byte>)
    requires Inv(s) && s.pos == 0
    requires OpSetCursor <= High(b) <= OpBeep && |p| == Low(b)
    ensures |p| < PayloadSize
    ensures RunDefined(s, [b] + p)
    ensures Run(s, [b] + p) ==
      Complete(s.(buf := Frame(High(b), Low(b), p + s.buf.data[|p|..]), toread := 0, pos := 1))
  {
    var op, n := High(b), Low(b);
    var s1 := s.(buf := s.buf.(cmd := op, len := n), toread := n, pos := 1);
    var f := Frame(op, n, p + s.buf.data[|p|..]);
    StepHeader(s, b);
    var t1 := Step(s, b).0;
    assert RunDefined(t1, p) && Run(t1, p) == Complete(s1.(buf := f, toread := 0)) by {
      if |p| == 0 {
        assert p + s.buf.data[|p|..] == s.buf.data;
      } else {
        Accumulate(s1, p);
        var d := s.buf.data;
        assert s1.buf.data == d && s1.pos - 1 == 0;
        assert d[..0] + p + d[|p|..] == p + d[|p|..];
      }
    }
    var bs := [b] + p;
    assert bs[0] == b && bs[1..] == p;
    assert RunDefined(s, bs);
    assert Run(s, bs) == Run(t1, p);
    assert s1.(buf := f, toread := 0) == s.(buf := f, toread := 0, pos := 1);
  }

  /** The frame is queued unless the queue is full, when it is dropped; busy
      is raised exactly when the push reaches `BusyLevel`, and never lowered;
      the decoder is left waiting for the next header. */
  lemma FrameDecoded(s: Snapshot, b: Byte, p: seq<Byte>)
    requires Inv(s) && s.pos == 0
    requires OpSetCursor <= High(b) <= OpBeep && |p| == Low(b)
    ensures |p| < PayloadSize
    ensures RunDefined(s, [b] + p)
    ensures
      var t := Run(s, [b] + p);
      var f := Frame(High(b), Low(b), p + s.buf.data[|p|..]);
      && t.pos == 0
      && t.queue == (if |s.queue| < MaxLive then s.queue + [f] else s.queue)
      && (t.busy <==> s.busy || (|s.queue| < MaxLive && |s.queue| + 1 >= BusyLevel))
      && t.buttons == s.buttons && t.encoder == s.encoder
  {
    FrameAssembled(s, b, p);
  }

  /** A header of opcode 2..6 starts a frame of that opcode and length; one
      of length 0 is complete at once. */
  lemma StepHeader(s: Snapshot, b: Byte)
    requires Inv(s) && s.pos == 0 && OpSetCursor <= High(b) <= OpBeep
    ensures Defined(s, b)
    ensures
      var s1 := s.(buf := s.buf.(cmd := High(b), len := Low(b)), toread := Low(b), pos := 1);
      Step(s, b).0 == if Low(b) > 0 then s1 else Complete(s1)
  {
  }

  /** READ and GET_STATUS queue nothing and leave the frame decoder and busy
      line alone; GET_STATUS answers buttons, encoder count (then reset) or
      queue depth for sub-codes 0, 1 and 2, and nothing otherwise. */
  lemma StatusQuery(s: Snapshot, b: Byte)
    requires Inv(s) && s.pos == 0 && High(b) <= OpGetStatus
    ensures
      var (t, reply) := Step(s, b);
      && t.pos == 0 && t.queue == s.queue && t.busy == s.busy && t.buf == s.buf
      && (High(b) == OpRead ==> reply == None && t.encoder == s.encoder)
      && (High(b) == OpGetStatus ==>
            && (Low(b) == ReadButtons ==> reply == Some(s.buttons) && t.encoder == s.encoder)
            && (Low(b) == ReadEncoder ==> reply == Some(LowByte(s.encoder)) && t.encoder == 0)
            && (Low(b) == ReadQueue ==> reply == Some(|s.queue|) && t.encoder == s.encoder)
            && (Low(b) > ReadQueue ==> reply == None))
  {
  }

  /** POLL never touches the queue or the decoder; it lowers busy when the
      queue is empty and leaves busy as it was otherwise. */
  lemma Poll(s: Snapshot)
    requires Inv(s) && s.pos == 0
    ensures
      var (t, reply) := Step(s, CmdPoll);
      && t.pos == 0 && t.queue == s.queue && reply == None
      && (t.busy <==> s.busy && s.queue != [])
  {
  }

  /** INIT empties the queue and queues one empty INIT frame at once; when the
      main loop takes it, the state is reset and the display cleared. */
  lemma InitResets(s: Snapshot)
    requires Inv(s) && s.pos == 0
    ensures
      var t := Step(s, CmdInit).0;
      && t.pos == 0 && t.queue == [Frame(CmdInit, 0, s.buf.data)] && t.busy == s.busy
      && LoopStep(t) == (Cleared(t), ResetActions)
  {
  }

  /** The header 0xE0 (opcode 7, length 0) starts no frame, yet the handler
      falls through to the end-of-frame code and queues `buf` as it stands:
      the last frame received is queued again, and the main loop repeats it. */
  lemma StaleFrameRequeued(s: Snapshot)
    requires Inv(s) && s.pos == 0 && |s.queue| < MaxLive
    ensures Defined(s, 0xE0)
    ensures Step(s, 0xE0).0.queue == s.queue + [s.buf]
    ensures Step(s, 0xE0).0.buf == s.buf && Step(s, 0xE0).1 == None
  {
    assert High(0xE0) == OpOther && Low(0xE0) == 0;
  }

  /** Only POLL on an empty queue lowers busy in the interrupt handler. */
  lemma BusyLoweredOnlyByPoll(s: Snapshot, b: Byte)
    requires Inv(s) && Defined(s, b)
    requires s.busy && !Step(s, b).0.busy
    ensures s.pos == 0 && b == CmdPoll && s.queue == []
  {
  }

  /** A queued LCD_WRITE frame of length 3 holding 'A' 'B' 'C', when the
      main loop takes it, writes A, B, C and nothing else. */
  lemma AbcDispatched(t: Snapshot, f: Frame)
    requires Inv(t) && t.queue == [f] && f.cmd == OpLcdWrite && f.len == 3
    requires f.data[..3] == [0x41, 0x42, 0x43]
    ensures LoopStep(t).1 == [Write(0x41), Write(0x42), Write(0x43)]
  {
    var acts := LoopStep(t).1;
    assert acts == Dispatch(f);
    assert acts[0] == Write(0x41) && acts[1] == Write(0x42) && acts[2] == Write(0x43);
  }

  /** Bytes `0x63 'A' 'B' 'C'` (LCD_WRITE of three bytes) on an idle adapter
      queue one frame, and carrying it out writes A, B, C. */
  lemma WriteAbc(s: Snapshot)
    requires Inv(s) && s.pos == 0 && s.queue == []
    ensures RunDefined(s, [0x63, 0x41, 0x42, 0x43])
    ensures
      var t := Run(s, [0x63, 0x41, 0x42, 0x43]);
      && |t.queue| == 1 && t.queue[0].cmd == OpLcdWrite && t.queue[0].len == 3
      && t.queue[0].data[..3] == [0x41, 0x42, 0x43]
      && LoopStep(t).1 == [Write(0x41), Write(0x42), Write(0x43)]
  {
    var p: seq<Byte> := [0x41, 0x42, 0x43];
    var bs: seq<Byte> := [0x63, 0x41, 0x42, 0x43];
    assert High(0x63) == OpLcdWrite && Low(0x63) == 3 && bs == [0x63] + p;
    FrameDecoded(s, 0x63, p);
    assert |p + s.buf.data[3..]| == PayloadSize;
    var f := Frame(OpLcdWrite, 3, p + s.buf.data[3..]);
    assert f.data[..3] == p;
    AbcDispatched(Run(s, bs), f);
  }
}
