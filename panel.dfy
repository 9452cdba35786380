/** The adapter's global state and the routines that update it in place: the
    SPI interrupt handler, `clear()`, `handle_command` and the frame part of
    `loop()`. Each is proved to do exactly what the value model in module
    Decoder says, so the lemmas proved there hold of this code. */
module Panel {
  import opened Wire
  import opened Commands
  import opened Decoder
  import opened RingBuffers

  class Adapter {
    var pos: int
    var toread: int
    // `buf`, the frame under assembly: opcode, length and payload array.
    var bufCmd: Byte
    var bufLen: Byte
    const bufData: array<Byte>
    // The ring buffer of finished frames.
    const queue: RingBuffer<Frame>
    // The busy line (high = busy), the last button mask, the encoder count.
    var busy: bool
    var buttons: Byte
    var encoder: int

    ghost predicate Shaped()
      reads this, queue
    {
      bufData.Length == PayloadSize && queue.Valid() && bufData as object != queue.buffer
    }

    /** The globals as a value of the model. */
    ghost function View(): Snapshot
      reads this, queue, queue.buffer, bufData
      requires Shaped()
    {
      Snapshot(pos, toread, Frame(bufCmd, bufLen, bufData[..]), queue.Contents(), busy, buttons, encoder)
    }

    ghost predicate Valid()
      reads this, queue, queue.buffer, bufData
    {
      Shaped() && Inv(View())
    }

    /** Start-up: globals zeroed, busy low, queue empty. */
    constructor ()
      ensures Valid() && fresh(bufData) && fresh(queue) && fresh(queue.buffer)
      ensures View() == Snapshot(0, 0, Frame(0, 0, seq(PayloadSize, _ => 0)), [], false, 0, 0)
    {
      pos, toread := 0, 0;
      bufCmd, bufLen := 0, 0;
      bufData := new Byte[PayloadSize](_ => 0);
      queue := new RingBuffer<Frame>();
      busy, buttons, encoder := false, 0, 0;
    }

    /** The SPI interrupt handler for received byte `b`; `reply` is what it
        places in the data register for the master's next exchange. */
    method Isr(b: Byte) returns (reply: Option<Byte>)
      requires Valid() && Defined(View(), b)
      modifies this, queue, queue.buffer, bufData
      ensures Shaped()
      ensures (View(), reply) == Step(old(View()), b)
      ensures Valid()
    {
      ghost var s := View();
      reply := None;
      if pos == 0 {
        var framed;
        reply, framed := Header(b);
        if !framed {
          return;
        }
      }

      if toread > 0 {
        StepInFrame(s, b);
        StorePayloadByte(b);
      }

      if toread == 0 {
        FinishFrame();
      }
    }

    /** The handler's switch on a header byte. `framed` says that the handler
        goes on to queue `buf` at once: after INIT, after a header of opcode
        2..6 with length 0, and after 0xE0; otherwise it returns right after
        this with the state `Step` gives. */
    method Header(b: Byte) returns (reply: Option<Byte>, framed: bool)
      requires Valid() && pos == 0 && Defined(View(), b)
      modifies this, queue
      ensures Shaped()
      ensures !framed ==> (View(), reply) == Step(old(View()), b)
      ensures framed ==>
        reply == None && toread == 0 && |View().queue| <= MaxLive &&
        Step(old(View()), b) == (Complete(View()), None)
    {
      ghost var s := View();
      reply := None;
      framed := false;
      toread := Low(b);
      var op := High(b);
      if op == OpRead {
      } else if op == OpGetStatus {
        if toread == ReadButtons {
          reply := Some(buttons);
        } else if toread == ReadEncoder {
          reply := Some(LowByte(encoder));
          encoder := 0;
        } else if toread == ReadQueue {
          var n := queue.Size();
          reply := Some(LowByte(n));
        }
      } else if op == OpOther {
        if b == CmdInit {
          bufCmd, bufLen := CmdInit, 0;
          toread := 0;
          queue.Clear();
          framed := true;
          assert View() == s.(buf := s.buf.(cmd := CmdInit, len := 0), toread := 0, queue := []);
        } else if b == CmdPoll {
          if queue.IsEmpty() {
            busy := false;
          }
        } else {
          framed := true;
        }
      } else {
        bufCmd, bufLen := op, toread;
        pos := 1;
        framed := toread == 0;
      }
    }

    /** A payload byte: store it at `pos - 1` while that is inside the
        payload array, count it, and expect one byte fewer. */
    method StorePayloadByte(b: Byte)
      requires Shaped() && pos >= 1
      modifies this, bufData
      ensures Shaped()
      ensures View() == old(View()).(
        buf := old(View()).buf.(data := if old(pos) < PayloadSize then old(bufData[..])[old(pos) - 1 := b] else old(bufData[..])),
        pos := old(pos) + 1, toread := old(toread) - 1)
    {
      if pos < PayloadSize {
        bufData[pos - 1] := b;
      }
      pos := pos + 1;
      toread := toread - 1;
      assert queue.Contents() == old(queue.Contents());
    }

    /** The end of a frame: push `buf` unless the queue is full, raise busy
        when the queue reaches `capacity() - 10`, expect a header next. */
    method FinishFrame()
      requires Shaped()
      modifies this, queue, queue.buffer
      ensures Shaped()
      ensures View() == Complete(old(View()))
    {
      if !queue.IsFull() {
        queue.PushBack(Frame(bufCmd, bufLen, bufData[..]));
        if queue.Size() >= queue.Capacity() - 10 {
          busy := true;
        }
      }
      pos := 0;
    }

    /** `clear()`: reset the decoder, button mask, encoder, queue and busy
        line; `acts` are the display calls it makes. */
    method Clear() returns (acts: seq<Action>)
      requires Valid()
      modifies this, queue
      ensures Valid()
      ensures View() == Cleared(old(View()))
      ensures acts == ResetActions
    {
      pos := 0;
      buttons := 0;
      encoder := 0;
      acts := [ClearLcd, SetBacklight(0)];
      queue.Clear();
      busy := false;
    }

    /** `handle_command`: carry out frame `c`; INIT runs `clear()`. */
    method HandleCommand(c: Frame) returns (acts: seq<Action>)
      requires Valid()
      modifies this, queue
      ensures Valid()
      ensures acts == Dispatch(c)
      ensures View() == if c.cmd == CmdInit then Cleared(old(View())) else old(View())
    {
      var n := c.len;
      acts := [];
      if c.cmd == OpLcdWrite {
        if n > 0 && n <= PayloadSize {
          acts := WriteChars(c.data, n);
        }
      } else if c.cmd == OpSetCursor {
        if n == 1 {
          var x := Low(c.data[0]);
          var y := High(c.data[0]);
          acts := [SetCursor(x, y)];
        }
      } else if c.cmd == OpLcdClear {
        acts := [ClearLcd];
      } else if c.cmd == OpSetLeds {
        if n == 1 {
          acts := [SetBacklight(c.data[0])];
        }
      } else if c.cmd == OpBeep {
        if n == 3 {
          acts := [Buzz(c.data[0], Frequency(c.data[1], c.data[2]))];
        } else {
          acts := [Buzz(DefaultDuration, DefaultFrequency)];
        }
      } else if c.cmd == CmdInit {
        acts := Clear();
      }
    }

    /** The frame part of `loop()`: when the queue is not empty, take the
        oldest frame off and carry it out. */
    method Loop() returns (acts: seq<Action>)
      requires Valid()
      modifies this, queue
      ensures Valid()
      ensures (View(), acts) == LoopStep(old(View()))
    {
      acts := [];
      if !queue.IsEmpty() {
        var cmd := queue.PopFront();
        acts := HandleCommand(cmd);
      }
    }

    /** The periodic button refresh of `loop()`: store the mask the button
        reader returned. */
    method RefreshButtons(mask: Byte)
      requires Valid()
      modifies this
      ensures Valid()
      ensures View() == old(View()).(buttons := mask)
    {
      buttons := mask;
    }
  }
}
