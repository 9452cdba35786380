/** Command frames and what the main loop does with one (`handle_command`):
    the frame is turned into the sequence of display and buzzer calls it
    causes, in the order they are made. */
module Commands {
  import opened Wire

  // Opcodes: the three high bits of a header byte.
  const OpRead: Byte := 0
  const OpGetStatus: Byte := 1
  const OpSetCursor: Byte := 2
  const OpLcdWrite: Byte := 3
  const OpLcdClear: Byte := 4
  const OpSetLeds: Byte := 5
  const OpBeep: Byte := 6
  const OpOther: Byte := 7

  // Whole-byte commands of the OTHER group.
  const CmdInit: Byte := 0xFE
  const CmdPoll: Byte := 0xFF

  // Sub-codes of GET_STATUS.
  const ReadButtons: Byte := 0
  const ReadEncoder: Byte := 1
  const ReadQueue: Byte := 2

  /** Size of the payload array of a frame. */
  const PayloadSize: int := 32

  type Payload = s: seq<Byte> | |s| == PayloadSize witness seq(32, _ => 0)

  /** A frame as queued: opcode (or the whole INIT byte), declared length and
      the payload array, whose slots past `len` hold whatever an earlier frame
      left there. */
  datatype Frame = Frame(cmd: Byte, len: Byte, data: Payload)

  /** A call into the display or buzzer driver. */
  datatype Action =
    | Write(c: Byte)
    | SetCursor(col: Byte, row: Byte)
    | ClearLcd
    | SetBacklight(mask: Byte)
    | Buzz(duration: int, frequency: int)

  /** Default tone when BEEP does not carry exactly three bytes. */
  const DefaultDuration: int := 100
  const DefaultFrequency: int := 1000

  /** One `Write` per character, in order. */
  function Writes(s: seq<Byte>): (r: seq<Action>)
    ensures |r| == |s|
    ensures forall i :: 0 <= i < |s| ==> r[i] == Write(s[i])
  {
    if s == [] then [] else [Write(s[0])] + Writes(s[1..])
  }

  /** The `lcd.write` loop of LCD_WRITE: writes the first `n` payload bytes. */
  method WriteChars(data: Payload, n: int) returns (acts: seq<Action>)
    requires 0 <= n <= PayloadSize
    ensures |acts| == n
    ensures forall i :: 0 <= i < n ==> acts[i] == Write(data[i])
  {
    acts := [];
    var i := 0;
    while i < n
      invariant 0 <= i <= n
      invariant |acts| == i
      invariant forall k :: 0 <= k < i ==> acts[k] == Write(data[k])
    {
      acts := acts + [Write(data[i])];
      i := i + 1;
    }
  }

  /** `(hi << 8) | (lo & 0xFF)`: the big-endian 16-bit tone frequency. */
  function Frequency(hi: Byte, lo: Byte): int
  {
    hi * 256 + lo
  }

  /** The frequency is the 16-bit pattern with `hi` as its high byte and `lo`
      as its low byte, computed as the handler does with shift, mask and or. */
  lemma FrequencyBits(hi: bv8, lo: bv8)
    ensures (((hi as bv16) << 8) | ((lo as bv16) & 0xFF)) as int == Frequency(hi as int, lo as int)
    ensures 0 <= Frequency(hi as int, lo as int) < 65536
  {
  }

  /** The driver calls made by `clear()`: blank the display, backlight off. */
  const ResetActions: seq<Action> := [ClearLcd, SetBacklight(0)]

  /** The driver calls `handle_command` makes for frame `f`. For INIT these are
      the calls inside `clear()`; the state that `clear()` resets is handled by
      the main-loop step. Any other opcode, or a length outside what an
      opcode accepts, makes no call. */
  function Dispatch(f: Frame): (acts: seq<Action>)
    ensures f.cmd == OpLcdWrite && 0 < f.len <= PayloadSize ==>
      |acts| == f.len && forall i :: 0 <= i < |acts| ==> acts[i] == Write(f.data[i])
    ensures f.cmd == OpLcdWrite && (f.len == 0 || f.len > PayloadSize) ==> acts == []
    ensures f.cmd == OpSetCursor && f.len == 1 ==>
      |acts| == 1 && acts[0].SetCursor? && acts[0].col < 32 &&
      acts[0].row * 32 + acts[0].col == f.data[0]
    ensures f.cmd == OpSetCursor && f.len != 1 ==> acts == []
    ensures f.cmd == OpLcdClear ==> acts == [ClearLcd]
    ensures f.cmd == OpSetLeds ==> acts == if f.len == 1 then [SetBacklight(f.data[0])] else []
    ensures f.cmd == OpBeep && f.len == 3 ==>
      acts == [Buzz(f.data[0], f.data[1] as int * 256 + f.data[2])]
    ensures f.cmd == OpBeep && f.len != 3 ==> acts == [Buzz(DefaultDuration, DefaultFrequency)]
    ensures f.cmd == CmdInit ==> acts == ResetActions
    ensures f.cmd !in {OpSetCursor, OpLcdWrite, OpLcdClear, OpSetLeds, OpBeep, CmdInit} ==> acts == []
    ensures |acts| <= PayloadSize
  {
    var n := f.len;
    if f.cmd == OpLcdWrite then
      if 0 < n <= PayloadSize then Writes(f.data[..n]) else []
    else if f.cmd == OpSetCursor then
      if n == 1 then [SetCursor(Low(f.data[0]), High(f.data[0]))] else []
    else if f.cmd == OpLcdClear then
      [ClearLcd]
    else if f.cmd == OpSetLeds then
      if n == 1 then [SetBacklight(f.data[0])] else []
    else if f.cmd == OpBeep then
      if n == 3 then [Buzz(f.data[0], Frequency(f.data[1], f.data[2]))]
      else [Buzz(DefaultDuration, DefaultFrequency)]
    else if f.cmd == CmdInit then
      ResetActions
    else
      []
  }

  /** A cursor byte built from a column below 32 and a row below 8 moves the
      cursor to exactly that column and row. */
  lemma CursorRoundTrip(col: Byte, row: Byte, data: Payload)
    requires col < 32 && row < 8 && data[0] == Pack(row, col)
    ensures Dispatch(Frame(OpSetCursor, 1, data)) == [SetCursor(col, row)]
  {
    PackRoundTrip(row, col);
  }
}
