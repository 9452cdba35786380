# Universal panel adapter: SPI command decoder and frame queue

This project models the firmware core of a panel adapter. The adapter is an SPI
slave that receives a byte stream of command frames from a master (a 3D-printer
controller), queues finished frames and carries them out on a character LCD,
its backlight LEDs and a buzzer. On request it also answers with the button
mask, the encoder count or the queue depth.

The model has five modules:

- `Wire` (wire.dfy): bytes, and the 3/5-bit split shared by the header byte
  (`cccnnnnn`: opcode, length) and the cursor byte (`yyyxxxxx`: row, column).
  The handler's shifts and masks are written as division and remainder, and
  `BitLayout` proves that the two agree on every 8-bit pattern.
- `RingBuffers` (ring_buffer.dfy): the `RingBuffer` class, with its array,
  `head` and `tail`, proved against `Contents()`, the live elements oldest
  first. A guarded sequence of pushes and pops is proved first-in first-out.
- `Commands` (commands.dfy): the `Cmd_t` frame, the opcodes, and
  `handle_command` as `Dispatch`. `Dispatch` gives the driver calls a frame
  causes, in order. The `lcd.write` loop is the method `WriteChars`.
- `Decoder` (decoder.dfy): the adapter's shared state as a value (`Snapshot`).
  `Step` is one run of the SPI interrupt handler for one byte. `LoopStep` is
  one pass of `loop()` that takes a frame off the queue. `Cleared` is
  `clear()`. `Run` feeds a byte string to `Step`. The lemmas cover:
  - frame assembly;
  - status replies;
  - POLL and the busy line;
  - INIT;
  - a worked example.
- `Panel` (panel.dfy): the `Adapter` class holding the globals (`pos`,
  `toread`, `buf`, `queue`, the busy line, `buttons`, the encoder count). Its
  methods are the interrupt handler, `clear()`, `handle_command` and `loop()`.
  Each is proved to change the state exactly as the matching `Decoder`
  function says, so every `Decoder` lemma holds of the imperative code.

Driver calls (`lcd.write`, `lcd.setCursor`, `lcd.clear`, `lcd.setBacklight`,
`lcd.buzz`) are returned as a sequence of `Action` values. The busy pin is the
boolean `busy`, high meaning busy. The encoder and the button reader are plain
state: the encoder count is reset by the handler and by `clear()`, and the
button mask is a parameter of `RefreshButtons`.

## Model

| member | source | states |
|---|---|---|
| Wire.BitLayout | upa.cpp:65-66 | on every 8-bit pattern, `b >> 5` is `b / 32`, `b & 0x1F` is `b % 32`, and `(hi << 5) \| lo` is `hi * 32 + lo`, so the arithmetic model of the header split is the handler's |
| Wire.SplitRoundTrip | upa.cpp:34 | splitting a byte into its 3-bit and 5-bit fields and packing them again gives back the byte |
| Wire.PackRoundTrip | upa.cpp:41 | packing a row below 8 and a column below 32 into a cursor byte and splitting it gives back that row and column |
| Wire.LowByte | upa.cpp:76 | the byte stored into the data register from a wider value; it is the value itself when that fits in a byte |
| RingBuffers.Advance | RingBuffer.h:54 | `(i + 1) & (length - 1)` stays an index and is `(i + 1) mod 32` |
| RingBuffers.RingBuffer.constructor | RingBuffer.h:36-38 | a new buffer has both indices 0 and holds no elements |
| RingBuffers.RingBuffer.Capacity | RingBuffer.h:27-29 | the capacity is the slot count 32, one more than the most elements ever live |
| RingBuffers.RingBuffer.Size | RingBuffer.h:31-34 | the size is `(head - tail) mod 32` and equals the number of live elements |
| RingBuffers.RingBuffer.IsFull | RingBuffer.h:44-46 | full exactly when 31 elements are live |
| RingBuffers.RingBuffer.IsEmpty | RingBuffer.h:48-50 | empty exactly when no element is live |
| RingBuffers.RingBuffer.PushBack | RingBuffer.h:52-55 | on a non-full buffer, the item is written at `head` and appended to the live elements; `head` advances and the size grows by one |
| RingBuffers.RingBuffer.PopFront | RingBuffer.h:57-60 | on a non-empty buffer, returns the oldest live element and drops it; `tail` advances and the size shrinks by one |
| RingBuffers.RingBuffer.Clear | RingBuffer.h:40-42 | both indices return to 0 and no element is live |
| RingBuffers.ReplayIsFifo | RingBuffer.h:52-60 | for any guarded sequence of pushes and pops, the popped items followed by the live ones are the earlier live items followed by all pushed ones; size is pushes minus pops and stays below 32 |
| RingBuffers.FifoFromEmpty | RingBuffer.h:40-60 | after `clear()`, the pops return exactly the first pushed items in order, never more than were pushed, and the size is pushes minus pops |
| Commands.Writes | upa.cpp:185-187 | one `lcd.write` per byte, in order |
| Commands.WriteChars | upa.cpp:183-189 | the loop makes exactly `n` calls, the i-th writing payload byte i |
| Commands.FrequencyBits | upa.cpp:212 | `(hi << 8) \| (lo & 0xFF)` is the big-endian 16-bit value `hi * 256 + lo`, below 65536 |
| Commands.Dispatch | upa.cpp:177-222 | each opcode's driver calls, including the length guard for each: LCD_WRITE writes the first `len` payload bytes when `0 < len <= 32`; SET_CURSOR with one byte sets the column and row it encodes; LCD_CLEAR clears; SET_LEDS with one byte sets the backlight; BEEP with three bytes buzzes with that duration and big-endian frequency, otherwise 100 ms at 1000 Hz; INIT makes `clear()`'s calls; every other opcode and every rejected length makes none |
| Commands.CursorRoundTrip | upa.cpp:191-198 | a SET_CURSOR frame whose byte packs column `x` and row `y` moves the cursor to exactly `(x, y)` |
| Decoder.Complete | upa.cpp:116-129 | the end of a frame: the frame is appended if fewer than 31 frames are queued and dropped otherwise; busy rises when the push leaves 22 or more frames queued and is never lowered; the decoder then awaits a header |
| Decoder.Step | upa.cpp:59-131 | from any state between bytes, the handler leaves a state between bytes. It replies only to GET_STATUS, never changes the button mask, and leaves the encoder count alone or zeroes it |
| Decoder.Cleared | upa.cpp:133-143 | `clear()` empties the queue, lowers busy, zeroes the button mask and the encoder, and leaves a state waiting for a header |
| Decoder.LoopStep | upa.cpp:225-231 | an empty queue changes nothing; otherwise the oldest frame is removed and dispatched, and an INIT frame also resets the state as `clear()` does |
| Decoder.Run | upa.cpp:59-131 | handling any string of bytes keeps the state between bytes well formed |
| Decoder.StepInFrame | upa.cpp:109-114 | a payload byte is stored at `pos - 1`, always inside the 32-byte array, and the frame completes on its last byte |
| Decoder.FilledByFirst | upa.cpp:110-112 | storing a payload one byte at a time puts each byte at its own position |
| Decoder.Accumulate | upa.cpp:109-129 | inside a frame, the `toread` remaining bytes are stored in order, all in bounds, and the frame is then completed |
| Decoder.StepHeader | upa.cpp:101-105 | a header of opcode 2..6 starts a frame with that opcode and length; one of length 0 completes at once |
| Decoder.FrameAssembled | upa.cpp:63-129 | a header of opcode 2..6 and length n followed by n bytes assembles a frame with that opcode and length, those bytes first in its payload, and completes it |
| Decoder.FrameDecoded | upa.cpp:100-129 | such a frame is queued unless the queue is full; busy rises exactly when the push reaches 22 queued frames; the decoder ends waiting for a header |
| Decoder.StatusQuery | upa.cpp:67-82 | READ and GET_STATUS queue nothing and leave the frame decoder and busy alone; GET_STATUS answers the button mask, the encoder count (then zeroed) or the queue depth for sub-codes 0, 1 and 2, and nothing otherwise |
| Decoder.Poll | upa.cpp:92-97 | POLL leaves the queue and the decoder alone; busy afterwards is high exactly when it was high and frames are queued |
| Decoder.InitResets | upa.cpp:85-90 | INIT empties the queue and queues one empty INIT frame at once; when the main loop takes it, the state is reset and the display cleared |
| Decoder.StaleFrameRequeued | upa.cpp:84-99 | the header 0xE0 starts no frame, but the handler queues the previous frame again, unchanged, and sends no reply |
| Decoder.BusyLoweredOnlyByPoll | upa.cpp:93-96 | within the handler, busy falls only on POLL with an empty queue |
| Decoder.AbcDispatched | upa.cpp:183-189 | a queued three-byte LCD_WRITE holding `A B C`, when taken by the loop, writes A, B, C and nothing else |
| Decoder.WriteAbc | upa.cpp:59-131 | the bytes `0x63 'A' 'B' 'C'` on an idle adapter queue exactly one LCD_WRITE frame of length 3 holding `A B C`, and carrying it out writes A, B, C |
| Panel.Adapter.constructor | upa.cpp:21-26 | start-up state: decoder idle, queue empty, busy low, buttons and encoder zero |
| Panel.Adapter.Isr | upa.cpp:59-131 | the interrupt handler changes the globals and the reply register exactly as `Step` does, and keeps them well formed |
| Panel.Adapter.Header | upa.cpp:63-107 | the switch on a header byte: it ends in `Step`'s state, or it has set up a frame that is complete and that `Step` queues at once |
| Panel.Adapter.StorePayloadByte | upa.cpp:109-114 | stores the byte at `pos - 1` when inside the array, then advances `pos` and decrements `toread`; nothing else changes |
| Panel.Adapter.FinishFrame | upa.cpp:116-129 | the globals become `Complete` of their previous value |
| Panel.Adapter.Clear | upa.cpp:133-143 | the globals become `Cleared` of their previous value; the driver calls are clear-display and backlight-off |
| Panel.Adapter.HandleCommand | upa.cpp:177-222 | the driver calls are `Dispatch` of the frame; only INIT changes the globals, as `clear()` does |
| Panel.Adapter.Loop | upa.cpp:225-231 | the globals and the driver calls are as `LoopStep` gives |
| Panel.Adapter.RefreshButtons | upa.cpp:236-238 | the button mask becomes the value read and nothing else changes |

## Left out

- Hardware set-up in `setup()` (SPI registers, pin modes, LCD type and size, the start-up banner): register programming and display text with no effect on the decoder.
- The `millis()` timing of the button refresh in `loop()`: the clock is left out. `RefreshButtons` takes the mask that `lcd.readButtons()` returned. `last_ms` is not modelled.
- Interrupt/main-loop concurrency: each handler run and each loop pass is one atomic step. The `volatile` qualifiers and interleavings inside a step are not modelled.
- Header bytes 0xE1..0xFD (opcode 7 with a non-zero length, other than INIT and POLL): the handler then writes `buf.data[-1]`, outside the array. The `Defined` precondition excludes these bytes. 0xE0 is modelled (see `StaleFrameRequeued`).
- Panel.Adapter.Isr: the encoder count is an unbounded integer, not the driver's 32-bit `long`. The reply is its low byte (two's complement for a negative count).
- The encoder's own counting of rotation steps and the LCD, LED and buzzer drivers: the drivers are external and appear only as the `Action` calls made to them.
- RingBuffers.RingBuffer.PushBack: requires a non-full buffer and RingBuffers.RingBuffer.PopFront a non-empty one. The source does not check; its callers always test `isFull()`/`isEmpty()` first.
- RingBuffers.RingBuffer: the `length` template parameter is fixed at 32, the only instance. The `char` indices and size never exceed 31, so their signedness does not matter.
- Commands.Dispatch: the buzzer's parameter types are not modelled. The frequency is the 16-bit value the handler computes.
