# m17-mod: configuration checks and frame assembly

This project models two sequential pieces of `m17-mod`. The program reads
live audio, lets an M17 modulator turn it into bits, and writes the result
to standard output as either a raw bitstream or big-endian 16-bit baseband
samples.

- **Configuration validation** (`SessionConfig`). After the command line
  has been read into `Config`, `Config::parse` applies three checks in this
  order: at most one of debug, verbose and quiet may be set; the source
  identifier is at most 9 bytes; the destination identifier is at most
  9 bytes. Identifiers are byte strings (`Text`), because
  `std::string::size()` counts bytes and a character outside ASCII takes
  several. A config that passes all three is returned unchanged.
  `Check` also records which diagnostic the rejection prints. `Validate` is
  the `std::optional<Config>` the caller sees.
- **Big-endian emission** (`BigEndian`). All baseband values are written
  as `(b & 0xFF00) >> 8` and then `b & 0xFF`, each cast to `uint8_t`. The
  values are taken as 16-bit patterns. On such a pattern the two masks are
  the quotient and the remainder of division by 256 (`MasksAreDivMod`,
  proved on `bv16`), and the byte functions compute them that way; read as
  unsigned integers, the masks give exactly those bytes (`MasksAreBytes`). A reader
  who joins the bytes back in pairs recovers every value in order
  (`WordsSerialize`). Every even-length byte stream is what some buffer
  emits (`SerializeWords`).
- **Frame assembly** (`FrameSpec`, `FrameAssembler`). This is the body of
  the main `while (running)` loop. `FrameSpec.Step` is the loop body as a
  step function over an explicit state: the cursor `index`, the contents of
  the fixed-size `bitstream` buffer, the bytes written, how much of them has
  been flushed, and whether the loop still runs. `FrameSpec.Feed` runs that
  step over the successive results of `get`. `FrameAssembler.Assembler` is
  the same loop in imperative form: a class with an `array` buffer, a
  `Receive` method for one pass of the body and a `Run` method for the loop.
  Both methods are proved equal to `Step` and `Feed`.
- **The loop as evidently intended** (`CorrectedFraming`). This variant
  puts the cursor back at 0 after every full frame, in both modes. For it,
  it is proved that, after B bits, the cursor is at B mod N. In baseband
  mode ⌊B/N⌋ frames have been written and the last B mod N bits are at the
  front of the buffer. In bitstream mode all B bits have been written in
  order, the first ⌊B/N⌋·N of them have been flushed, and the buffer is
  untouched. See Findings.

The frame capacity `bitstream.size()` and the conversions
`bytes_to_symbols` and `symbols_to_baseband` are defined in a header that is
not part of this model. They enter as parameters (`Params.n`,
`Params.toSymbols`, `Params.toBaseband`), and nothing is assumed about them.
The uninitialised contents of the local `bitstream` array are a parameter
(`init`) as well. `BasebandFirstFrame` proves that none of them reaches the
output.

The model follows the code as written in two places:
- Line 162's `index == 0;` shows that a reset of the cursor after each
  frame was meant. The code performs none, in either mode.
- A received bit is a `uint8_t`, and the code stores or writes whatever
  value arrives. The model therefore takes any byte as a received bit.

In baseband mode, a write past the end of the buffer is undefined
behaviour in C++. The model does not carry on after it. It gives the loop
an explicit error state: the phase becomes `Overrun` and the loop halts,
leaving the buffer and output as they were. The model does not add a
precondition `index < N`.

## Model

| member | source | states |
|---|---|---|
| SessionConfig.Check | m17-mod.cpp:79-97 | accepts exactly when no two verbosity flags are set and both identifiers have at most 9 bytes; the accepted config is the input unchanged; the diagnostic is that of the first failing check in source order (flags, then source, then destination), each as an if-and-only-if |
| SessionConfig.Validate | m17-mod.cpp:79-97 | `Some(c)` exactly when all three checks pass, and then the config is returned field for field; `None` otherwise |
| SessionConfig.VerbositySumRule | m17-mod.cpp:79 | the sum `debug + verbose + quiet > 1` holds exactly when two of the flags are set together |
| SessionConfig.SingleFlagAccepted | m17-mod.cpp:79-83 | with both identifiers short enough, any combination of at most one flag is accepted unchanged |
| SessionConfig.BroadcastDestinationAccepted | m17-mod.cpp:91-95 | the empty, broadcast destination never fails its check; acceptance then depends only on the flags and the source |
| SessionConfig.TenByteSourceRejected | m17-mod.cpp:85-89 | a 10-byte source identifier is always rejected, with the source diagnostic when the flags are consistent |
| SessionConfig.ValidateIgnoresOtherFields | m17-mod.cpp:79-97 | audio device, event device, key code and output mode never affect acceptance |
| BigEndian.MasksAreDivMod | m17-mod.cpp:172 | on a 16-bit pattern, `(w & 0xFF00) >> 8` is `w / 256` and `w & 0xFF` is `w % 256` |
| BigEndian.MasksAreBytes | m17-mod.cpp:172 | the two masks, read as unsigned integers, are exactly the bytes `HighByte` and `LowByte` compute |
| BigEndian.HighByte | m17-mod.cpp:172 | the high byte h of the pattern b satisfies 256·h ≤ b < 256·h + 256 |
| BigEndian.LowByte | m17-mod.cpp:172 | the low byte l of the pattern b is congruent to b modulo 256 |
| BigEndian.Pair | m17-mod.cpp:172 | one value is written as two bytes whose big-endian reading (`Join`) is the value |
| BigEndian.SplitJoin | m17-mod.cpp:172 | splitting the big-endian reading of two bytes gives back the same two bytes |
| BigEndian.Serialize | m17-mod.cpp:172 | a buffer of k values becomes 2k bytes; byte 2i is the high byte and byte 2i+1 the low byte of value i |
| BigEndian.Words | m17-mod.cpp:172 | reading 2k bytes in pairs gives k values, value i being the big-endian reading of bytes 2i and 2i+1 |
| BigEndian.SerializeAppend | m17-mod.cpp:172 | the bytes for two buffers in a row are the bytes of the first followed by those of the second |
| BigEndian.WordsSerialize | m17-mod.cpp:172 | reading the written bytes back in pairs gives every value, in order (round trip) |
| BigEndian.SerializeWords | m17-mod.cpp:172 | writing the values read from an even-length byte stream gives back that stream (the other direction) |
| BigEndian.WriteBaseband | m17-mod.cpp:172 | the range-for over the baseband buffer writes exactly `Serialize` of it |
| FrameSpec.Step | m17-mod.cpp:148-175 | one pass of the loop body: `get` without a value closes the loop; a bitstream bit is written and counted, with a flush when `index` reaches N and no reset; a baseband bit is stored at `index`, and the full buffer is converted and written when `index` reaches N; a baseband bit with `index` at or past N halts in `Overrun`, the only way into that phase. Once the loop has stopped nothing changes, output is never taken back, and the flush mark stays within the output |
| FrameSpec.Feed | m17-mod.cpp:146-176 | the `while (running)` loop over the successive `get` results: the buffer keeps its size, the output only grows, and the flush mark stays within it |
| FrameSpec.FeedAppend | m17-mod.cpp:146-176 | running the loop on two batches of `get` results is running it on the first, then on the second from where it stopped |
| FrameSpec.FeedHalted | m17-mod.cpp:146-153 | once the loop has stopped, further `get` results change nothing |
| FrameSpec.CloseFreezes | m17-mod.cpp:148-154 | a `get` without a value clears `running` and leaves cursor, buffer, output and flush point unchanged; later results are never processed |
| FrameSpec.BitstreamFeed | m17-mod.cpp:156-165 | bitstream mode after k bits: the output is exactly the k bits in arrival order, one byte each; `index == k`, never reset; the buffer is untouched; only the first full frame is flushed |
| FrameSpec.BitstreamSession | m17-mod.cpp:146-165 | bits followed by a closed queue: output is the bits in order, the loop stops in the closed phase, nothing after the closing is used |
| FrameSpec.BasebandStepWrites | m17-mod.cpp:168-174 | a baseband step with `index < N` stores the bit at `index`, increments `index` and leaves every other cell; output grows only on the step where `index` reaches N, by the bytes of the modulated buffer |
| FrameSpec.BasebandFill | m17-mod.cpp:168 | bits that do not complete the frame are stored from the cursor on, in order, with nothing written out |
| FrameSpec.BasebandPartial | m17-mod.cpp:166-175 | before the frame is full, the buffer begins with the bits received, `index` counts them and no output precedes the full frame |
| FrameSpec.BasebandFirstFrame | m17-mod.cpp:168-174 | after N bits the buffer is exactly those bits; the output is, for each baseband value of the modulated frame in order, its high then its low byte, 2·\|baseband\| bytes, all flushed |
| FrameSpec.BasebandOverrun | m17-mod.cpp:168-169 | with more than N bits the cursor is never reset, so bit N+1 would be written at `bitstream[N]`; only the first frame is ever written out |
| CorrectedFraming.StepFixed | m17-mod.cpp:148-175 | the loop body with the reset `index = 0` once a frame is complete: output only grows, and a cursor inside the buffer stays inside it, so the step never overruns |
| CorrectedFraming.FeedFixed | m17-mod.cpp:146-176 | the corrected loop over any `get` results: started with the cursor inside the buffer, it never reaches `Overrun` and the cursor stays below N |
| CorrectedFraming.FixedBitstreamFrom | m17-mod.cpp:156-165 | with the reset, bitstream mode writes every bit in order and flushes at every frame boundary; the cursor counts the leftover bits |
| CorrectedFraming.FixedBasebandFrom | m17-mod.cpp:166-175 | with the reset, baseband mode writes every full frame once and in order; the leftover bits stay at the front of the buffer and no write leaves it |
| CorrectedFraming.FixedFeed | m17-mod.cpp:156-175 | with the reset, after B bits `index == B mod N` in both modes; baseband: exactly the ⌊B/N⌋ full frames are written, in order, all flushed, and the last B mod N bits are at the front of the buffer; bitstream: all B bits are written in order, the first ⌊B/N⌋·N of them flushed, and the buffer is untouched |
| FrameAssembler.Assembler.constructor | m17-mod.cpp:128-130 | the loop's initial state: cursor 0, nothing written, running, the buffer holding its indeterminate contents |
| FrameAssembler.Assembler.Receive | m17-mod.cpp:148-175 | one pass of the loop body changes the state exactly as `FrameSpec.Step` says; no value clears `running` and changes nothing else; a baseband bit with `index < N` is stored in place at `index` and no other cell changes |
| FrameAssembler.Assembler.Run | m17-mod.cpp:146-176 | the `while (running)` loop leaves the state that `FrameSpec.Feed` gives for the same `get` results |

## Left out

- Option declaration, parsing, `notify`, and the help, version and usage output (m17-mod.cpp:26-77). They are a thin wrapper over a library that is not part of this model. The default values set there (the event device path, key code 385 and the empty broadcast destination) are therefore not modelled either.
- The SIGINT handler and the global atomic `running` as a signal between threads (m17-mod.cpp:101-107, 134, 140, 143). These are about concurrency and signal delivery. When another thread clears the flag, the model shows this as the sequence of `get` results ending.
- The capture thread, `std::cin.read`, `audio_queue->put(sample, 5s)` and the spin-wait (m17-mod.cpp:132-143). These are threads, timeouts and I/O.
- The queue types, `M17Modulator::run`, `ptt_on`/`ptt_off`, `wait_until_idle`, `future.get()` and the shutdown order (m17-mod.cpp:119-124, 180-186). They live in the modulator header, which is not part of this model, and they concern thread and task lifetime.
- The internals of `bytes_to_symbols` and `symbols_to_baseband`. They are external modulation math and stay arbitrary function parameters. The width of a symbol is not fixed: `Symbol` is `int`.
- `assert(bitstream_queue->is_closed())` and the `std::clog` notice "bitstream queue is closed; done transmitting." (m17-mod.cpp:150-151). The assert is a runtime assumption about another thread; the notice is diagnostic logging, which has no counterpart in the model's state.
- `std::cout.flush()` is modelled only as a mark of how much output has been flushed. Stream buffering and its timing are not modelled.
- FrameSpec.Step: the cursor is a `nat`, so the wrap-around of `size_t` after 2^64 bits in bitstream mode is not modelled.
- FrameSpec.Step: the undefined behaviour of writing `bitstream[N]` is modelled as a halt in the `Overrun` phase. What the program would really do after that write is not modelled.
- BigEndian.WordsSerialize: the element type of the baseband buffer is declared in the modulator header, which is not part of this model. Values are therefore 16-bit patterns. For a signed `int16_t` element, the pattern is its two's complement.

## Findings

| source | as written | input that shows it | evidently intended | confidence | as-written member | corrected member |
|---|---|---|---|---|---|---|
| m17-mod.cpp:162 | `index == 0;` compares and discards, so the bitstream-mode cursor is never reset | bitstream mode, 2·N bits: `index` ends at 2·N and only the first frame is flushed | `index = 0;`, so each frame is flushed | high; not executed | FrameSpec.BitstreamFeed | CorrectedFraming.FixedFeed |
| m17-mod.cpp:168-169 | the baseband branch never resets `index` after writing a frame | baseband mode, N+1 bits: bit N+1 is written to `bitstream[N]`, one past the end | reset `index` to 0 once the frame is written, so every frame is converted | high; not executed | FrameSpec.BasebandOverrun | CorrectedFraming.FixedFeed |

The corrected loop, `CorrectedFraming.StepFixed`, is `FrameSpec.Step` followed by
the missing reset. `FrameAssembler.Assembler` keeps the code as written, because
its purpose is to model what the program does.
