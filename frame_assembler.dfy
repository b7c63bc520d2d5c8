/**
 * The main thread's frame assembler as the source runs it: a cursor and a
 * fixed-size buffer updated in place, and bytes appended to standard output.
 * Every method is tied to the step function of `FrameSpec`, whose properties
 * are proved there.
 */
module FrameAssembler {
  import opened Wrappers
  import opened Bytes
  import opened BigEndian
  import opened FrameSpec

  class Assembler {
    /** `config->bitstream`. */
    const mode: Mode
    /** `M17Modulator::bytes_to_symbols`. */
    const toSymbols: seq<Byte> -> seq<Symbol>
    /** `M17Modulator::symbols_to_baseband`. */
    const toBaseband: seq<Symbol> -> seq<Word>
    /** `M17Modulator::bitstream_t bitstream`: one frame of bits. */
    const bitstream: array<Byte>
    /** `size_t index`: the write cursor. */
    var index: nat
    /** Everything written to standard output so far. */
    var output: seq<Byte>
    /** How much of `output` the last `std::cout.flush()` covered. */
    var flushed: nat
    /** The run control flag, as far as this loop sets it. */
    var running: bool
    /** Set when a write would have left the buffer (undefined in C++). */
    var overran: bool

    /** The loop's parameters: the mode, `bitstream.size()` and the two conversions. */
    function Parameters(): Params
      reads this
    {
      Params(mode, bitstream.Length, toSymbols, toBaseband)
    }

    /** Where the loop stands. */
    function Phase(): Phase
      reads this
    {
      if overran then Overrun else if running then Running else Closed
    }

    /** The abstract state that `FrameSpec` speaks about. */
    function Model(): (s: State)
      reads this, bitstream
      ensures Shaped(Parameters(), s)
    {
      State(index, bitstream[..], output, flushed, Phase())
    }

    /**
     * The state on entry to `while (running)`: cursor 0, nothing written,
     * running. `init` stands for the buffer's uninitialised contents.
     */
    constructor (mode: Mode, init: seq<Byte>,
                 toSymbols: seq<Byte> -> seq<Symbol>, toBaseband: seq<Symbol> -> seq<Word>)
      requires |init| > 0
      ensures Parameters() == Params(mode, |init|, toSymbols, toBaseband)
      ensures Model() == Start(init)
      ensures fresh(bitstream)
    {
      this.mode := mode;
      this.toSymbols := toSymbols;
      this.toBaseband := toBaseband;
      bitstream := new Byte[|init|](i requires 0 <= i < |init| => init[i]);
      index, output, flushed, running, overran := 0, [], 0, true, false;
      new;
      assert bitstream[..] == init;
    }

    /**
     * One pass of the loop body with what `get` returned. No value clears
     * `running`; in bitstream mode the bit goes straight out and the cursor
     * counts on; in baseband mode the bit is stored at the cursor and, when
     * the buffer is full, the modulated frame is written high byte first.
     */
    method Receive(got: Option<Byte>)
      requires running && !overran
      modifies this, bitstream
      ensures Parameters() == old(Parameters())
      ensures Model() == Step(old(Parameters()), old(Model()), got)
      ensures !(running && overran)
      ensures got.None? ==>
                !running && index == old(index) && output == old(output) && bitstream[..] == old(bitstream[..])
      ensures mode == Baseband && got.Some? && old(index) < bitstream.Length ==>
                index == old(index) + 1 && bitstream[old(index)] == got.value &&
                forall j :: 0 <= j < bitstream.Length && j != old(index) ==> bitstream[j] == old(bitstream[j])
    {
      match got
      case None =>
        running := false;
      case Some(bits) =>
        if mode == Bitstream {
          output := output + [bits];
          index := index + 1;
          if index == bitstream.Length {
            // The source's `index == 0;` compares and discards: no reset.
            flushed := |output|;
          }
        } else {
          if index >= bitstream.Length {
            overran, running := true, false;
            return;
          }
          bitstream[index] := bits;
          index := index + 1;
          if index == bitstream.Length {
            var baseband := Modulate(Parameters(), bitstream[..]);
            var bytes := WriteBaseband(baseband);
            output := output + bytes;
            flushed := |output|;
          }
        }
    }

    /**
     * `while (running) { ... }` fed the successive results of `get`. The
     * loop ends when `get` yields no value, when a write would overrun the
     * buffer, or when the results run out (another thread cleared the
     * flag).
     */
    method Run(events: seq<Option<Byte>>)
      requires !(running && overran)
      modifies this, bitstream
      ensures Parameters() == old(Parameters())
      ensures Model() == Feed(old(Parameters()), old(Model()), events)
      ensures !(running && overran)
    {
      var i := 0;
      while i < |events| && running
        invariant 0 <= i <= |events|
        invariant Parameters() == old(Parameters())
        invariant !(running && overran)
        invariant Model() == Feed(Parameters(), old(Model()), events[..i])
      {
        Receive(events[i]);
        assert events[..i + 1][..i] == events[..i];
        i := i + 1;
      }
      if i < |events| {
        FeedAppend(Parameters(), old(Model()), events[..i], events[i..]);
        FeedHalted(Parameters(), Model(), events[i..]);
        assert events[..i] + events[i..] == events;
      } else {
        assert events[..i] == events;
      }
    }
  }
}
