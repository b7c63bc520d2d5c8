/**
 * The body of the main `while (running)` loop as a step function over an
 * explicit state: the cursor `index`, the contents of the fixed-size
 * `bitstream` buffer, and the bytes written to standard output. The loop is
 * modelled as written, including its missing cursor resets.
 */
module FrameSpec {
  import opened Wrappers
  import opened Bytes
  import opened BigEndian

  /** One value of the modulator's symbol alphabet; its width is fixed by the modulator. */
  type Symbol = int

  /** `config->bitstream` chooses the raw bitstream; otherwise baseband audio is written. */
  datatype Mode = Bitstream | Baseband

  /**
   * Running: the loop goes on. Closed: `get` yielded no value, `running` was
   * cleared and the loop left. Overrun: the baseband branch was about to write
   * `bitstream[index]` with `index` at or past the buffer's end, which C++
   * leaves undefined; the model halts there instead.
   */
  datatype Phase = Running | Closed | Overrun

  /**
   * What the loop takes as given: the output mode, the buffer capacity
   * `bitstream.size()` and the modulator's two conversions, whose internals
   * are not part of this model.
   */
  datatype Params = Params(
    mode: Mode,
    n: nat,
    toSymbols: seq<Byte> -> seq<Symbol>,
    toBaseband: seq<Symbol> -> seq<Word>)

  /** `symbols_to_baseband(bytes_to_symbols(frame))`. */
  function Modulate(p: Params, frame: seq<Byte>): seq<Word> {
    p.toBaseband(p.toSymbols(frame))
  }

  /**
   * The loop's state. `flushed` is how much of `output` the last flush
   * covered.
   */
  datatype State = State(index: nat, frame: seq<Byte>, output: seq<Byte>, flushed: nat, phase: Phase)

  /** The state when the loop is first entered; `init` is the buffer's indeterminate contents. */
  function Start(init: seq<Byte>): State {
    State(0, init, [], 0, Running)
  }

  /** The buffer holds exactly `bitstream.size()` cells. */
  predicate Shaped(p: Params, s: State) {
    |s.frame| == p.n
  }

  /**
   * One pass of the loop body with what `get` returned. Once not running,
   * nothing changes; what was written is never taken back, and a flush never
   * covers more than was written; the only way into `Overrun` is a baseband
   * bit arriving with the cursor at or past the buffer's end.
   */
  function Step(p: Params, s: State, got: Option<Byte>): (r: State)
    requires Shaped(p, s)
    ensures Shaped(p, r)
    ensures s.phase != Running ==> r == s
    ensures s.output <= r.output
    ensures s.flushed <= |s.output| ==> r.flushed <= |r.output|
    ensures r.phase == Overrun <==>
              s.phase == Overrun || (s.phase == Running && p.mode != Bitstream && got.Some? && s.index >= p.n)
  {
    if s.phase != Running then s
    else match got
      case None => s.(phase := Closed)
      case Some(bit) =>
        if p.mode == Bitstream then
          // `index == 0;` is a comparison: the cursor keeps counting.
          var t := s.(output := s.output + [bit], index := s.index + 1);
          if t.index == p.n then t.(flushed := |t.output|) else t
        else if s.index >= p.n then s.(phase := Overrun)
        else
          var t := s.(frame := s.frame[s.index := bit], index := s.index + 1);
          if t.index == p.n then
            var out := t.output + Serialize(Modulate(p, t.frame));
            t.(output := out, flushed := |out|)
          else t
  }

  /**
   * The loop fed the successive results of `get`, oldest first. The output
   * only ever grows, and the flush mark stays within it.
   */
  function Feed(p: Params, s: State, events: seq<Option<Byte>>): (r: State)
    requires Shaped(p, s)
    ensures Shaped(p, r)
    ensures s.output <= r.output
    ensures s.flushed <= |s.output| ==> r.flushed <= |r.output|
    decreases |events|
  {
    if events == [] then s
    else Step(p, Feed(p, s, events[..|events| - 1]), events[|events| - 1])
  }

  /** `get` returning each of `bits` in turn. */
  function Received(bits: seq<Byte>): seq<Option<Byte>> {
    seq(|bits|, i requires 0 <= i < |bits| => Some(bits[i]))
  }

  lemma ReceivedAppend(a: seq<Byte>, b: seq<Byte>)
    ensures Received(a + b) == Received(a) + Received(b)
  {
  }

  lemma ReceivedSnoc(bits: seq<Byte>)
    requires bits != []
    ensures Received(bits)[..|bits| - 1] == Received(bits[..|bits| - 1])
    ensures Received(bits)[|bits| - 1] == Some(bits[|bits| - 1])
  {
  }

  /** Feeding two batches is feeding the first, then the second. */
  lemma {:induction false} FeedAppend(p: Params, s: State, a: seq<Option<Byte>>, b: seq<Option<Byte>>)
    requires Shaped(p, s)
    ensures Feed(p, s, a + b) == Feed(p, Feed(p, s, a), b)
    decreases |b|
  {
    if b == [] {
      assert a + b == a;
    } else {
      var ab := a + b;
      assert ab[..|ab| - 1] == a + b[..|b| - 1];
      assert ab[|ab| - 1] == b[|b| - 1];
      FeedAppend(p, s, a, b[..|b| - 1]);
    }
  }

  /** A loop that has stopped ignores whatever else `get` would return. */
  lemma {:induction false} FeedHalted(p: Params, s: State, events: seq<Option<Byte>>)
    requires Shaped(p, s) && s.phase != Running
    ensures Feed(p, s, events) == s
    decreases |events|
  {
    if events != [] {
      FeedHalted(p, s, events[..|events| - 1]);
    }
  }

  /**
   * A `get` without a value clears `running`, leaves output, buffer and
   * cursor as they were, and nothing after it is processed.
   */
  lemma CloseFreezes(p: Params, s: State, before: seq<Option<Byte>>, after: seq<Option<Byte>>)
    requires Shaped(p, s) && Feed(p, s, before).phase == Running
    ensures Feed(p, s, before + [None] + after) == Feed(p, s, before).(phase := Closed)
  {
    FeedAppend(p, s, before + [None], after);
    FeedAppend(p, s, before, [None]);
    assert Feed(p, Feed(p, s, before), [None]) == Feed(p, s, before).(phase := Closed) by {
      var one: seq<Option<Byte>> := [None];
      assert one[..0] == [];
    }
    FeedHalted(p, Feed(p, s, before + [None]), after);
  }

  /**
   * Bitstream mode after k bits: the output is exactly the bits in arrival
   * order, the cursor is k and never returns to 0, the buffer is untouched,
   * and only the first full frame is flushed.
   */
  lemma {:induction false} BitstreamFeed(p: Params, init: seq<Byte>, bits: seq<Byte>)
    requires p.mode == Bitstream && p.n > 0 && |init| == p.n
    ensures Feed(p, Start(init), Received(bits)) ==
            State(|bits|, init, bits, if |bits| >= p.n then p.n else 0, Running)
    decreases |bits|
  {
    if bits != [] {
      var k := |bits| - 1;
      ReceivedSnoc(bits);
      BitstreamFeed(p, init, bits[..k]);
      assert bits[..k] + [bits[k]] == bits;
    }
  }

  /**
   * A whole bitstream session: the bits, then `get` without a value. The
   * loop stops with every bit written once, in order, and ignores anything
   * after the closing.
   */
  lemma BitstreamSession(p: Params, init: seq<Byte>, bits: seq<Byte>, after: seq<Option<Byte>>)
    requires p.mode == Bitstream && p.n > 0 && |init| == p.n
    ensures Feed(p, Start(init), Received(bits) + [None] + after) ==
            State(|bits|, init, bits, if |bits| >= p.n then p.n else 0, Closed)
  {
    BitstreamFeed(p, init, bits);
    CloseFreezes(p, Start(init), Received(bits), after);
  }

  /**
   * A baseband step with the cursor inside the buffer writes the received
   * bit at the cursor, advances it by one and leaves every other cell alone;
   * nothing is written out until the cursor reaches the end.
   */
  lemma BasebandStepWrites(p: Params, s: State, bit: Byte)
    requires p.mode == Baseband && Shaped(p, s) && s.phase == Running && s.index < p.n
    ensures Step(p, s, Some(bit)).index == s.index + 1
    ensures Step(p, s, Some(bit)).frame[s.index] == bit
    ensures forall j :: 0 <= j < p.n && j != s.index ==> Step(p, s, Some(bit)).frame[j] == s.frame[j]
    ensures Step(p, s, Some(bit)).phase == Running
    ensures s.index + 1 < p.n ==> Step(p, s, Some(bit)).output == s.output
    ensures s.index + 1 == p.n ==>
              Step(p, s, Some(bit)).output == s.output + Serialize(Modulate(p, s.frame[s.index := bit]))
  {
  }

  /** A baseband step that does not complete the frame only stores the bit and advances the cursor. */
  lemma BasebandStore(p: Params, t: State, bit: Byte)
    requires p.mode == Baseband && Shaped(p, t) && t.phase == Running && t.index + 1 < p.n
    ensures Step(p, t, Some(bit)) == t.(index := t.index + 1, frame := t.frame[t.index := bit])
  {
  }

  /** Writing one more cell after a stored run extends the run. */
  lemma SpliceStep(a: seq<Byte>, i: nat, bits: seq<Byte>, b: Byte)
    requires i + |bits| < |a|
    ensures (a[..i] + bits + a[i + |bits|..])[i + |bits| := b] == a[..i] + (bits + [b]) + a[i + |bits| + 1..]
  {
    var lhs := (a[..i] + bits + a[i + |bits|..])[i + |bits| := b];
    var rhs := a[..i] + (bits + [b]) + a[i + |bits| + 1..];
    assert |lhs| == |rhs|;
    forall j | 0 <= j < |lhs| ensures lhs[j] == rhs[j] {
      if j < i {
      } else if j < i + |bits| {
      } else if j == i + |bits| {
      } else {
      }
    }
  }

  /**
   * Baseband bits that do not complete the frame go into the buffer from the
   * cursor on, and nothing is written.
   */
  lemma {:induction false} BasebandFill(p: Params, s: State, bits: seq<Byte>)
    requires p.mode == Baseband && Shaped(p, s) && s.phase == Running && s.index + |bits| < p.n
    ensures Feed(p, s, Received(bits)) ==
            s.(index := s.index + |bits|,
               frame := s.frame[..s.index] + bits + s.frame[s.index + |bits|..])
    decreases |bits|
  {
    if bits == [] {
      assert s.frame[..s.index] + s.frame[s.index..] == s.frame;
    } else {
      var k := |bits| - 1;
      var t := Feed(p, s, Received(bits[..k]));
      assert Feed(p, s, Received(bits)) == Step(p, t, Some(bits[k])) by {
        ReceivedSnoc(bits);
      }
      var f := s.frame[..s.index] + bits[..k] + s.frame[s.index + k..];
      assert t == s.(index := s.index + k, frame := f) by {
        BasebandFill(p, s, bits[..k]);
      }
      BasebandStore(p, t, bits[k]);
      SpliceStep(s.frame, s.index, bits[..k], bits[k]);
      assert bits[..k] + [bits[k]] == bits;
    }
  }

  /**
   * Baseband mode before the frame is full: the buffer starts with the bits
   * received, the cursor counts them, and no output precedes the full frame.
   */
  lemma BasebandPartial(p: Params, init: seq<Byte>, bits: seq<Byte>)
    requires p.mode == Baseband && |init| == p.n && |bits| < p.n
    ensures Feed(p, Start(init), Received(bits)) == State(|bits|, bits + init[|bits|..], [], 0, Running)
  {
    BasebandFill(p, Start(init), bits);
  }

  /**
   * Baseband mode at the frame's last bit: the buffer is exactly the bits
   * received (none of its initial contents is left), and the output is the
   * big-endian bytes of the modulated frame, two per baseband value.
   */
  lemma BasebandFirstFrame(p: Params, init: seq<Byte>, bits: seq<Byte>)
    requires p.mode == Baseband && |init| == p.n && |bits| == p.n > 0
    ensures var r := Feed(p, Start(init), Received(bits));
            r == State(p.n, bits, Serialize(Modulate(p, bits)), 2 * |Modulate(p, bits)|, Running) &&
            |r.output| == 2 * |Modulate(p, bits)|
  {
    var k := |bits| - 1;
    ReceivedSnoc(bits);
    BasebandPartial(p, init, bits[..k]);
    assert (bits[..k] + init[k..])[k := bits[k]] == bits;
  }

  /**
   * Baseband mode past one frame: since the cursor is never reset, the bit
   * after the first full frame would be written one cell past the end of the
   * buffer. Only the first frame is ever written out.
   */
  lemma BasebandOverrun(p: Params, init: seq<Byte>, bits: seq<Byte>)
    requires p.mode == Baseband && |init| == p.n && |bits| > p.n > 0
    ensures var r := Feed(p, Start(init), Received(bits));
            r.phase == Overrun && r.index == p.n && r.output == Serialize(Modulate(p, bits[..p.n]))
  {
    var first, later := bits[..p.n], bits[p.n..];
    assert bits == first + later;
    var rest := Received(later);
    assert rest == [Some(later[0])] + rest[1..];
    ReceivedAppend(first, later);
    BasebandFirstFrame(p, init, first);
    var mid := Feed(p, Start(init), Received(first));
    assert mid.index == p.n && mid.phase == Running;
    var one: seq<Option<Byte>> := [Some(later[0])];
    var over := mid.(phase := Overrun);
    assert Feed(p, mid, one) == over by {
      assert one[..0] == [];
      assert Step(p, mid, Some(later[0])) == over;
    }
    calc {
      Feed(p, Start(init), Received(bits));
      { FeedAppend(p, Start(init), Received(first), rest); }
      Feed(p, mid, rest);
      { FeedAppend(p, mid, one, rest[1..]); }
      Feed(p, over, rest[1..]);
      { FeedHalted(p, over, rest[1..]); }
      over;
    }
  }
}
