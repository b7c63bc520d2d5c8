/**
 * The frame assembler as evidently intended: the cursor goes back to the
 * start of the buffer after every full frame, in both output modes. With
 * that reset no write leaves the buffer. In baseband mode each full frame
 * is written out exactly once and the bits of an unfinished frame stay
 * buffered. In bitstream mode every bit is written as it arrives and each
 * full frame is flushed.
 */
module CorrectedFraming {
  import opened Wrappers
  import opened Bytes
  import opened BigEndian
  import opened FrameSpec

  /**
   * The loop body with `index = 0` once a frame is complete. A cursor inside
   * the buffer stays inside it, so the step never overruns.
   */
  function StepFixed(p: Params, s: State, got: Option<Byte>): (r: State)
    requires Shaped(p, s)
    ensures Shaped(p, r)
    ensures s.output <= r.output
    ensures s.phase != Overrun && s.index < p.n ==> r.phase != Overrun && r.index < p.n
  {
    var t := Step(p, s, got);
    if t.phase == Running && t.index == p.n then t.(index := 0) else t
  }

  /**
   * The corrected loop fed the successive results of `get`, oldest first:
   * started with the cursor inside the buffer, it never overruns, whatever
   * `get` returns.
   */
  function FeedFixed(p: Params, s: State, events: seq<Option<Byte>>): (r: State)
    requires Shaped(p, s)
    ensures Shaped(p, r)
    ensures s.output <= r.output
    ensures s.phase != Overrun && s.index < p.n ==> r.phase != Overrun && r.index < p.n
    decreases |events|
  {
    if events == [] then s
    else StepFixed(p, FeedFixed(p, s, events[..|events| - 1]), events[|events| - 1])
  }

  /** The consecutive full frames at the front of `bits`. */
  function Frames(bits: seq<Byte>, n: nat): (r: seq<seq<Byte>>)
    requires n > 0
    ensures forall i :: 0 <= i < |r| ==> |r[i]| == n
    decreases |bits|
  {
    if |bits| < n then [] else [bits[..n]] + Frames(bits[n..], n)
  }

  /** The bits after the last full frame. */
  function Leftover(bits: seq<Byte>, n: nat): (r: seq<Byte>)
    requires n > 0
    ensures |r| < n
    decreases |bits|
  {
    if |bits| < n then bits else Leftover(bits[n..], n)
  }

  /** The frames one after the other. */
  function Flatten(frames: seq<seq<Byte>>): seq<Byte> {
    if frames == [] then [] else frames[0] + Flatten(frames[1..])
  }

  /** What baseband mode writes for a run of full frames. */
  function Emitted(p: Params, frames: seq<seq<Byte>>): seq<Byte> {
    if frames == [] then [] else Serialize(Modulate(p, frames[0])) + Emitted(p, frames[1..])
  }

  /**
   * Splitting into frames loses nothing: the full frames followed by the
   * leftover are the bits, and there are `|bits| / n` full frames with
   * `|bits| % n` bits left over.
   */
  lemma FramesSplit(bits: seq<Byte>, n: nat)
    requires n > 0
    ensures Flatten(Frames(bits, n)) + Leftover(bits, n) == bits
    ensures |Frames(bits, n)| * n + |Leftover(bits, n)| == |bits|
  {
    FramesConcat(bits, n);
    FramesLength(bits, n);
  }

  lemma {:induction false} FramesConcat(bits: seq<Byte>, n: nat)
    requires n > 0
    ensures Flatten(Frames(bits, n)) + Leftover(bits, n) == bits
    decreases |bits|
  {
    if |bits| >= n {
      var first, later := bits[..n], bits[n..];
      var fs := Frames(later, n);
      FramesConcat(later, n);
      assert Frames(bits, n) == [first] + fs;
      assert Flatten([first] + fs) == first + Flatten(fs) by {
        assert ([first] + fs)[1..] == fs;
      }
      assert first + (Flatten(fs) + Leftover(later, n)) == bits;
    }
  }

  lemma {:induction false} FramesLength(bits: seq<Byte>, n: nat)
    requires n > 0
    ensures |Frames(bits, n)| * n + |Leftover(bits, n)| == |bits|
    decreases |bits|
  {
    if |bits| >= n {
      var q := |Frames(bits[n..], n)|;
      FramesLength(bits[n..], n);
      assert |Frames(bits, n)| == q + 1;
      assert (q + 1) * n == q * n + n;
    }
  }

  /** The two lengths of `FramesSplit` are the quotient and the remainder. */
  lemma FrameCount(bits: seq<Byte>, n: nat)
    requires n > 0
    ensures |Frames(bits, n)| == |bits| / n && |Leftover(bits, n)| == |bits| % n
  {
    FramesSplit(bits, n);
    DivModUnique(|bits|, n, |Frames(bits, n)|, |Leftover(bits, n)|);
  }

  lemma {:induction false} MulAtLeast(d: nat, n: nat)
    requires d >= 1
    ensures d * n >= n
    decreases d
  {
    if d > 1 {
      MulAtLeast(d - 1, n);
      assert d * n == (d - 1) * n + n;
    }
  }

  lemma DivModUnique(x: nat, n: nat, q: nat, r: nat)
    requires n > 0 && r < n && q * n + r == x
    ensures x / n == q && x % n == r
  {
    var q', r' := x / n, x % n;
    assert x == q' * n + r';
    if q > q' {
      assert q * n == q' * n + (q - q') * n;
      MulAtLeast(q - q', n);
    } else if q < q' {
      assert q' * n == q * n + (q' - q) * n;
      MulAtLeast(q' - q, n);
    }
  }

  /** Feeding two batches is feeding the first, then the second. */
  lemma {:induction false} FeedFixedAppend(p: Params, s: State, a: seq<Option<Byte>>, b: seq<Option<Byte>>)
    requires Shaped(p, s)
    ensures FeedFixed(p, s, a + b) == FeedFixed(p, FeedFixed(p, s, a), b)
    decreases |b|
  {
    if b == [] {
      assert a + b == a;
    } else {
      var ab := a + b;
      assert ab[..|ab| - 1] == a + b[..|b| - 1];
      assert ab[|ab| - 1] == b[|b| - 1];
      FeedFixedAppend(p, s, a, b[..|b| - 1]);
    }
  }

  /** The state a frame starts from: cursor at the front, all output flushed. */
  predicate AtBoundary(p: Params, s: State) {
    Shaped(p, s) && s.phase == Running && s.index == 0 && s.flushed == |s.output|
  }

  /** The bits of an unfinished frame fill the buffer from the cursor on. */
  lemma FixedFill(p: Params, s: State, bits: seq<Byte>)
    requires Shaped(p, s) && s.phase == Running && s.index + |bits| < p.n
    ensures FeedFixed(p, s, Received(bits)) ==
            if p.mode == Bitstream then s.(index := s.index + |bits|, output := s.output + bits)
            else s.(index := s.index + |bits|, frame := s.frame[..s.index] + bits + s.frame[s.index + |bits|..])
  {
    if p.mode == Bitstream {
      FixedFillBitstream(p, s, bits);
    } else {
      FixedFillBaseband(p, s, bits);
    }
  }

  /** Bitstream bits that do not complete a frame go straight out; nothing is flushed. */
  lemma {:induction false} FixedFillBitstream(p: Params, s: State, bits: seq<Byte>)
    requires Shaped(p, s) && s.phase == Running && s.index + |bits| < p.n && p.mode == Bitstream
    ensures FeedFixed(p, s, Received(bits)) == s.(index := s.index + |bits|, output := s.output + bits)
    decreases |bits|
  {
    if bits == [] {
      assert s.output + bits == s.output;
    } else {
      var k := |bits| - 1;
      var t := FeedFixed(p, s, Received(bits[..k]));
      assert FeedFixed(p, s, Received(bits)) == StepFixed(p, t, Some(bits[k])) by {
        ReceivedSnoc(bits);
      }
      FixedFillBitstream(p, s, bits[..k]);
      assert s.output + bits[..k] + [bits[k]] == s.output + bits;
    }
  }

  /** Baseband bits that do not complete a frame are stored from the cursor on; nothing is written. */
  lemma {:induction false} FixedFillBaseband(p: Params, s: State, bits: seq<Byte>)
    requires Shaped(p, s) && s.phase == Running && s.index + |bits| < p.n && p.mode == Baseband
    ensures FeedFixed(p, s, Received(bits)) ==
            s.(index := s.index + |bits|, frame := s.frame[..s.index] + bits + s.frame[s.index + |bits|..])
    decreases |bits|
  {
    if bits == [] {
      assert s.frame[..s.index] + s.frame[s.index..] == s.frame;
    } else {
      var k := |bits| - 1;
      var t := FeedFixed(p, s, Received(bits[..k]));
      assert FeedFixed(p, s, Received(bits)) == StepFixed(p, t, Some(bits[k])) by {
        ReceivedSnoc(bits);
      }
      FixedFillBaseband(p, s, bits[..k]);
      FixedStoreLast(p, s, bits, t);
    }
  }

  /** The last bit of an unfinished baseband run extends the stored run by one cell. */
  lemma FixedStoreLast(p: Params, s: State, bits: seq<Byte>, t: State)
    requires Shaped(p, s) && s.phase == Running && p.mode == Baseband
    requires bits != [] && s.index + |bits| < p.n
    requires t == s.(index := s.index + |bits| - 1,
                     frame := s.frame[..s.index] + bits[..|bits| - 1] + s.frame[s.index + |bits| - 1..])
    ensures StepFixed(p, t, Some(bits[|bits| - 1])) ==
            s.(index := s.index + |bits|, frame := s.frame[..s.index] + bits + s.frame[s.index + |bits|..])
  {
    var k := |bits| - 1;
    var u := t.(index := t.index + 1, frame := t.frame[t.index := bits[k]]);
    assert StepFixed(p, t, Some(bits[k])) == u by {
      BasebandStore(p, t, bits[k]);
    }
    assert u.frame == s.frame[..s.index] + bits + s.frame[s.index + |bits|..] by {
      SpliceStep(s.frame, s.index, bits[..k], bits[k]);
      assert bits[..k] + [bits[k]] == bits;
    }
  }

  /** The last bit of the frame in bitstream mode from a boundary: flushed, cursor back at the front. */
  lemma FixedFrameBitstream(p: Params, s: State, frame: seq<Byte>)
    requires AtBoundary(p, s) && |frame| == p.n > 0 && p.mode == Bitstream
    ensures FeedFixed(p, s, Received(frame)) == s.(output := s.output + frame, flushed := |s.output| + p.n)
  {
    var k := |frame| - 1;
    var t := FeedFixed(p, s, Received(frame[..k]));
    assert FeedFixed(p, s, Received(frame)) == StepFixed(p, t, Some(frame[k])) by {
      ReceivedSnoc(frame);
    }
    assert t == s.(index := k, output := s.output + frame[..k]) by {
      FixedFill(p, s, frame[..k]);
    }
    var out := s.output + frame[..k] + [frame[k]];
    assert Step(p, t, Some(frame[k])) == t.(output := out, index := p.n, flushed := |out|);
    assert out == s.output + frame;
  }

  /** The last bit of the frame in baseband mode from a boundary: written out, cursor back at the front. */
  lemma FixedFrameBaseband(p: Params, s: State, frame: seq<Byte>)
    requires AtBoundary(p, s) && |frame| == p.n > 0 && p.mode == Baseband
    ensures var out := s.output + Serialize(Modulate(p, frame));
            FeedFixed(p, s, Received(frame)) == s.(frame := frame, output := out, flushed := |out|)
  {
    var k := |frame| - 1;
    var t := FeedFixed(p, s, Received(frame[..k]));
    assert FeedFixed(p, s, Received(frame)) == StepFixed(p, t, Some(frame[k])) by {
      ReceivedSnoc(frame);
    }
    assert t == s.(index := k, frame := frame[..k] + s.frame[k..]) by {
      FixedFill(p, s, frame[..k]);
      assert s.frame[..0] + frame[..k] + s.frame[k..] == frame[..k] + s.frame[k..];
    }
    assert t.frame[k := frame[k]] == frame;
    var out := s.output + Serialize(Modulate(p, frame));
    assert Step(p, t, Some(frame[k])) == t.(frame := frame, index := p.n, output := out, flushed := |out|);
  }

  /** The leftover of bits with at least one full frame is the leftover of what follows it. */
  lemma LeftoverAfterFrame(bits: seq<Byte>, n: nat)
    requires n > 0 && |bits| >= n
    ensures Leftover(bits, n) == Leftover(bits[n..], n)
    ensures Frames(bits, n) == [bits[..n]] + Frames(bits[n..], n)
  {
  }

  lemma EmittedCons(p: Params, f: seq<Byte>, rest: seq<seq<Byte>>)
    ensures Emitted(p, [f] + rest) == Serialize(Modulate(p, f)) + Emitted(p, rest)
  {
    assert ([f] + rest)[1..] == rest;
  }

  /**
   * What bitstream mode has done after `bits` from a boundary state `s`:
   * every bit written in order, the full frames flushed, the cursor counting
   * the leftover, the buffer untouched.
   */
  predicate BitstreamAfter(p: Params, s: State, bits: seq<Byte>, r: State)
    requires p.n > 0
  {
    var left := Leftover(bits, p.n);
    |left| <= |bits| &&
    r == s.(index := |left|, output := s.output + bits, flushed := |s.output| + |bits| - |left|)
  }

  /**
   * Frame completeness of the corrected loop in bitstream mode, from a frame
   * boundary.
   */
  lemma {:induction false} FixedBitstreamFrom(p: Params, s: State, bits: seq<Byte>)
    requires AtBoundary(p, s) && p.n > 0 && p.mode == Bitstream
    ensures BitstreamAfter(p, s, bits, FeedFixed(p, s, Received(bits)))
    decreases |bits|
  {
    if |bits| < p.n {
      FixedFill(p, s, bits);
    } else {
      var first, later := bits[..p.n], bits[p.n..];
      var mid := FeedFixed(p, s, Received(first));
      assert FeedFixed(p, s, Received(bits)) == FeedFixed(p, mid, Received(later)) by {
        assert bits == first + later;
        ReceivedAppend(first, later);
        FeedFixedAppend(p, s, Received(first), Received(later));
      }
      assert mid == s.(output := s.output + first, flushed := |s.output| + p.n) by {
        FixedFrameBitstream(p, s, first);
      }
      FixedBitstreamFrom(p, mid, later);
      FixedBitstreamRest(p, s, mid, FeedFixed(p, mid, Received(later)), bits);
    }
  }

  /** What follows the first frame, after that frame's bits. */
  lemma FixedBitstreamRest(p: Params, s: State, mid: State, r: State, bits: seq<Byte>)
    requires |bits| >= p.n > 0
    requires mid == s.(output := s.output + bits[..p.n], flushed := |s.output| + p.n)
    requires BitstreamAfter(p, mid, bits[p.n..], r)
    ensures BitstreamAfter(p, s, bits, r)
  {
    LeftoverAfterFrame(bits, p.n);
    assert bits == bits[..p.n] + bits[p.n..];
    assert mid.output + bits[p.n..] == s.output + bits;
  }

  /**
   * What baseband mode has done after `bits` from a boundary state `s`: every
   * full frame written out once and in order, the leftover at the front of
   * the buffer with the cursor counting it, everything written flushed.
   */
  predicate BasebandAfter(p: Params, s: State, bits: seq<Byte>, r: State)
    requires p.n > 0
  {
    var left := Leftover(bits, p.n);
    r.phase == Running && r.index == |left| && |left| <= |r.frame| && r.frame[..|left|] == left &&
    r.output == s.output + Emitted(p, Frames(bits, p.n)) && r.flushed == |r.output|
  }

  /**
   * Frame completeness of the corrected loop in baseband mode, from a frame
   * boundary, and so no write ever leaves the buffer.
   */
  lemma {:induction false} FixedBasebandFrom(p: Params, s: State, bits: seq<Byte>)
    requires AtBoundary(p, s) && p.n > 0 && p.mode == Baseband
    ensures BasebandAfter(p, s, bits, FeedFixed(p, s, Received(bits)))
    decreases |bits|
  {
    if |bits| < p.n {
      FixedBasebandPartial(p, s, bits);
    } else {
      var first, later := bits[..p.n], bits[p.n..];
      var mid := FeedFixed(p, s, Received(first));
      FixedBasebandFirst(p, s, bits);
      FixedBasebandFrom(p, mid, later);
      FixedBasebandRest(p, s, mid, FeedFixed(p, mid, Received(later)), bits);
    }
  }

  /** Fewer bits than a frame: they sit at the front of the buffer. */
  lemma FixedBasebandPartial(p: Params, s: State, bits: seq<Byte>)
    requires AtBoundary(p, s) && p.mode == Baseband && |bits| < p.n
    ensures BasebandAfter(p, s, bits, FeedFixed(p, s, Received(bits)))
  {
    FixedFill(p, s, bits);
    var f := s.frame[..0] + bits + s.frame[|bits|..];
    assert FeedFixed(p, s, Received(bits)) == s.(index := |bits|, frame := f);
    assert f[..|bits|] == bits;
    assert Frames(bits, p.n) == [] && Leftover(bits, p.n) == bits;
    assert s.output + Emitted(p, []) == s.output;
  }

  /** The first full frame takes the loop to the next boundary. */
  lemma FixedBasebandFirst(p: Params, s: State, bits: seq<Byte>)
    requires AtBoundary(p, s) && p.mode == Baseband && |bits| >= p.n > 0
    ensures var mid := FeedFixed(p, s, Received(bits[..p.n]));
            AtBoundary(p, mid) && mid.output == s.output + Serialize(Modulate(p, bits[..p.n])) &&
            FeedFixed(p, s, Received(bits)) == FeedFixed(p, mid, Received(bits[p.n..]))
  {
    var first, later := bits[..p.n], bits[p.n..];
    assert bits == first + later;
    ReceivedAppend(first, later);
    FeedFixedAppend(p, s, Received(first), Received(later));
    FixedFrameBaseband(p, s, first);
  }

  /** What follows the first frame, prefixed by that frame's bytes. */
  lemma FixedBasebandRest(p: Params, s: State, mid: State, r: State, bits: seq<Byte>)
    requires |bits| >= p.n > 0
    requires mid.output == s.output + Serialize(Modulate(p, bits[..p.n]))
    requires BasebandAfter(p, mid, bits[p.n..], r)
    ensures BasebandAfter(p, s, bits, r)
  {
    var first, later := bits[..p.n], bits[p.n..];
    LeftoverAfterFrame(bits, p.n);
    EmittedCons(p, first, Frames(later, p.n));
    var ser, rest := Serialize(Modulate(p, first)), Emitted(p, Frames(later, p.n));
    assert Emitted(p, Frames(bits, p.n)) == ser + rest;
    assert (s.output + ser) + rest == s.output + (ser + rest);
  }

  /** The counts of a baseband outcome from the first entry. */
  lemma BasebandCounts(p: Params, init: seq<Byte>, bits: seq<Byte>, r: State)
    requires p.n > 0 && BasebandAfter(p, Start(init), bits, r)
    ensures r.index == |bits| % p.n && |Frames(bits, p.n)| == |bits| / p.n
    ensures r.frame[..r.index] == bits[|bits| - r.index..]
    ensures r.output == Emitted(p, Frames(bits, p.n))
  {
    var left := Leftover(bits, p.n);
    FrameCount(bits, p.n);
    FramesSplit(bits, p.n);
    var full := Flatten(Frames(bits, p.n));
    assert full + left == bits;
    assert bits[|full|..] == left;
    assert [] + Emitted(p, Frames(bits, p.n)) == Emitted(p, Frames(bits, p.n));
  }

  /**
   * The corrected loop from its first entry, for any number B of bits; in
   * both modes the cursor ends at B % n. Baseband mode writes out exactly
   * B / n frames and keeps the last B % n bits at the front of the buffer.
   * Bitstream mode writes all B bits in order as they arrive, flushes the
   * first (B / n) * n of them, and never touches the buffer.
   */
  lemma FixedFeed(p: Params, init: seq<Byte>, bits: seq<Byte>)
    requires p.n > 0 && |init| == p.n
    ensures var r := FeedFixed(p, Start(init), Received(bits));
            r.phase == Running && r.index == |bits| % p.n &&
            |Frames(bits, p.n)| == |bits| / p.n &&
            (p.mode == Bitstream ==> r.output == bits && r.flushed == |bits| - |bits| % p.n && r.frame == init) &&
            (p.mode == Baseband ==> r.output == Emitted(p, Frames(bits, p.n)) && r.flushed == |r.output| &&
                                    r.frame[..r.index] == bits[|bits| - r.index..])
  {
    var r := FeedFixed(p, Start(init), Received(bits));
    FrameCount(bits, p.n);
    if p.mode == Bitstream {
      FixedBitstreamFrom(p, Start(init), bits);
      assert [] + bits == bits;
      assert r.flushed == |bits| - |Leftover(bits, p.n)|;
    } else {
      FixedBasebandFrom(p, Start(init), bits);
      BasebandCounts(p, init, bits, r);
    }
  }
}
