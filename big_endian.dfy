/**
 * Emission of 16-bit baseband values as two bytes each, most significant
 * byte first: for each value `b`, the byte `(b & 0xFF00) >> 8` and then the
 * byte `b & 0xFF`.
 */
module BigEndian {
  import opened Bytes

  /**
   * A baseband value, taken as its 16-bit pattern (two's complement for a
   * signed element type). The source promotes the value to `int` before
   * masking; both masks keep only bits within the low 16, so sign extension
   * never reaches a result and the pattern suffices.
   */
  type Word = x: int | 0 <= x < 0x1_0000

  /**
   * On a 16-bit pattern, `(w & 0xFF00) >> 8` is the quotient and `w & 0xFF`
   * the remainder of division by 256; `HighByte` and `LowByte` compute them
   * that way.
   */
  lemma MasksAreDivMod(w: bv16)
    ensures (w & 0xFF00) >> 8 == w / 0x100
    ensures w & 0xFF == w % 0x100
  {
  }

  /** Division by 256 commutes with reading the pattern as an unsigned integer. */
  lemma QuotientAsInt(w: bv16)
    ensures (w / 0x100) as int == (w as int) / 0x100
  {
  }

  /** Read as unsigned integers, quotient and remainder by 256 rebuild the pattern. */
  lemma DivModAsInt(w: bv16)
    ensures (w as int) == ((w / 0x100) as int) * 0x100 + ((w % 0x100) as int)
    ensures (w % 0x100) as int < 0x100
  {
  }

  /** The masks, read as unsigned integers, give exactly the bytes `HighByte` and `LowByte` compute. */
  lemma MasksAreBytes(w: bv16)
    ensures ((w & 0xFF00) >> 8) as int == HighByte(w as int)
    ensures (w & 0xFF) as int == LowByte(w as int)
  {
    MasksAreDivMod(w);
    QuotientAsInt(w);
    DivModAsInt(w);
    var r := (w % 0x100) as int;
    assert (w as int) == ((w / 0x100) as int) * 0x100 + r && 0 <= r < 0x100;
  }

  /** `uint8_t((b & 0xFF00) >> 8)`: the upper eight bits of the pattern. */
  function HighByte(b: Word): (h: Byte)
    ensures h * 0x100 <= b < h * 0x100 + 0x100
  {
    b / 0x100
  }

  /** `uint8_t(b & 0xFF)`: the lower eight bits of the pattern. */
  function LowByte(b: Word): (l: Byte)
    ensures (b - l) % 0x100 == 0
  {
    b % 0x100
  }

  /** How a reader of the stream puts a value back together from its two bytes. */
  function Join(high: Byte, low: Byte): Word {
    high * 0x100 + low
  }

  /** The two bytes written for one value, high byte first; they join back to the value. */
  function Pair(b: Word): (r: seq<Byte>)
    ensures |r| == 2 && Join(r[0], r[1]) == b
  {
    [HighByte(b), LowByte(b)]
  }

  /** Joining two bytes and splitting the result again gives the same two bytes. */
  lemma SplitJoin(high: Byte, low: Byte)
    ensures HighByte(Join(high, low)) == high && LowByte(Join(high, low)) == low
  {
  }

  /** The bytes written for a whole baseband buffer, value by value. */
  function Serialize(bs: seq<Word>): (r: seq<Byte>)
    ensures |r| == 2 * |bs|
    ensures forall i :: 0 <= i < |bs| ==> r[2 * i] == HighByte(bs[i]) && r[2 * i + 1] == LowByte(bs[i])
  {
    if bs == [] then [] else Pair(bs[0]) + Serialize(bs[1..])
  }

  /** How a reader of the stream recovers the values: byte pairs, high byte first. */
  function Words(bytes: seq<Byte>): (r: seq<Word>)
    requires |bytes| % 2 == 0
    ensures |r| == |bytes| / 2
    ensures forall i :: 0 <= i < |r| ==> r[i] == Join(bytes[2 * i], bytes[2 * i + 1])
  {
    if bytes == [] then [] else [Join(bytes[0], bytes[1])] + Words(bytes[2..])
  }

  /** Serialisation distributes over concatenation of buffers. */
  lemma {:induction false} SerializeAppend(a: seq<Word>, b: seq<Word>)
    ensures Serialize(a + b) == Serialize(a) + Serialize(b)
  {
    if a != [] {
      calc {
        Serialize(a + b);
        { assert (a + b)[1..] == a[1..] + b; }
        Pair(a[0]) + Serialize(a[1..] + b);
        { SerializeAppend(a[1..], b); }
        Pair(a[0]) + Serialize(a[1..]) + Serialize(b);
      }
    } else {
      assert a + b == b;
    }
  }

  /** Reading the emitted bytes back gives every value, in order. */
  lemma {:induction false} WordsSerialize(bs: seq<Word>)
    ensures Words(Serialize(bs)) == bs
  {
    if bs != [] {
      var p, rest := Pair(bs[0]), Serialize(bs[1..]);
      assert Words(Serialize(bs)) == [Join(p[0], p[1])] + Words(rest) by {
        var r := p + rest;
        assert Serialize(bs) == r;
        assert r[2..] == rest && r[0] == p[0] && r[1] == p[1];
      }
      WordsSerialize(bs[1..]);
    }
  }

  /** Every stream of byte pairs is what some baseband buffer emits: the values read from it. */
  lemma {:induction false} SerializeWords(bytes: seq<Byte>)
    requires |bytes| % 2 == 0
    ensures Serialize(Words(bytes)) == bytes
    decreases |bytes|
  {
    if bytes != [] {
      var w := Join(bytes[0], bytes[1]);
      assert Words(bytes) == [w] + Words(bytes[2..]);
      assert Words(bytes)[1..] == Words(bytes[2..]);
      SplitJoin(bytes[0], bytes[1]);
      SerializeWords(bytes[2..]);
      assert bytes == [bytes[0], bytes[1]] + bytes[2..];
    }
  }

  /**
   * The loop `for (auto b : baseband) std::cout << hi << lo;`, collecting
   * what it writes.
   */
  method WriteBaseband(baseband: seq<Word>) returns (bytes: seq<Byte>)
    ensures bytes == Serialize(baseband)
  {
    bytes := [];
    for i := 0 to |baseband|
      invariant bytes == Serialize(baseband[..i])
    {
      var b := baseband[i];
      bytes := bytes + [HighByte(b)] + [LowByte(b)];
      assert baseband[..i + 1] == baseband[..i] + [b];
      SerializeAppend(baseband[..i], [b]);
    }
    assert baseband[..|baseband|] == baseband;
  }
}
