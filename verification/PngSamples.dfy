/** Expansion of the samples of a rebuilt scanline into a row of output pixels, with an opaque
    alpha channel added where one is wanted. */
module PngSamples {
  import opened BitStream
  import opened MsbBits

  // ---------------------------------------------------------------------------------------
  // What the samples are (section 7.2 of the PNG specification)

  predicate DepthOk(depth: nat) {
    depth == 1 || depth == 2 || depth == 4 || depth == 8 || depth == 16
  }

  /** How many bytes hold n samples. */
  function BytesFor(n: nat, depth: nat): nat {
    (n * depth + 7) / 8
  }

  /** Sample k of a row. */
  function Sample(row: seq<byte>, depth: nat, k: nat): nat {
    Digits(row, k * depth, depth)
  }

  /** Grey samples below eight bits are spread over the range of a byte. */
  function Scale(depth: nat, color: nat): nat {
    if depth >= 8 || color != 0 then 1 else if depth == 4 then 0x11 else if depth == 2 then 0x55 else 0xff
  }

  function Opaque(depth: nat): nat {
    if depth == 16 then 0xffff else 255
  }

  /** The scale maps the largest sample to 255. */
  lemma ScaleIsExact(depth: nat)
    requires depth == 1 || depth == 2 || depth == 4
    ensures Scale(depth, 0) * (Pow2(depth) - 1) == 255
  {
    assert Pow2(1) == 2 && Pow2(2) == 4 && Pow2(4) == 16;
  }

  // ---------------------------------------------------------------------------------------
  // Shifting the bits out of a byte

  /** A byte after its s highest bits are shifted out. */
  function Shifted(b: byte, s: nat): byte {
    if s == 0 then b else (2 * Shifted(b, s - 1)) % 256
  }

  function HighBits(b: byte, depth: nat): nat {
    if depth == 4 then b / 16 else if depth == 2 then b / 64 else b / 128
  }

  function ShiftOut(b: byte, depth: nat): byte {
    if depth == 4 then (16 * b) % 256 else if depth == 2 then (4 * b) % 256 else (2 * b) % 256
  }

  datatype Bits = Bits(b7: nat, b6: nat, b5: nat, b4: nat, b3: nat, b2: nat, b1: nat, b0: nat)

  predicate Binary(v: Bits) {
    && v.b7 < 2 && v.b6 < 2 && v.b5 < 2 && v.b4 < 2 && v.b3 < 2 && v.b2 < 2 && v.b1 < 2 && v.b0 < 2
  }

  function Value(v: Bits): int {
    128 * v.b7 + 64 * v.b6 + 32 * v.b5 + 16 * v.b4 + 8 * v.b3 + 4 * v.b2 + 2 * v.b1 + v.b0
  }

  function BitOf(v: Bits, s: nat): nat {
    if s == 0 then v.b7 else if s == 1 then v.b6 else if s == 2 then v.b5 else if s == 3 then v.b4
    else if s == 4 then v.b3 else if s == 5 then v.b2 else if s == 6 then v.b1 else v.b0
  }

  function Rotate(v: Bits): Bits {
    Bits(v.b6, v.b5, v.b4, v.b3, v.b2, v.b1, v.b0, 0)
  }

  lemma Decompose(b: byte) returns (v: Bits)
    ensures Binary(v) && Value(v) == b
  {
    var c1 := b / 2;
    var c2 := c1 / 2;
    var c3 := c2 / 2;
    var c4 := c3 / 2;
    var c5 := c4 / 2;
    var c6 := c5 / 2;
    var c7 := c6 / 2;
    v := Bits(c7, c6 - 2 * c7, c5 - 2 * c6, c4 - 2 * c5, c3 - 2 * c4, c2 - 2 * c3, c1 - 2 * c2, b - 2 * c1);
  }

  lemma Mod256(x: int, q: int, r: int)
    requires x == 256 * q + r && 0 <= r < 256
    ensures x % 256 == r
  {
  }

  lemma Div128(x: int, q: int, r: int)
    requires x == 128 * q + r && 0 <= r < 128
    ensures x / 128 == q
  {
  }

  lemma Div64(x: int, q: int, r: int)
    requires x == 64 * q + r && 0 <= r < 64
    ensures x / 64 == q
  {
  }

  lemma Div16(x: int, q: int, r: int)
    requires x == 16 * q + r && 0 <= r < 16
    ensures x / 16 == q
  {
  }

  lemma Twice(v: Bits)
    requires Binary(v)
    ensures (2 * Value(v)) % 256 == Value(Rotate(v)) && Binary(Rotate(v)) && 0 <= Value(v) < 256
    ensures Value(v) / 128 == v.b7
  {
    Mod256(2 * Value(v), v.b7, Value(Rotate(v)));
    Div128(Value(v), v.b7, Value(v) - 128 * v.b7);
  }

  lemma {:induction false} ShiftedBits(v: Bits, b: byte, s: nat)
    requires Binary(v) && Value(v) == b && s < 8
    ensures Shifted(b, s) / 128 == BitOf(v, s)
    decreases s
  {
    hide Value, Binary;
    Twice(v);
    if s == 0 {
    } else {
      ShiftedBits(Rotate(v), (2 * b) % 256, s - 1);
      ShiftedFirst(b, s);
      assert BitOf(Rotate(v), s - 1) == BitOf(v, s);
    }
  }

  lemma {:induction false} ShiftedFirst(b: byte, s: nat)
    requires s > 0
    ensures Shifted(b, s) == Shifted((2 * b) % 256, s - 1)
  {
    if s <= 1 {
    } else {
      ShiftedFirst(b, s - 1);
    }
  }

  function Halve(v: Bits): Bits {
    Bits(0, v.b7, v.b6, v.b5, v.b4, v.b3, v.b2, v.b1)
  }

  lemma Halves(v: Bits)
    requires Binary(v)
    ensures 0 <= Value(v) && Value(v) / 2 == Value(Halve(v)) && Value(v) % 2 == v.b0 && Binary(Halve(v))
  {
    assert Value(v) == 2 * Value(Halve(v)) + v.b0;
  }

  lemma {:induction false} HalvedBits(v: Bits, b: nat, n: nat)
    requires Binary(v) && Value(v) == b && n < 8
    ensures ShiftRight(b, n) % 2 == BitOf(v, 7 - n)
    decreases n
  {
    hide Value, Binary;
    Halves(v);
    if n == 0 {
    } else {
      HalvedBits(Halve(v), b / 2, n - 1);
      assert BitOf(Halve(v), 8 - n) == BitOf(v, 7 - n);
    }
  }

  /** The highest bit after s shifts is bit s. */
  lemma TopBit(b: byte, s: nat)
    requires s < 8
    ensures Shifted(b, s) / 128 == ShiftRight(b, 7 - s) % 2
  {
    var v := Decompose(b);
    ShiftedBits(v, b, s);
    HalvedBits(v, b, 7 - s);
    assert 7 - (7 - s) == s;
  }

  /** The highest bits of a byte, one by one. */
  lemma HighBitsAre(b: byte)
    ensures b / 64 == 2 * (b / 128) + ((2 * b) % 256) / 128
    ensures b / 16 == 4 * (b / 64) + ((4 * b) % 256) / 64
    ensures (2 * ((2 * b) % 256)) % 256 == (4 * b) % 256
    ensures (4 * ((4 * b) % 256)) % 256 == (16 * b) % 256
  {
    var v := Decompose(b);
    HighOfBits(v);
  }

  lemma HighOfBits(v: Bits)
    requires Binary(v)
    ensures var b := Value(v);
      && b / 64 == 2 * (b / 128) + ((2 * b) % 256) / 128
      && b / 16 == 4 * (b / 64) + ((4 * b) % 256) / 64
      && (2 * ((2 * b) % 256)) % 256 == (4 * b) % 256
      && (4 * ((4 * b) % 256)) % 256 == (16 * b) % 256
  {
    hide Value, Binary;
    var v1, v2 := Rotate(v), Rotate(Rotate(v));
    Twice(v);
    Twice(v1);
    TwoBits(v);
    TwoBits(v2);
    FourBits(v);
  }

  lemma TwoBits(v: Bits)
    requires Binary(v)
    ensures Value(v) / 64 == 2 * v.b7 + v.b6
    ensures (4 * Value(v)) % 256 == Value(Rotate(Rotate(v))) && Binary(Rotate(Rotate(v)))
  {
    var q := 2 * v.b7 + v.b6;
    Div64(Value(v), q, Value(v) - 64 * q);
    Mod256(4 * Value(v), q, Value(Rotate(Rotate(v))));
  }

  lemma FourBits(v: Bits)
    requires Binary(v)
    ensures Value(v) / 16 == 8 * v.b7 + 4 * v.b6 + 2 * v.b5 + v.b4
    ensures (16 * Value(v)) % 256 == Value(Rotate(Rotate(Rotate(Rotate(v)))))
  {
    var q, low := 8 * v.b7 + 4 * v.b6 + 2 * v.b5 + v.b4, 8 * v.b3 + 4 * v.b2 + 2 * v.b1 + v.b0;
    Div16(Value(v), q, low);
    Mod256(16 * Value(v), q, 16 * low);
  }

  /** Samples of fewer than eight bits come off the top of the shifted byte. */
  lemma {:induction false} SampleOnTop(row: seq<byte>, depth: nat, at: nat, s: nat)
    requires depth == 1 || depth == 2 || depth == 4
    requires s + depth <= 8
    ensures var v := Shifted(ByteAt(row, at), s);
      && HighBits(v, depth) == Digits(row, 8 * at + s, depth)
      && ShiftOut(v, depth) == Shifted(ByteAt(row, at), s + depth)
    decreases depth
  {
    hide BitAt;
    var v := Shifted(ByteAt(row, at), s);
    if depth == 1 {
      TopAt(row, at, s);
    } else {
      var half := if depth == 2 then 1 else 2;
      hide Digits, Shifted;
      SampleOnTop(row, half, at, s);
      SampleOnTop(row, half, at, s + half);
      HighBitsAre(v);
      DigitsSplit(row, 8 * at + s, half, half);
      FewLeft(Digits(row, 8 * at + s, half));
    }
  }

  lemma TopAt(row: seq<byte>, at: nat, s: nat)
    requires s < 8
    ensures Shifted(ByteAt(row, at), s) / 128 == BitAt(row, 8 * at + s)
  {
    TopBit(ByteAt(row, at), s);
    assert (8 * at + s) / 8 == at && (8 * at + s) % 8 == s;
  }

  // ---------------------------------------------------------------------------------------
  // Whole bytes

  lemma WideSample(row: seq<byte>, k: nat)
    ensures Sample(row, 8, k) == ByteAt(row, k)
    ensures Sample(row, 16, k) == 256 * ByteAt(row, 2 * k) + ByteAt(row, 2 * k + 1)
  {
    hide Digits;
    DigitsInByte(row, k, 8);
    DigitsInByte(row, 2 * k, 8);
    DigitsInByte(row, 2 * k + 1, 8);
    DigitsSplit(row, 16 * k, 8, 8);
    var high := Digits(row, 16 * k, 8);
    FewLeft(high);
  }

  /** Where a small sample is: the byte, and how far into it. */
  function ByteOf(k: nat, depth: nat): nat {
    if depth == 4 then k / 2 else if depth == 2 then k / 4 else k / 8
  }

  function PhaseOf(k: nat, depth: nat): nat {
    if depth == 4 then 4 * (k % 2) else if depth == 2 then 2 * (k % 4) else k % 8
  }

  lemma SmallSample(row: seq<byte>, depth: nat, k: nat)
    requires depth == 1 || depth == 2 || depth == 4
    ensures PhaseOf(k, depth) + depth <= 8
    ensures var v := Shifted(ByteAt(row, ByteOf(k, depth)), PhaseOf(k, depth));
      && Sample(row, depth, k) == HighBits(v, depth)
      && (if PhaseOf(k + 1, depth) == 0 then ByteOf(k + 1, depth) == ByteOf(k, depth) + 1
         else ByteOf(k + 1, depth) == ByteOf(k, depth)
              && ShiftOut(v, depth) == Shifted(ByteAt(row, ByteOf(k + 1, depth)), PhaseOf(k + 1, depth)))
  {
    hide Digits, Shifted, HighBits, ShiftOut;
    SampleOnTop(row, depth, ByteOf(k, depth), PhaseOf(k, depth));
    assert k * depth == 8 * ByteOf(k, depth) + PhaseOf(k, depth) by {
      hide *;
      Positions(k, depth);
    }
    Positions(k, depth);
    Positions(k + 1, depth);
  }

  lemma Positions(k: nat, depth: nat)
    requires depth == 1 || depth == 2 || depth == 4
    ensures k * depth == 8 * ByteOf(k, depth) + PhaseOf(k, depth) && PhaseOf(k, depth) + depth <= 8
    ensures if PhaseOf(k + 1, depth) == 0 then ByteOf(k + 1, depth) == ByteOf(k, depth) + 1
      else ByteOf(k + 1, depth) == ByteOf(k, depth) && PhaseOf(k + 1, depth) == PhaseOf(k, depth) + depth
  {
    if depth == 1 {
    } else if depth == 2 {
    } else {
    }
  }
}
