/** Reading symbols and coefficients of JPEG from the 32 bits that are buffered, highest first. */
module JpegDecode {
  import opened BitStream
  import opened JpegCode
  import opened JpegHuffman

  const WORD: nat := 0x1_0000_0000

  /** A buffer with its n highest bits shifted out. */
  function Shl(buffer: nat, n: nat): nat {
    LowBits(ShiftLeft(buffer, n), 32)
  }

  /** The n highest bits of a buffer. */
  function Top(buffer: nat, n: nat): nat
    requires n <= 32
  {
    ShiftRight(buffer, 32 - n)
  }

  // ---------------------------------------------------------------------------------------
  // Shifts

  lemma ThirtyTwo()
    ensures Pow2(32) == WORD
  {
    SixteenBits();
    ShiftPow2(16, 16);
    assert Pow2(16) == 0x1_0000;
    ShiftLeftSixteen(0x1_0000);
  }

  lemma ShiftLeftSixteen(v: nat)
    ensures ShiftLeft(v, 16) == 0x1_0000 * v
  {
    FourLeft(v, 0);
    FourLeft(v, 4);
    FourLeft(v, 8);
    FourLeft(v, 12);
    Unshifted(v);
  }

  lemma FourLeft(v: nat, n: nat)
    ensures ShiftLeft(v, n + 4) == 16 * ShiftLeft(v, n)
  {
    OneLeft(v, n);
    OneLeft(v, n + 1);
    OneLeft(v, n + 2);
    OneLeft(v, n + 3);
  }

  lemma OneLeft(v: nat, n: nat)
    ensures ShiftLeft(v, n + 1) == 2 * ShiftLeft(v, n)
  {
  }

  lemma TopRange(buffer: nat, n: nat)
    requires buffer < WORD && n <= 32
    ensures Top(buffer, n) < Pow2(n)
  {
    hide Pow2, ShiftLeft, ShiftRight;
    ThirtyTwo();
    ShiftPow2(n, 32 - n);
    ShiftLeftZero(32 - n);
    ShiftRightRange(buffer, 32 - n, 0, Pow2(n));
  }

  /** The highest bits of what is left after a shift are those that followed. */
  lemma {:induction false} LowThenRight(y: nat, a: nat, n: nat)
    ensures ShiftRight(LowBits(y, a + n), a) == LowBits(ShiftRight(y, a), n)
    decreases a
  {
    if a == 0 {
    } else {
      LowThenRight(y / 2, a - 1, n);
      assert a - 1 + n == a + n - 1;
      assert LowBits(y, a + n) / 2 == LowBits(y / 2, a + n - 1);
    }
  }

  lemma {:induction false} LeftThenRight(x: nat, s: nat, t: nat)
    ensures ShiftRight(ShiftLeft(x, s), s + t) == ShiftRight(x, t)
    decreases s
  {
    if s == 0 {
    } else {
      LeftThenRight(x, s - 1, t);
      assert 2 * ShiftLeft(x, s - 1) / 2 == ShiftLeft(x, s - 1);
      assert s + t - 1 == s - 1 + t;
    }
  }

  /** In a word of w bits: the n highest bits after a shift by s. */
  lemma ShiftedTop(x: nat, w: nat, s: nat, n: nat)
    requires s + n <= w
    ensures ShiftRight(LowBits(ShiftLeft(x, s), w), w - n) == LowBits(ShiftRight(x, w - s - n), n)
  {
    hide ShiftRight, LowBits, ShiftLeft;
    LowThenRight(ShiftLeft(x, s), w - n, n);
    assert w - n + n == w;
    LeftThenRight(x, s, w - s - n);
    assert s + (w - s - n) == w - n;
  }

  lemma LowHalves(y: nat, n: nat)
    requires n > 0
    ensures LowBits(y, n) == y % 2 + 2 * LowBits(y / 2, n - 1)
    ensures LowBits(y, n) % 2 == y % 2 && LowBits(y, n) / 2 == LowBits(y / 2, n - 1)
  {
  }

  lemma {:induction false} LowOfLow(y: nat, v: nat, w: nat)
    requires v >= w
    ensures LowBits(LowBits(y, v), w) == LowBits(y, w)
    decreases w
  {
    if w == 0 {
    } else {
      hide LowBits;
      LowHalves(y, v);
      LowHalves(y, w);
      LowHalves(LowBits(y, v), w);
      LowOfLow(y / 2, v - 1, w - 1);
    }
  }

  lemma LowOfDouble(z: nat, w: nat)
    requires w > 0
    ensures LowBits(2 * z, w) == 2 * LowBits(z, w - 1)
  {
    assert 2 * z / 2 == z && 2 * z % 2 == 0;
  }

  lemma {:induction false} LowOfShift(y: nat, v: nat, s: nat, w: nat)
    requires v >= w
    ensures LowBits(ShiftLeft(LowBits(y, v), s), w) == LowBits(ShiftLeft(y, s), w)
    decreases s
  {
    if s == 0 {
      LowOfLow(y, v, w);
    } else if w > 0 {
      LowOfShift(y, v, s - 1, w - 1);
      LowOfDouble(ShiftLeft(LowBits(y, v), s - 1), w);
      LowOfDouble(ShiftLeft(y, s - 1), w);
    }
  }

  lemma {:induction false} ShiftLeftTwice(x: nat, a: nat, b: nat)
    ensures ShiftLeft(ShiftLeft(x, a), b) == ShiftLeft(x, a + b)
    decreases b
  {
    if b == 0 {
    } else {
      ShiftLeftTwice(x, a, b - 1);
    }
  }

  /** Two shifts are one. */
  lemma ShlTwice(buffer: nat, a: nat, b: nat)
    ensures Shl(Shl(buffer, a), b) == Shl(buffer, a + b)
  {
    hide ShiftLeft, LowBits;
    LowOfShift(ShiftLeft(buffer, a), 32, b, 32);
    ShiftLeftTwice(buffer, a, b);
  }

  lemma ShlRange(buffer: nat, n: nat)
    ensures Shl(buffer, n) < WORD
  {
    hide Pow2, ShiftLeft, LowBits;
    ThirtyTwo();
  }

  // ---------------------------------------------------------------------------------------
  // Rotation

  /** The union of the bits of two numbers. */
  function Or(a: nat, b: nat): nat
    decreases a + b
  {
    if a == 0 && b == 0 then 0 else (if a % 2 == 1 || b % 2 == 1 then 1 else 0) + 2 * Or(a / 2, b / 2)
  }

  /** v with its n lowest bits cleared. */
  function ClearLow(v: nat, n: nat): nat
    decreases n, v
  {
    if n == 0 then v else 2 * ClearLow(v / 2, n - 1)
  }

  /** A buffer rotated left by n bits. */
  function Rotate(buffer: nat, n: nat): nat
    requires n <= 32
  {
    Or(Shl(buffer, n), ShiftRight(buffer, 32 - n))
  }

  lemma {:induction false} OrZero(a: nat)
    ensures Or(a, 0) == a
  {
    if a == 0 {
    } else {
      OrZero(a / 2);
    }
  }

  /** Numbers without a common bit. */
  lemma {:induction false} OrApart(a: nat, b: nat, n: nat)
    requires b < Pow2(n)
    ensures var v := Or(ShiftLeft(a, n), b);
      LowBits(v, n) == b && ClearLow(v, n) == ShiftLeft(a, n)
    decreases n
  {
    hide Or, LowBits, ClearLow;
    var half := b / 2;
    if n == 0 {
      OrZero(a);
      LowNone(a, b);
    } else {
      OrApart(a, half, n - 1);
      OrStep(ShiftLeft(a, n - 1), half, b % 2);
      LowStep(Or(ShiftLeft(a, n - 1), half), b % 2, n);
    }
  }

  lemma OrStep(a: nat, b: nat, bit: nat)
    requires bit < 2
    ensures Or(2 * a, bit + 2 * b) == bit + 2 * Or(a, b)
  {
    assert 2 * a / 2 == a && (bit + 2 * b) / 2 == b && (bit + 2 * b) % 2 == bit;
  }

  lemma LowStep(v: nat, bit: nat, n: nat)
    requires bit < 2 && n > 0
    ensures LowBits(bit + 2 * v, n) == bit + 2 * LowBits(v, n - 1)
    ensures ClearLow(bit + 2 * v, n) == 2 * ClearLow(v, n - 1)
  {
    assert (bit + 2 * v) / 2 == v && (bit + 2 * v) % 2 == bit;
  }

  lemma LowNone(a: nat, b: nat)
    requires b < Pow2(0)
    ensures b == 0 && LowBits(a, 0) == 0 && ClearLow(a, 0) == ShiftLeft(a, 0) == a
  {
  }

  lemma {:induction false} LowOfLeft(x: nat, n: nat, w: nat)
    requires n <= w
    ensures LowBits(ShiftLeft(x, n), w) == ShiftLeft(LowBits(x, w - n), n)
    decreases n
  {
    hide LowBits;
    if n == 0 {
    } else {
      LowOfLeft(x, n - 1, w - 1);
      LowOfDouble(ShiftLeft(x, n - 1), w);
      assert w - 1 - (n - 1) == w - n;
    }
  }

  /** A rotation brings the highest bits down, where masks keep or clear them. */
  lemma RotateIs(buffer: nat, n: nat)
    requires buffer < WORD && n <= 32
    ensures LowBits(Rotate(buffer, n), n) == Top(buffer, n)
    ensures ClearLow(Rotate(buffer, n), n) == Shl(buffer, n)
  {
    hide LowBits, ShiftLeft, ShiftRight, Or, ClearLow, Pow2;
    TopRange(buffer, n);
    LowOfLeft(buffer, n, 32);
    OrApart(LowBits(buffer, 32 - n), Top(buffer, n), n);
  }

  // ---------------------------------------------------------------------------------------
  // Signed values

  /** The value that n bits stand for (procedure EXTEND of T.81). */
  function Extend(v: nat, n: nat): int
    requires n > 0
  {
    if v < Pow2(n - 1) then v - Pow2(n) + 1 else v
  }

  lemma {:induction false} TopOfTop(v: nat, n: nat)
    ensures ShiftRight(v, n) == 0 <==> v < Pow2(n)
  {
    ShiftPow2(0, n);
    ShiftLeftZero(n);
    ShiftRightRange(v, n, 0, 1);
    assert Pow2(0) == 1;
  }

  /** The sign is the highest bit of the buffer. */
  lemma SignIs(buffer: nat, n: nat)
    requires buffer < WORD && 0 < n <= 32
    ensures ShiftRight(buffer, 31) == 0 <==> Top(buffer, n) < Pow2(n - 1)
  {
    hide Pow2, ShiftRight;
    ShiftRightTwice(buffer, 32 - n, n - 1);
    assert 32 - n + (n - 1) == 31;
    TopOfTop(Top(buffer, n), n - 1);
  }

  // ---------------------------------------------------------------------------------------
  // The combined table

  /** A run of zeros and the coefficient after it, and how many bits they took. */
  datatype Coefficient = Coefficient(run: nat, value: int, bits: nat)

  /** What decoding a symbol and then a value gives, when the first nine bits hold a code of the
      fast table. */
  function Slow(fast: seq<byte>, size: seq<nat>, values: seq<byte>, buffer: nat): Coefficient
    requires |fast| == 512 && |values| == 256 && |size| == 257 && buffer < WORD
    requires FastAt(fast, buffer) < 255 && size[FastAt(fast, buffer)] <= 16
  {
    var k := FastAt(fast, buffer);
    var n := values[k] % 16;
    Coefficient(values[k] / 16, if n == 0 then 0 else Extend(Top(Shl(buffer, size[k]), n), n), size[k] + n)
  }

  function FastAt(fast: seq<byte>, buffer: nat): (k: byte)
    requires |fast| == 512 && buffer < WORD
  {
    TopRange(buffer, 9);
    SixteenBits();
    fast[Top(buffer, 9)]
  }

  /** The entry of the combined table for a window of nine bits. */
  function AcEntry(fast: seq<byte>, size: seq<nat>, values: seq<byte>, i: nat): int
    requires |fast| == 512 && |values| == 256 && |size| == 257 && i < 512
  {
    if fast[i] < 255 then
      var rs: nat := values[fast[i]];
      var run, magbits, len := (rs / 16) % 16, rs % 16, size[fast[i]];
      if magbits != 0 && len + magbits <= FAST_BITS then
        var k := ShiftRight(LowBits(ShiftLeft(i, len), FAST_BITS), FAST_BITS - magbits);
        var m := Pow2(magbits - 1);
        var v := if k < m then k + (1 - Pow2(magbits)) else k;
        if -128 <= v <= 127 then v * 256 + run * 16 + (len + magbits) else 0
      else 0
    else 0
  }

  lemma Unpack(v: int, run: nat, s: nat)
    requires run < 16 && 0 < s < 16
    ensures var r := v * 256 + run * 16 + s; r != 0 && r / 256 == v && (r / 16) % 16 == run && r % 16 == s
  {
    var r := v * 256 + run * 16 + s;
    var q := v * 16 + run;
    assert r == 16 * q + s;
    assert r / 16 == q;
    assert q % 16 == run && q / 16 == v;
    assert r == 256 * v + (16 * run + s) && 16 * run + s < 256;
  }

  lemma EntryHolds(fast: seq<byte>, size: seq<nat>, values: seq<byte>, i: nat)
    requires |fast| == 512 && |values| == 256 && |size| == 257 && i < 512
    requires AcEntry(fast, size, values, i) != 0
    ensures fast[i] < 255
    ensures var rs: nat, len := values[fast[i]], size[fast[i]];
      && rs % 16 != 0 && len + rs % 16 <= 9 && rs / 16 < 16
      && AcEntry(fast, size, values, i) == rs / 16 * 16 + (len + rs % 16) +
        Extend(ShiftRight(LowBits(ShiftLeft(i, len), 9), 9 - rs % 16), rs % 16) * 256
  {
    hide ShiftLeft, ShiftRight, LowBits, Pow2;
  }

  /** Wherever the combined table has an entry, it is what decoding the symbol and then the value
      gives, and leaves the buffer that their two shifts leave, whatever the tables hold. */
  lemma FastAcIsSlow(fast: seq<byte>, size: seq<nat>, values: seq<byte>, buffer: nat)
    requires |fast| == 512 && |values| == 256 && |size| == 257 && buffer < WORD
    requires Top(buffer, 9) < 512 && AcEntry(fast, size, values, Top(buffer, 9)) != 0
    ensures var r := AcEntry(fast, size, values, Top(buffer, 9));
      && FastAt(fast, buffer) < 255 && size[FastAt(fast, buffer)] <= 16
      && Coefficient((r / 16) % 16, r / 256, r % 16) == Slow(fast, size, values, buffer)
      && r % 16 <= 9 && values[FastAt(fast, buffer)] % 16 != 0
    ensures var len, magbits := size[FastAt(fast, buffer)], values[FastAt(fast, buffer)] % 16;
      Shl(buffer, AcEntry(fast, size, values, Top(buffer, 9)) % 16) == Shl(Shl(buffer, len), magbits)
  {
    hide ShiftLeft, ShiftRight, LowBits, Pow2, AcEntry, Extend;
    var i := Top(buffer, 9);
    EntryHolds(fast, size, values, i);
    var rs: nat := values[fast[i]];
    var magbits, len := rs % 16, size[fast[i]];
    ShiftedTop(i, 9, len, magbits);
    ShiftedTop(buffer, 32, len, magbits);
    ShiftRightTwice(buffer, 23, 9 - len - magbits);
    assert 23 + (9 - len - magbits) == 32 - len - magbits;
    var k := ShiftRight(LowBits(ShiftLeft(i, len), 9), 9 - magbits);
    assert k == Top(Shl(buffer, len), magbits);
    ShlTwice(buffer, len, magbits);
    Unpack(Extend(k, magbits), rs / 16, len + magbits);
  }

  /** Builds the combined table. */
  method BuildFastAc(fastAc: array<int>, h: Huffman)
    requires h.Shape() && fastAc.Length == FAST_SIZE && fastAc != h.delta
    modifies fastAc
    ensures AcTable(fastAc, h)
  {
    hide ShiftLeft, ShiftRight, LowBits, Pow2;
    ghost var fast, size, values := h.fast[..], h.size[..], h.values[..];
    for i := 0 to FAST_SIZE
      invariant forall x: nat | x < i :: fastAc[x] == AcEntry(fast, size, values, x)
    {
      var f := h.fast[i];
      fastAc[i] := 0;
      if f < 255 {
        var rs: nat := h.values[f];
        var run, magbits, len := (rs / 16) % 16, rs % 16, h.size[f];
        if magbits != 0 && len + magbits <= FAST_BITS {
          var k: int := ShiftRight(LowBits(ShiftLeft(i, len), FAST_BITS), FAST_BITS - magbits);
          var m := Pow2(magbits - 1);
          if k < m {
            k := k + (1 - Pow2(magbits));
          }
          if k >= -128 && k <= 127 {
            fastAc[i] := k * 256 + run * 16 + (len + magbits);
          }
        }
      }
    }
  }

  ghost predicate AcTable(fastAc: array<int>, h: Huffman)
    reads fastAc, h.fast, h.size, h.values
  {
    && h.Shape() && fastAc.Length == FAST_SIZE
    && forall x: nat | x < FAST_SIZE :: fastAc[x] == AcEntry(h.fast[..], h.size[..], h.values[..], x)
  }

  // ---------------------------------------------------------------------------------------
  // Symbols

  /** The first sixteen bits, in which every code is. */
  function Window(buffer: nat): nat {
    ShiftRight(buffer, 16)
  }

  /** The table of short codes cannot say that a window holds the symbol with number 255. */
  ghost predicate Blind(count: seq<nat>, w: nat)
    requires |count| == 16
  {
    var l := Level(count, w, 16, 1);
    l <= FAST_BITS && SymbolAt(count, w, 16, l) == 255
  }

  const BLIND: seq<nat> := [0, 0, 0, 0, 0, 0, 0, 255, 1, 0, 0, 0, 0, 0, 0, 0]

  lemma BlindTotals()
    ensures |BLIND| == 16 && Total(BLIND, 8) == 255 && Total(BLIND, 9) == 256 && Total(BLIND, 16) == 256
    ensures Edge(BLIND, 8) == 255 && Edge(BLIND, 9) == 511
  {
    assert Edge(BLIND, 4) == 0 && Total(BLIND, 4) == 0;
    assert Edge(BLIND, 7) == 0 && Total(BLIND, 7) == 0;
    assert Total(BLIND, 12) == 256;
  }

  lemma BlindAccepted()
    ensures |BLIND| == 16 && Accepts(BLIND)
  {
    BlindTotals();
    SixteenBits();
    assert Pow2(8) == 256;
    forall j: nat | 1 <= j <= 16
      ensures RoomAt(BLIND, j)
    {
      hide Edge, Pow2;
    }
  }

  /** There are such codes: 255 codes of eight bits and one of nine. */
  lemma BlindExists() returns (count: seq<nat>, buffer: nat)
    ensures |count| == 16 && Accepts(count) && buffer < WORD && Blind(count, Window(buffer))
  {
    count := BLIND;
    hide BLIND, ShiftLeft, ShiftRight, Pow2, Edge, Total, Size, CodeOf, Level;
    BlindTotals();
    BlindAccepted();
    var w := ShiftLeft(510, 7);
    buffer := ShiftLeft(w, 16);
    ShiftLeftTwice(510, 7, 16);
    ThirtyTwo();
    ShiftPow2(9, 23);
    SixteenBits();
    ShiftLeftAdd(510, 2, 23);
    TwoMore();
    LeftThenRight(w, 16, 0);
    LeftThenRight(510, 7, 0);
    Unshifted(510);
    Unshifted(w);
    SizeIs(count, 255, 9);
    CodeOf255(count);
    LevelIsMatch(count, w, 16, 255);
    var l := Level(count, w, 16, 1);
    AtLevel(count, w, 16, l);
    SizeIs(count, 255, l);
  }

  lemma TwoMore()
    ensures ShiftLeft(2, 23) > 0
  {
    ShiftLeftZero(23);
    ShiftLeftMono(2, 0, 23);
  }

  lemma Unshifted(v: nat)
    ensures ShiftRight(v, 0) == ShiftLeft(v, 0) == v
  {
  }

  lemma CodeOf255(count: seq<nat>)
    requires |count| == 16 && Total(count, 8) == 255 && Total(count, 16) == 256 && Edge(count, 8) == 255
    requires Size(count, 255) == 9
    ensures CodeOf(count, 255) == 510
  {
    hide Total, Edge, Size;
  }

  /** What the table of short codes says about a buffer. */
  lemma FastWindow(count: seq<nat>, buffer: nat)
    requires |count| == 16 && Accepts(count) && buffer < WORD
    ensures var w, l := Window(buffer), Level(count, Window(buffer), 16, 1);
      var k := FastOf(count, Top(buffer, 9), Total(count, 16));
      && (l <= 16 ==> 0 <= SymbolAt(count, w, 16, l) < 256)
      && (k < 255 ==> !Blind(count, Window(buffer)) && l <= 9 && k == SymbolAt(count, w, 16, l) && k < Total(count, 16) && Size(count, k) == l)
      && (k == 255 && !Blind(count, Window(buffer)) ==> l == Level(count, w, 16, 10))
  {
    hide ShiftRight, Level, SymbolAt, Total, Size;
    var w, x := Window(buffer), Top(buffer, 9);
    ShiftRightTwice(buffer, 16, 7);
    assert x == ShiftRight(w, 7);
    LongerWindow(count, w, 9, 7, 1);
    AcceptedSize(count);
    if Level(count, w, 16, 1) <= 16 {
      AtLevel(count, w, 16, Level(count, w, 16, 1));
      TotalMono(count, Level(count, w, 16, 1), 16);
    }
    var l := Level(count, x, 9, 1);
    if l <= 9 {
      AtLevel(count, x, 9, l);
      SameSymbol(count, w, l);
      TotalMono(count, l, 16);
      SizeIs(count, SymbolAt(count, x, 9, l), l);
      AcceptedSize(count);
    }
  }

  lemma SameSymbol(count: seq<nat>, w: nat, l: nat)
    requires |count| == 16 && 1 <= l <= 9
    ensures SymbolAt(count, ShiftRight(w, 7), 9, l) == SymbolAt(count, w, 16, l)
  {
    hide ShiftRight;
    SameBits(w, 9, 7, l);
  }

  lemma LevelNext(count: seq<nat>, w: nat, k: nat)
    requires |count| == 16 && 1 <= k <= 17
    ensures k <= 16 ==> (w < ShiftLeft(Edge(count, k), 16 - k) <==> Level(count, w, 16, k) == k)
    ensures k <= 16 && Level(count, w, 16, k) != k ==> Level(count, w, 16, k) == Level(count, w, 16, k + 1)
    ensures k == 17 ==> Level(count, w, 16, k) == 17
  {
    hide ShiftRight, ShiftLeft, Edge;
    if k <= 16 {
      ShiftLeftZero(16 - k);
      ShiftRightRange(w, 16 - k, 0, Edge(count, k));
    }
  }
}
