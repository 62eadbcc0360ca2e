/** Bit strings as DEFLATE reads them: bytes are consumed in order, least significant bit
    first, and the stream continues with zero bits after its last byte.  Shifts and masks
    of unsigned words are written as recursive functions on natural numbers. */
module BitStream {

  type byte = x: int | 0 <= x < 256

  function Pow2(n: nat): (r: nat)
    ensures r >= 1
  {
    if n == 0 then 1 else 2 * Pow2(n - 1)
  }

  function ShiftLeft(v: nat, n: nat): nat
    decreases n, v
  {
    if n == 0 then v else 2 * ShiftLeft(v, n - 1)
  }

  function ShiftRight(v: nat, n: nat): nat
    decreases n, v
  {
    if n == 0 then v else ShiftRight(v / 2, n - 1)
  }

  /** v masked to its low n bits. */
  function LowBits(v: nat, n: nat): (r: nat)
    ensures r < Pow2(n) && r <= v
    decreases n, v
  {
    if n == 0 then 0 else v % 2 + 2 * LowBits(v / 2, n - 1)
  }

  /** The low n bits of v in reverse order. */
  function Reverse(v: nat, n: nat): (r: nat)
    ensures r < Pow2(n)
    decreases n, v
  {
    if n == 0 then 0
    else (if v % 2 == 1 then Pow2(n - 1) else 0) + Reverse(v / 2, n - 1)
  }

  function ByteAt(input: seq<byte>, i: nat): byte {
    if i < |input| then input[i] else 0
  }

  /** Bit p of the stream. */
  function Bit(input: seq<byte>, p: nat): (b: nat)
    ensures b <= 1
  {
    ShiftRight(ByteAt(input, p / 8), p % 8) % 2
  }

  /** The n bits from p on as a number, least significant bit first. */
  function Field(input: seq<byte>, p: nat, n: nat): (v: nat)
    ensures v < Pow2(n)
    decreases n, p
  {
    if n == 0 then 0 else Bit(input, p) + 2 * Field(input, p + 1, n - 1)
  }

  /** The n bits from p on as a number, most significant bit first (Huffman codes). */
  function MsbField(input: seq<byte>, p: nat, n: nat): (v: nat)
    ensures v < Pow2(n)
    decreases n, p
  {
    if n == 0 then 0 else 2 * MsbField(input, p, n - 1) + Bit(input, p + n - 1)
  }

  // ---------------------------------------------------------------------------------------
  // Shifts and masks

  lemma {:induction false} Pow2Mono(m: nat, n: nat)
    requires m <= n
    ensures Pow2(m) <= Pow2(n)
  {
    if m == n {
    } else {
      Pow2Mono(m, n - 1);
    }
  }

  lemma WordSizes()
    ensures Pow2(16) == 0x10000 && Pow2(32) == 0x1_0000_0000
  {
    assert Pow2(8) == 256;
    assert Pow2(12) == 16 * Pow2(8);
    assert Pow2(16) == 16 * Pow2(12);
    assert Pow2(20) == 16 * Pow2(16);
    assert Pow2(24) == 16 * Pow2(20);
    assert Pow2(28) == 16 * Pow2(24);
    assert Pow2(32) == 16 * Pow2(28);
  }

  lemma {:induction false} ShiftPow2(m: nat, n: nat)
    ensures ShiftLeft(Pow2(m), n) == Pow2(m + n)
    decreases n
  {
    if n == 0 {
    } else {
      ShiftPow2(m, n - 1);
    }
  }

  lemma {:induction false} ShiftLeftAdd(a: nat, b: nat, n: nat)
    ensures ShiftLeft(a + b, n) == ShiftLeft(a, n) + ShiftLeft(b, n)
    decreases n
  {
    if n == 0 {
    } else {
      ShiftLeftAdd(a, b, n - 1);
    }
  }

  lemma {:induction false} ShiftLeftZero(n: nat)
    ensures ShiftLeft(0, n) == 0
    decreases n
  {
    if n == 0 {
    } else {
      ShiftLeftZero(n - 1);
    }
  }

  lemma {:induction false} ShiftLeftDouble(v: nat, n: nat)
    ensures ShiftLeft(2 * v, n) == ShiftLeft(v, n + 1)
    decreases n
  {
    if n == 0 {
    } else {
      ShiftLeftDouble(v, n - 1);
    }
  }

  lemma {:induction false} ShiftLeftMono(a: nat, b: nat, n: nat)
    ensures a <= b <==> ShiftLeft(a, n) <= ShiftLeft(b, n)
    decreases n
  {
    if n == 0 {
    } else {
      ShiftLeftMono(a, b, n - 1);
    }
  }

  lemma {:induction false} ShiftRightRange(k: nat, n: nat, lo: nat, hi: nat)
    ensures ShiftLeft(lo, n) <= k < ShiftLeft(hi, n) <==> lo <= ShiftRight(k, n) < hi
    decreases n
  {
    if n == 0 {
    } else {
      ShiftRightRange(k / 2, n - 1, lo, hi);
    }
  }

  lemma {:induction false} ShiftRightStep(v: nat, n: nat)
    ensures ShiftRight(v, n + 1) == ShiftRight(v, n) / 2
    decreases n
  {
    if n == 0 {
    } else {
      ShiftRightStep(v / 2, n - 1);
    }
  }

  lemma {:induction false} LowBitsSmall(v: nat, n: nat)
    requires v < Pow2(n)
    ensures LowBits(v, n) == v
    decreases n
  {
    if n == 0 {
    } else {
      LowBitsSmall(v / 2, n - 1);
    }
  }

  lemma {:induction false} LowBitsNext(v: nat, n: nat)
    ensures LowBits(v + Pow2(n), n) == LowBits(v, n)
    decreases n
  {
    if n == 0 {
    } else {
      assert (v + Pow2(n)) / 2 == v / 2 + Pow2(n - 1);
      LowBitsNext(v / 2, n - 1);
    }
  }

  /** Within a stretch of 2^n numbers no two agree on their low n bits. */
  lemma {:induction false} LowBitsGap(j: nat, m: nat, n: nat)
    requires j < m < j + Pow2(n)
    ensures LowBits(m, n) != LowBits(j, n)
    decreases n
  {
    if n == 0 || m % 2 != j % 2 {
    } else {
      LowBitsGap(j / 2, m / 2, n - 1);
    }
  }

  // ---------------------------------------------------------------------------------------
  // Fields of the stream

  lemma {:induction false} FieldSplit(input: seq<byte>, p: nat, m: nat, n: nat)
    ensures Field(input, p, m + n) == Field(input, p, m) + ShiftLeft(Field(input, p + m, n), m)
    decreases m
  {
    hide Bit;
    if m == 0 {
    } else {
      FieldSplit(input, p + 1, m - 1, n);
      assert p + 1 + (m - 1) == p + m && m - 1 + n == m + n - 1;
    }
  }

  lemma FieldNone(input: seq<byte>, p: nat)
    ensures Field(input, p, 0) == 0
  {
  }

  lemma FieldOne(input: seq<byte>, p: nat)
    ensures Field(input, p, 1) == Bit(input, p)
  {
    hide Bit;
    var one: nat := 1;
    assert Field(input, p + 1, one - 1) == 0;
  }

  /** Masking and shifting a field give its first bits and the bits after them. */
  lemma {:induction false} FieldCut(input: seq<byte>, p: nat, m: nat, n: nat)
    ensures LowBits(Field(input, p, m + n), m) == Field(input, p, m)
    ensures ShiftRight(Field(input, p, m + n), m) == Field(input, p + m, n)
    decreases m
  {
    hide Bit;
    if m == 0 {
    } else {
      FieldCut(input, p + 1, m - 1, n);
      assert p + 1 + (m - 1) == p + m && m - 1 + n == m + n - 1;
    }
  }

  /** Eight bits from a byte boundary are that byte. */
  lemma FieldByte(input: seq<byte>, i: nat)
    ensures Field(input, 8 * i, 8) == ByteAt(input, i)
  {
    hide Field, ByteAt;
    FieldOfByte(input, i, 0);
  }

  lemma {:induction false} FieldOfByte(input: seq<byte>, i: nat, k: nat)
    requires k <= 8
    ensures Field(input, 8 * i + k, 8 - k) == ShiftRight(ByteAt(input, i), k)
    decreases 8 - k
  {
    hide ByteAt, Bit;
    if k < 8 {
      FieldOfByte(input, i, k + 1);
      BitOfByte(input, i, k);
      assert 8 * i + k + 1 == 8 * i + (k + 1) && 8 - k - 1 == 8 - (k + 1);
      ShiftRightStep(ByteAt(input, i), k);
    } else {
      assert Pow2(8) == 256;
      ShiftRightGone(ByteAt(input, i), 8);
    }
  }

  lemma BitOfByte(input: seq<byte>, i: nat, k: nat)
    requires k < 8
    ensures Bit(input, 8 * i + k) == ShiftRight(ByteAt(input, i), k) % 2
  {
  }

  lemma {:induction false} ShiftRightGone(v: nat, n: nat)
    requires v < Pow2(n)
    ensures ShiftRight(v, n) == 0
    decreases n
  {
    if n == 0 {
    } else {
      ShiftRightGone(v / 2, n - 1);
    }
  }

  lemma {:induction false} ShiftRightZero(k: nat)
    ensures ShiftRight(0, k) == 0
    decreases k
  {
    if k == 0 {
    } else {
      ShiftRightZero(k - 1);
    }
  }

  lemma {:induction false} FieldPastEnd(input: seq<byte>, p: nat, n: nat)
    requires 8 * |input| <= p
    ensures Field(input, p, n) == 0
    decreases n
  {
    if n == 0 {
    } else {
      FieldPastEnd(input, p + 1, n - 1);
      ShiftRightZero(p % 8);
    }
  }

  /** Shifting a code window right leaves the first bits of it. */
  lemma {:induction false} MsbPrefix(input: seq<byte>, p: nat, m: nat, n: nat)
    ensures ShiftRight(MsbField(input, p, m + n), n) == MsbField(input, p, m)
    decreases n
  {
    hide Bit;
    if n == 0 {
    } else {
      MsbPrefix(input, p, m, n - 1);
    }
  }

  lemma {:induction false} MsbHead(input: seq<byte>, p: nat, n: nat)
    ensures MsbField(input, p, n + 1)
         == (if Bit(input, p) == 1 then Pow2(n) else 0) + MsbField(input, p + 1, n)
    decreases n
  {
    hide Bit;
    if n == 0 {
    } else {
      MsbHead(input, p, n - 1);
      assert p + 1 + n - 1 == p + n;
    }
  }

  // ---------------------------------------------------------------------------------------
  // Bit reversal

  /** Reversing a window read least significant bit first gives the code bits in code order. */
  lemma {:induction false} ReverseField(input: seq<byte>, p: nat, n: nat)
    ensures Reverse(Field(input, p, n), n) == MsbField(input, p, n)
    decreases n
  {
    hide Bit;
    if n == 0 {
    } else {
      ReverseField(input, p + 1, n - 1);
      MsbHead(input, p, n - 1);
    }
  }

  lemma {:induction false} ReverseAppend(a: nat, m: nat, b: nat)
    requires a < Pow2(m) && b <= 1
    ensures Reverse(a + if b == 1 then Pow2(m) else 0, m + 1) == 2 * Reverse(a, m) + b
    decreases m
  {
    if m == 0 {
    } else {
      ReverseAppend(a / 2, m - 1, b);
      hide Reverse;
      var v, h := a + (if b == 1 then Pow2(m) else 0), Pow2(m - 1);
      assert Pow2(m) == 2 * h;
      assert v % 2 == a % 2 && v / 2 == a / 2 + if b == 1 then h else 0;
      ReverseStep(v, m + 1);
      ReverseStep(a, m);
    }
  }

  lemma ReverseStep(v: nat, n: nat)
    requires n > 0
    ensures Reverse(v, n) == (if v % 2 == 1 then Pow2(n - 1) else 0) + Reverse(v / 2, n - 1)
  {
  }

  lemma {:induction false} ReverseInvolution(v: nat, n: nat)
    requires v < Pow2(n)
    ensures Reverse(Reverse(v, n), n) == v
    decreases n
  {
    if n == 0 {
    } else {
      ReverseInvolution(v / 2, n - 1);
      ReverseAppend(Reverse(v / 2, n - 1), n - 1, v % 2);
    }
  }

  /** Reversal looks at the low n bits only. */
  lemma {:induction false} ReverseLow(v: nat, n: nat, m: nat)
    requires n <= m
    ensures Reverse(LowBits(v, m), n) == Reverse(v, n)
    decreases n
  {
    if n == 0 {
    } else {
      ReverseLow(v / 2, n - 1, m - 1);
    }
  }

  lemma {:induction false} ReverseHalf(v: nat, n: nat)
    ensures Reverse(v, n + 1) / 2 == Reverse(v, n)
    decreases n
  {
    if n == 0 {
    } else {
      ReverseHalf(v / 2, n - 1);
    }
  }

  /** Reversing n + m bits and shifting the surplus m bits away reverses the low n bits. */
  lemma {:induction false} ReverseShift(v: nat, n: nat, m: nat)
    ensures ShiftRight(Reverse(v, n + m), m) == Reverse(v, n)
    decreases m
  {
    if m == 0 {
    } else {
      ReverseHalf(v, n + m - 1);
      ReverseShift(v, n, m - 1);
    }
  }
}
