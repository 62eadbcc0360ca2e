/** Bit streams in which the first bit of a byte is its highest, as in PNG samples and MPEG. */
module MsbBits {
  import opened BitStream

  /** Bit p: the first bit of a byte is its highest. */
  function BitAt(row: seq<byte>, p: nat): (b: nat)
    ensures b < 2
  {
    ShiftRight(ByteAt(row, p / 8), 7 - p % 8) % 2
  }

  /** The number whose binary digits are the n bits from bit p on. */
  function Digits(row: seq<byte>, p: nat, n: nat): nat
    decreases n, p
  {
    if n == 0 then 0 else 2 * Digits(row, p, n - 1) + BitAt(row, p + n - 1)
  }

  lemma {:induction false} DigitsInByte(row: seq<byte>, at: nat, n: nat)
    requires n <= 8
    ensures Digits(row, 8 * at, n) == ShiftRight(ByteAt(row, at), 8 - n)
    decreases n
  {
    if n > 0 {
      DigitsInByte(row, at, n - 1);
      ShiftRightStep(ByteAt(row, at), 8 - n);
      assert (8 * at + n - 1) / 8 == at && (8 * at + n - 1) % 8 == n - 1;
    } else {
      assert Pow2(8) == 256;
      ShiftRightGone(ByteAt(row, at), 8);
    }
  }

  lemma {:induction false} DigitsSplit(row: seq<byte>, p: nat, m: nat, n: nat)
    ensures Digits(row, p, m + n) == ShiftLeft(Digits(row, p, m), n) + Digits(row, p + m, n)
  {
    if n == 0 {
    } else {
      DigitsSplit(row, p, m, n - 1);
    }
  }

  /** A piece of a byte, by shift and mask. */
  lemma {:induction false} DigitsInPiece(row: seq<byte>, p: nat, n: nat)
    requires p % 8 + n <= 8
    ensures Digits(row, p, n) == LowBits(ShiftRight(ByteAt(row, p / 8), 8 - p % 8 - n), n)
    decreases n
  {
    if n == 0 {
    } else {
      DigitsInPiece(row, p, n - 1);
      var b, s := ByteAt(row, p / 8), p % 8;
      ShiftRightStep(b, 8 - s - n);
      assert (p + n - 1) / 8 == p / 8 && (p + n - 1) % 8 == s + n - 1;
      hide ShiftRight;
      assert 8 - s - n + 1 == 8 - s - (n - 1);
    }
  }

  /** The first n of n + m bits, and the others. */
  lemma {:induction false} DigitsCut(row: seq<byte>, p: nat, n: nat, m: nat)
    ensures ShiftRight(Digits(row, p, n + m), m) == Digits(row, p, n)
    ensures LowBits(Digits(row, p, n + m), m) == Digits(row, p + n, m)
    decreases m
  {
    hide BitAt;
    if m == 0 {
    } else {
      DigitsCut(row, p, n, m - 1);
      var d, b := Digits(row, p, n + (m - 1)), BitAt(row, p + n + m - 1);
      assert n + m - 1 == n + (m - 1);
      assert Digits(row, p, n + m) == 2 * d + b;
      DoubleShift(d, b, m);
    }
  }

  lemma DoubleShift(d: nat, b: nat, m: nat)
    requires b < 2 && m > 0
    ensures ShiftRight(2 * d + b, m) == ShiftRight(d, m - 1)
    ensures LowBits(2 * d + b, m) == 2 * LowBits(d, m - 1) + b
  {
    assert (2 * d + b) / 2 == d && (2 * d + b) % 2 == b;
  }

  lemma {:induction false} DigitsPastEnd(row: seq<byte>, p: nat, n: nat)
    requires 8 * |row| <= p
    ensures Digits(row, p, n) == 0
    decreases n
  {
    hide ShiftRight;
    if n == 0 {
    } else {
      DigitsPastEnd(row, p, n - 1);
      ShiftRightZero(7 - (p + n - 1) % 8);
    }
  }

  lemma NoDigits(row: seq<byte>, p: nat)
    ensures Digits(row, p, 0) == 0
  {
  }

  lemma FewLeft(v: nat)
    ensures ShiftLeft(v, 1) == 2 * v && ShiftLeft(v, 2) == 4 * v && ShiftLeft(v, 8) == 256 * v
  {
    ShiftLeftNext(v, 0);
    ShiftLeftNext(v, 1);
    ShiftLeftNext(v, 2);
    ShiftLeftNext(v, 3);
    ShiftLeftNext(v, 4);
    ShiftLeftNext(v, 5);
    ShiftLeftNext(v, 6);
    ShiftLeftNext(v, 7);
  }

  lemma ShiftLeftNext(v: nat, n: nat)
    ensures ShiftLeft(v, n + 1) == 2 * ShiftLeft(v, n) && ShiftLeft(v, 0) == v
  {
  }
}
