/** Base64 against the table and the picture of section 4 of RFC 4648: characters in the order of the table,
    and bytes and characters as groups of eight and six of the same bits. */
module Base64Bits {
  import opened Base64
  import opened BitStream
  import opened MsbBits

  const TABLE_0: seq<char> := ['A', 'B', 'C', 'D', 'E', 'F', 'G', 'H', 'I', 'J', 'K', 'L', 'M', 'N', 'O', 'P']
  const TABLE_1: seq<char> := ['Q', 'R', 'S', 'T', 'U', 'V', 'W', 'X', 'Y', 'Z', 'a', 'b', 'c', 'd', 'e', 'f']
  const TABLE_2: seq<char> := ['g', 'h', 'i', 'j', 'k', 'l', 'm', 'n', 'o', 'p', 'q', 'r', 's', 't', 'u', 'v']
  const TABLE_3: seq<char> := ['w', 'x', 'y', 'z', '0', '1', '2', '3', '4', '5', '6', '7', '8', '9', '+', '/']

  lemma Chars0(v: digit)
    requires v < 16
    ensures CharOf(v) == TABLE_0[v]
  {
    if v == 0 {
    } else if v == 1 {
    } else if v == 2 {
    } else if v == 3 {
    } else if v == 4 {
    } else if v == 5 {
    } else if v == 6 {
    } else if v == 7 {
    } else if v == 8 {
    } else if v == 9 {
    } else if v == 10 {
    } else if v == 11 {
    } else if v == 12 {
    } else if v == 13 {
    } else if v == 14 {
    } else {
      assert v == 15;
    }
  }

  lemma Chars1(v: digit)
    requires 16 <= v < 32
    ensures CharOf(v) == TABLE_1[v - 16]
  {
    if v == 16 {
    } else if v == 17 {
    } else if v == 18 {
    } else if v == 19 {
    } else if v == 20 {
    } else if v == 21 {
    } else if v == 22 {
    } else if v == 23 {
    } else if v == 24 {
    } else if v == 25 {
    } else if v == 26 {
    } else if v == 27 {
    } else if v == 28 {
    } else if v == 29 {
    } else if v == 30 {
    } else {
      assert v == 31;
    }
  }

  lemma Chars2(v: digit)
    requires 32 <= v < 48
    ensures CharOf(v) == TABLE_2[v - 32]
  {
    if v == 32 {
    } else if v == 33 {
    } else if v == 34 {
    } else if v == 35 {
    } else if v == 36 {
    } else if v == 37 {
    } else if v == 38 {
    } else if v == 39 {
    } else if v == 40 {
    } else if v == 41 {
    } else if v == 42 {
    } else if v == 43 {
    } else if v == 44 {
    } else if v == 45 {
    } else if v == 46 {
    } else {
      assert v == 47;
    }
  }

  lemma Chars3(v: digit)
    requires 48 <= v < 64
    ensures CharOf(v) == TABLE_3[v - 48]
  {
    if v == 48 {
    } else if v == 49 {
    } else if v == 50 {
    } else if v == 51 {
    } else if v == 52 {
    } else if v == 53 {
    } else if v == 54 {
    } else if v == 55 {
    } else if v == 56 {
    } else if v == 57 {
    } else if v == 58 {
    } else if v == 59 {
    } else if v == 60 {
    } else if v == 61 {
    } else if v == 62 {
    } else {
      assert v == 63;
    }
  }

  /** The characters are those of the table, in its order. */
  lemma CharIs(v: digit)
    ensures CharOf(v) ==
      if v < 16 then TABLE_0[v] else if v < 32 then TABLE_1[v - 16] else if v < 48 then TABLE_2[v - 32]
      else TABLE_3[v - 48]
  {
    hide CharOf, TABLE_0, TABLE_1, TABLE_2, TABLE_3;
    if v < 16 {
      Chars0(v);
    } else if v < 32 {
      Chars1(v);
    } else if v < 48 {
      Chars2(v);
    } else {
      Chars3(v);
    }
  }

  lemma BitLater(head: seq<byte>, rest: seq<byte>, q: nat)
    ensures BitAt(head + rest, 8 * |head| + q) == BitAt(rest, q)
  {
    hide ShiftRight;
    assert (8 * |head| + q) / 8 == |head| + q / 8 && (8 * |head| + q) % 8 == q % 8;
    assert ByteAt(head + rest, |head| + q / 8) == ByteAt(rest, q / 8);
  }

  lemma {:induction false} DigitsLater(head: seq<byte>, rest: seq<byte>, p: nat, n: nat)
    ensures Digits(head + rest, 8 * |head| + p, n) == Digits(rest, p, n)
    decreases n
  {
    hide BitAt;
    if n == 0 {
    } else {
      DigitsLater(head, rest, p, n - 1);
      BitLater(head, rest, p + n - 1);
      assert 8 * |head| + p + n - 1 == 8 * |head| + (p + n - 1);
    }
  }

  /** Six bits at a time of three bytes, or of fewer and zeros. */
  lemma GroupBits(b: seq<byte>)
    ensures var b0, b1, b2 := ByteAt(b, 0), ByteAt(b, 1), ByteAt(b, 2);
      && Digits(b, 0, 6) == b0 / 4 && Digits(b, 6, 6) == Middle(b0, b1)
      && Digits(b, 12, 6) == Later(b1, b2) && Digits(b, 18, 6) == b2 % 64
  {
    hide Digits, ByteAt, ShiftRight, LowBits, ShiftLeft;
    var b0, b1, b2: nat := ByteAt(b, 0), ByteAt(b, 1), ByteAt(b, 2);
    DigitsInByte(b, 0, 6);
    DigitsInPiece(b, 6, 2);
    DigitsInByte(b, 1, 4);
    DigitsInPiece(b, 12, 4);
    DigitsInByte(b, 2, 2);
    DigitsInPiece(b, 18, 6);
    DigitsSplit(b, 6, 2, 4);
    DigitsSplit(b, 12, 4, 2);
    Rights(b0);
    Rights(b1);
    Rights(b2);
    Lows(b0);
    Lows(b1);
    Lows(b2);
    Lefts(b0 % 4);
    Lefts(b1 % 16);
  }

  lemma Rights(v: nat)
    ensures ShiftRight(v, 0) == v && ShiftRight(v, 2) == v / 4 && ShiftRight(v, 4) == v / 16 && ShiftRight(v, 6) == v / 64
  {
    ShiftRightStep(v, 0);
    ShiftRightStep(v, 1);
    ShiftRightStep(v, 2);
    ShiftRightStep(v, 3);
    ShiftRightStep(v, 4);
    ShiftRightStep(v, 5);
    assert ShiftRight(v, 0) == v;
    hide ShiftRight;
  }

  lemma LowPair(v: nat)
    ensures LowBits(v, 2) == v % 4
  {
    LowTwo(v, 0);
    NoLow(v / 4);
  }

  lemma NoLow(v: nat)
    ensures LowBits(v, 0) == 0
  {
  }

  lemma LowFour(v: nat)
    ensures LowBits(v, 4) == v % 16
  {
    hide LowBits;
    LowTwo(v, 2);
    LowPair(v / 4);
    Remainders(v);
  }

  lemma Lows(v: nat)
    ensures LowBits(v, 2) == v % 4 && LowBits(v, 4) == v % 16 && LowBits(v, 6) == v % 64
  {
    hide LowBits;
    LowPair(v);
    LowFour(v);
    LowTwo(v, 4);
    LowFour(v / 4);
    Remainders(v);
  }

  lemma Remainders(v: nat)
    ensures v % 16 == v % 4 + 4 * (v / 4 % 4) && v % 64 == v % 4 + 4 * (v / 4 % 16)
  {
    var q := v / 4;
    var s, t := q / 4, q / 16;
    assert v == 16 * s + (v % 4 + 4 * (q % 4));
    assert v == 64 * t + (v % 4 + 4 * (q % 16));
    Remainder16(v, s, v % 4 + 4 * (q % 4));
    Remainder64(v, t, v % 4 + 4 * (q % 16));
  }

  lemma Remainder16(v: nat, q: nat, r: nat)
    requires v == 16 * q + r && r < 16
    ensures v % 16 == r
  {
  }

  lemma Remainder64(v: nat, q: nat, r: nat)
    requires v == 64 * q + r && r < 64
    ensures v % 64 == r
  {
  }

  lemma LowTwo(v: nat, n: nat)
    ensures LowBits(v, n + 2) == v % 4 + 4 * LowBits(v / 4, n)
  {
    assert LowBits(v, n + 2) == v % 2 + 2 * LowBits(v / 2, n + 1);
    assert LowBits(v / 2, n + 1) == v / 2 % 2 + 2 * LowBits(v / 2 / 2, n);
  }

  lemma Lefts(v: nat)
    ensures ShiftLeft(v, 2) == 4 * v && ShiftLeft(v, 4) == 16 * v
  {
    FewLeft(v);
    FewLeft(4 * v);
    assert ShiftLeft(v, 4) == 2 * ShiftLeft(v, 3) && ShiftLeft(v, 3) == 2 * ShiftLeft(v, 2);
  }

  /** How many characters carry bits of n bytes. */
  function CharsFor(n: nat): nat {
    (8 * n + 5) / 6
  }

  /** Every character of an encoding is the next six bits, the last of them filled up with zeros, and the text is
      filled up to groups of four. */
  lemma {:induction false} EncodeBits(b: seq<byte>, k: nat)
    requires k < |Encode(b)|
    ensures |Encode(b)| == 4 * ((|b| + 2) / 3)
    ensures Encode(b)[k] == if k < CharsFor(|b|) then CharOf(SixBits(b, 6 * k)) else '='
    decreases |b|
  {
    hide Digits, CharOf, Encode, SixBits;
    EncodedLength(b);
    if k < 4 {
      FirstChars(b, k);
    } else {
      LaterChars(b, k);
      var rest := b[3..];
      assert b == b[..3] + rest;
      EncodeBits(rest, k - 4);
      DigitsLater(b[..3], rest, 6 * (k - 4), 6);
      SixIs(rest, 6 * (k - 4));
      SixIs(b, 6 * k);
    }
  }

  lemma FirstChars(b: seq<byte>, k: nat)
    requires k < 4 && k < |Encode(b)|
    ensures Encode(b)[k] == if k < CharsFor(|b|) then CharOf(SixBits(b, 6 * k)) else '='
  {
    hide Digits, CharOf, Encode, SixBits, ByteAt, Middle, Later;
    GroupBits(b);
    EncodedLength(b);
    Group(b);
    if k == 0 {
      SixIs(b, 0);
    } else if k == 1 {
      SixIs(b, 6);
    } else if k == 2 {
      SixIs(b, 12);
    } else {
      SixIs(b, 18);
    }
  }

  /** The first group, where bytes that are missing count as zero. */
  lemma Group(b: seq<byte>)
    requires |Encode(b)| >= 4
    ensures var e, b0, b1, b2 := Encode(b), ByteAt(b, 0), ByteAt(b, 1), ByteAt(b, 2);
      && |b| > 0 && e[0] == CharOf(b0 / 4) && e[1] == CharOf(Middle(b0, b1))
      && e[2] == (if |b| > 1 then CharOf(Later(b1, b2)) else '=') && e[3] == if |b| > 2 then CharOf(b2 % 64) else '='
  {
    hide CharOf;
  }

  lemma LaterChars(b: seq<byte>, k: nat)
    requires 4 <= k < |Encode(b)|
    ensures |b| > 3 && k - 4 < |Encode(b[3..])| && Encode(b)[k] == Encode(b[3..])[k - 4]
  {
    hide CharOf, Middle, Later;
    EncodedLength(b);
    EncodedLength(b[if |b| > 3 then 3 else 0..]);
  }

  lemma {:induction false} EncodedLength(b: seq<byte>)
    ensures |Encode(b)| == 4 * ((|b| + 2) / 3)
    decreases |b|
  {
    hide CharOf;
    if |b| <= 3 {
    } else {
      EncodedLength(b[3..]);
    }
  }

  function SixBits(b: seq<byte>, p: nat): digit {
    SixRange(b, p);
    Digits(b, p, 6)
  }

  lemma SixIs(b: seq<byte>, p: nat)
    ensures SixBits(b, p) == Digits(b, p, 6)
  {
  }

  lemma SixRange(b: seq<byte>, p: nat)
    ensures Digits(b, p, 6) < 64
  {
    DigitsBelow(b, p, 6);
    assert Pow2(6) == 64;
  }

  lemma {:induction false} DigitsBelow(b: seq<byte>, p: nat, n: nat)
    ensures Digits(b, p, n) < Pow2(n)
  {
    hide BitAt;
    if n == 0 {
    } else {
      DigitsBelow(b, p, n - 1);
    }
  }

  /** Decoded bytes have the bits of the characters, six by six, as far as they fill bytes. */
  lemma {:induction false} DecodeBits(s: string, k: nat)
    requires AllDigits(s) && k < |s|
    ensures |Decode(s)| == 6 * |s| / 8
    ensures 6 * k + 6 <= 8 * |Decode(s)| ==> Digits(Decode(s), 6 * k, 6) == ValueOf(s[k])
    decreases |s|
  {
    hide Digits, ValueOf, IsDigit, First, Second, Third;
    var b := Decode(s);
    GroupBits(b);
    DecodedLength(s);
    if |s| >= 4 {
      Regroup(ValueOf(s[0]), ValueOf(s[1]), ValueOf(s[2]), ValueOf(s[3]));
      if k >= 4 {
        var rest := s[4..];
        assert b == b[..3] + Decode(rest);
        DecodeBits(rest, k - 4);
        DigitsLater(b[..3], Decode(rest), 6 * (k - 4), 6);
      }
    } else if |s| == 3 {
      Regroup(ValueOf(s[0]), ValueOf(s[1]), ValueOf(s[2]), 0);
    } else if |s| == 2 {
      Regroup(ValueOf(s[0]), ValueOf(s[1]), 0, 0);
    }
  }

  lemma {:induction false} DecodedLength(s: string)
    requires AllDigits(s)
    ensures |Decode(s)| == 6 * |s| / 8
    decreases |s|
  {
    hide ValueOf, IsDigit;
    if |s| < 4 {
    } else {
      DecodedLength(s[4..]);
    }
  }
}
