/** The tables of lengths and distances follow the laws of section 3.2.5 of RFC 1951, and the order of the
    code length code that of section 3.2.7. */
module DeflateTables {
  import opened BitStream
  import opened Deflate

  /** The place of the highest bit of a number. */
  function Highest(m: nat): (h: nat)
    requires m > 0
    ensures Pow2(h) <= m < 2 * Pow2(h)
  {
    if m == 1 then 0 else 1 + Highest(m / 2)
  }

  // ---------------------------------------------------------------------------------------
  // Lengths

  lemma SmallPowers()
    ensures Pow2(0) == 1 && Pow2(1) == 2 && Pow2(2) == 4 && Pow2(3) == 8 && Pow2(4) == 16 && Pow2(5) == 32
  {
  }

  /** The first eight codes stand for one length each. */
  lemma FirstLengths(l: nat)
    requires l < 8
    ensures LengthBase(l) == 3 + l && LengthExtra(l) == 0
  {
    if l == 0 {
    } else if l == 1 {
    } else if l == 2 {
    } else if l == 3 {
    } else if l == 4 {
    } else if l == 5 {
    } else if l == 6 {
    }
  }

  /** After them four codes at a time have one more extra bit. */
  lemma LengthAt(e: nat, t: nat)
    requires 1 <= e <= 5 && 4 <= t < 8
    ensures LengthBase(4 * e + t) == 3 + t * Pow2(e) && LengthExtra(4 * e + t) == e
  {
    hide LengthBase, LengthExtra, Pow2;
    SmallPowers();
    if e == 1 {
      FourLengths(1, 2);
    } else if e == 2 {
      FourLengths(2, 4);
    } else if e == 3 {
      FourLengths(3, 8);
    } else if e == 4 {
      FourLengths(4, 16);
    } else {
      FourLengths(5, 32);
    }
    Times(t, Pow2(e));
  }

  lemma FourLengths(e: nat, u: nat)
    requires (e == 1 && u == 2) || (e == 2 && u == 4) || (e == 3 && u == 8) || (e == 4 && u == 16) || (e == 5 && u == 32)
    ensures LengthBase(4 * e + 4) == 3 + 4 * u && LengthBase(4 * e + 5) == 3 + 5 * u
    ensures LengthBase(4 * e + 6) == 3 + 6 * u && LengthBase(4 * e + 7) == 3 + 7 * u
    ensures LengthExtra(4 * e + 4) == LengthExtra(4 * e + 5) == LengthExtra(4 * e + 6) == LengthExtra(4 * e + 7) == e
  {
    if e == 1 {
    } else if e == 2 {
    } else if e == 3 {
    } else if e == 4 {
    }
  }

  lemma Times(t: nat, u: nat)
    ensures t == 2 ==> t * u == 2 * u
    ensures t == 3 ==> t * u == 3 * u
    ensures t == 4 ==> t * u == 4 * u
    ensures t == 5 ==> t * u == 5 * u
    ensures t == 6 ==> t * u == 6 * u
    ensures t == 7 ==> t * u == 7 * u
  {
  }

  lemma LastLength()
    ensures LengthBase(28) == 258 && LengthExtra(28) == 0
  {
  }

  /** From code to code the lengths go up by as many as the extra bits can say, and the last code is the
      longest length alone. */
  lemma LengthLaw(l: nat)
    requires l < 29
    ensures LengthExtra(l) == if 8 <= l < 28 then (l - 4) / 4 else 0
    ensures l == 0 ==> LengthBase(l) == 3
    ensures l < 27 ==> LengthBase(l + 1) == LengthBase(l) + Pow2(LengthExtra(l))
    ensures l == 27 ==> LengthBase(l) + Pow2(LengthExtra(l)) == 259
    ensures l == 28 ==> LengthBase(l) == 258
  {
    hide LengthBase, LengthExtra;
    SmallPowers();
    LastLength();
    if l < 8 {
      FirstLengths(l);
      if l < 7 {
        FirstLengths(l + 1);
      } else {
        LengthAt(1, 4);
      }
    } else if l < 28 {
      var e, t := l / 4 - 1, 4 + l % 4;
      LengthAt(e, t);
      if t < 7 {
        LengthAt(e, t + 1);
      } else if e < 5 {
        LengthAt(e + 1, 4);
        assert 4 * Pow2(e + 1) == 8 * Pow2(e);
      }
    }
  }

  /** The symbol for a length, how many extra bits follow it and which number they are. */
  function LengthName(len: nat): (r: (nat, nat, nat))
    requires 3 <= len <= 258
    ensures 257 <= r.0 <= 285 && r.1 <= 5 && r.2 < Pow2(r.1)
  {
    if len == 258 then (285, 0, 0)
    else if len < 11 then (254 + len, 0, 0)
    else
      var m := len - 3;
      HighestIs(m, 3, 7);
      var e := Highest(m) - 2;
      PartOf(m, e, 2);
      (257 + 4 * e + m / Pow2(e), e, m % Pow2(e))
  }

  lemma HighestOf(m: nat, lo: nat, hi: nat)
    requires m > 0 && Pow2(lo) <= m < 2 * Pow2(hi)
    ensures lo <= Highest(m) <= hi
  {
    var h := Highest(m);
    if h < lo {
      Pow2Mono(h + 1, lo);
    } else if h > hi {
      Pow2Mono(hi + 1, h);
    }
  }

  /** The k + 1 highest bits of a number. */
  lemma PartOf(m: nat, e: nat, k: nat)
    requires m > 0 && Highest(m) == e + k
    ensures Pow2(k) <= m / Pow2(e) < 2 * Pow2(k) && m % Pow2(e) < Pow2(e)
    ensures m == m / Pow2(e) * Pow2(e) + m % Pow2(e)
  {
    hide Highest, Pow2;
    var q, r, u := m / Pow2(e), m % Pow2(e), Pow2(e);
    assert m == q * u + r;
    PowerSum(e, k);
    TwiceProduct(Pow2(k), u);
    assert (q + 1) * u == q * u + u;
    if q < Pow2(k) {
      Product(q + 1, Pow2(k), u);
    } else if q >= 2 * Pow2(k) {
      Product(2 * Pow2(k), q, u);
    }
  }

  lemma Product(a: nat, c: nat, u: nat)
    requires a <= c
    ensures a * u <= c * u
  {
  }

  lemma {:induction false} PowerSum(e: nat, k: nat)
    ensures Pow2(e + k) == Pow2(k) * Pow2(e)
  {
    if k == 0 {
      assert Pow2(0) == 1;
    } else {
      PowerSum(e, k - 1);
      assert Pow2(e + k) == 2 * Pow2(e + k - 1) && Pow2(k) == 2 * Pow2(k - 1);
      TwiceProduct(Pow2(k - 1), Pow2(e));
    }
  }

  lemma TwiceProduct(a: nat, u: nat)
    ensures 2 * a * u == 2 * (a * u)
  {
  }

  /** Every length is named by its symbol and extra bits. */
  lemma LengthNamed(len: nat)
    requires 3 <= len <= 258
    ensures var (z, n, v) := LengthName(len);
      LengthExtra(z - 257) == n && LengthBase(z - 257) + v == len
  {
    hide LengthBase, LengthExtra, Pow2, Highest;
    SmallPowers();
    LastLength();
    if len < 11 {
      FirstLengths(len - 3);
    } else if len < 258 {
      var m := len - 3;
      HighestIs(m, 3, 7);
      var e := Highest(m) - 2;
      PartOf(m, e, 2);
      LengthAt(e, m / Pow2(e));
    }
  }

  lemma HighestIs(m: nat, lo: nat, hi: nat)
    requires (lo == 3 && hi == 7 && 8 <= m < 256) || (lo == 2 && hi == 14 && 4 <= m < 32768)
    ensures lo <= Highest(m) <= hi
  {
    assert Pow2(3) == 8 && Pow2(2) == 4 && Pow2(7) == 128;
    WordSizes();
    assert Pow2(16) == 4 * Pow2(14);
    HighestOf(m, lo, hi);
  }

  // ---------------------------------------------------------------------------------------
  // Distances

  lemma FirstDistances(d: nat)
    requires d < 4
    ensures DistBase(d) == 1 + d && DistExtra(d) == 0
  {
    if d == 0 {
    } else if d == 1 {
    } else if d == 2 {
    }
  }

  /** After the first four, two codes at a time have one more extra bit. */
  lemma DistanceAt(e: nat, t: nat)
    requires 1 <= e <= 13 && 2 <= t < 4
    ensures DistBase(2 * e + t) == 1 + t * Pow2(e) && DistExtra(2 * e + t) == e
  {
    hide DistBase, DistExtra, Pow2;
    SmallPowers();
    LargePowers();
    NearDistances();
    FarDistances();
    NearExtras();
    MiddleExtras();
    FarExtras();
    Times(t, Pow2(e));
    if e < 8 {
      if e == 1 {
      } else if e == 2 {
      } else if e == 3 {
      } else if e == 4 {
      } else if e == 5 {
      } else if e == 6 {
      }
    } else if e == 8 {
    } else if e == 9 {
    } else if e == 10 {
    } else if e == 11 {
    } else if e == 12 {
    }
  }

  lemma NearDistances()
    ensures DistBase(4) == 5 && DistBase(5) == 7
    ensures DistBase(6) == 9 && DistBase(7) == 13
    ensures DistBase(8) == 17 && DistBase(9) == 25
    ensures DistBase(10) == 33 && DistBase(11) == 49
    ensures DistBase(12) == 65 && DistBase(13) == 97
    ensures DistBase(14) == 129 && DistBase(15) == 193
    ensures DistBase(16) == 257 && DistBase(17) == 385
  {
  }

  lemma FarDistances()
    ensures DistBase(18) == 513 && DistBase(19) == 769
    ensures DistBase(20) == 1025 && DistBase(21) == 1537
    ensures DistBase(22) == 2049 && DistBase(23) == 3073
    ensures DistBase(24) == 4097 && DistBase(25) == 6145
    ensures DistBase(26) == 8193 && DistBase(27) == 12289
    ensures DistBase(28) == 16385 && DistBase(29) == 24577
  {
  }

  lemma NearExtras()
    ensures DistExtra(4) == 1 && DistExtra(5) == 1
    ensures DistExtra(6) == 2 && DistExtra(7) == 2
    ensures DistExtra(8) == 3 && DistExtra(9) == 3
  {
  }

  lemma MiddleExtras()
    ensures DistExtra(10) == 4 && DistExtra(11) == 4
    ensures DistExtra(12) == 5 && DistExtra(13) == 5
    ensures DistExtra(14) == 6 && DistExtra(15) == 6
    ensures DistExtra(16) == 7 && DistExtra(17) == 7
  {
  }

  lemma FarExtras()
    ensures DistExtra(18) == 8 && DistExtra(19) == 8
    ensures DistExtra(20) == 9 && DistExtra(21) == 9
    ensures DistExtra(22) == 10 && DistExtra(23) == 10
    ensures DistExtra(24) == 11 && DistExtra(25) == 11
    ensures DistExtra(26) == 12 && DistExtra(27) == 12
    ensures DistExtra(28) == 13 && DistExtra(29) == 13
  {
  }

  lemma LargePowers()
    ensures Pow2(6) == 64 && Pow2(7) == 128 && Pow2(8) == 256 && Pow2(9) == 512 && Pow2(10) == 1024
    ensures Pow2(11) == 2048 && Pow2(12) == 4096 && Pow2(13) == 8192 && Pow2(14) == 16384
  {
    assert Pow2(10) == 16 * Pow2(6);
    assert Pow2(14) == 16 * Pow2(10);
  }

  lemma DistanceLaw(d: nat)
    requires d < 30
    ensures DistExtra(d) == if d < 2 then 0 else (d - 2) / 2
    ensures d == 0 ==> DistBase(d) == 1
    ensures d < 29 ==> DistBase(d + 1) == DistBase(d) + Pow2(DistExtra(d))
    ensures d == 29 ==> DistBase(d) + Pow2(DistExtra(d)) == 32769
  {
    hide DistBase, DistExtra;
    SmallPowers();
    LargePowers();
    if d < 4 {
      FirstDistances(d);
      if d < 3 {
        FirstDistances(d + 1);
      } else {
        DistanceAt(1, 2);
      }
    } else {
      var e, t := d / 2 - 1, 2 + d % 2;
      DistanceAt(e, t);
      if t < 3 {
        DistanceAt(e, t + 1);
      } else if e < 13 {
        DistanceAt(e + 1, 2);
        assert 2 * Pow2(e + 1) == 4 * Pow2(e);
      }
    }
  }

  /** The symbol for a distance, how many extra bits follow it and which number they are. */
  function DistName(back: nat): (r: (nat, nat, nat))
    requires 1 <= back <= 32768
    ensures r.0 < 30 && r.1 <= 13 && r.2 < Pow2(r.1)
  {
    if back < 5 then (back - 1, 0, 0)
    else
      var m := back - 1;
      HighestIs(m, 2, 14);
      var e := Highest(m) - 1;
      PartOf(m, e, 1);
      (2 * e + m / Pow2(e), e, m % Pow2(e))
  }

  /** Every distance is named by its symbol and extra bits. */
  lemma DistNamed(back: nat)
    requires 1 <= back <= 32768
    ensures var (d, n, v) := DistName(back);
      DistExtra(d) == n && DistBase(d) + v == back
  {
    hide DistBase, DistExtra, Pow2, Highest;
    SmallPowers();
    if back < 5 {
      FirstDistances(back - 1);
    } else {
      var m := back - 1;
      HighestIs(m, 2, 14);
      var e := Highest(m) - 1;
      PartOf(m, e, 1);
      DistanceAt(e, m / Pow2(e));
    }
  }

  // ---------------------------------------------------------------------------------------
  // The names are the only ones

  lemma {:induction false} LengthsApart(l: nat, m: nat)
    requires l < m < 28
    ensures LengthBase(l) + Pow2(LengthExtra(l)) <= LengthBase(m)
    decreases m
  {
    hide LengthBase, LengthExtra, Pow2;
    LengthLaw(m - 1);
    if l == m - 1 {
    } else {
      LengthsApart(l, m - 1);
    }
  }

  /** A symbol and extra bits stand for one length, which has no other name, but for the longest length, which the
      symbol before the last can say too. */
  lemma NameOfLength(l: nat, v: nat)
    requires l < 29 && v < Pow2(LengthExtra(l))
    ensures 3 <= LengthBase(l) + v <= 258
    ensures if l == 27 && v == 31 then LengthBase(l) + v == 258 && LengthExtra(l) == 5
      else LengthName(LengthBase(l) + v) == (257 + l, LengthExtra(l), v)
  {
    hide LengthBase, LengthExtra, LengthName, Pow2;
    SmallPowers();
    LastLength();
    LengthLaw(l);
    LengthLaw(27);
    if l < 27 {
      LengthsApart(l, 27);
    }
    var len := LengthBase(l) + v;
    LengthNamed(len);
    LastName();
    var m := LengthName(len).0 - 257;
    if l < 28 && m < 28 {
      if l < m {
        LengthsApart(l, m);
      } else if m < l {
        LengthsApart(m, l);
      }
    } else if l < 28 {
      LastIsLongest(len);
    }
  }

  lemma LastName()
    ensures LengthName(258) == (285, 0, 0)
  {
  }

  lemma LastIsLongest(len: nat)
    requires 3 <= len <= 258 && LengthName(len).0 == 285
    ensures len == 258
  {
    hide LengthBase, LengthExtra, LengthName;
    LengthNamed(len);
    LastLength();
    SmallPowers();
  }

  lemma {:induction false} DistancesApart(d: nat, m: nat)
    requires d < m < 30
    ensures DistBase(d) + Pow2(DistExtra(d)) <= DistBase(m)
    decreases m
  {
    hide DistBase, DistExtra, Pow2;
    DistanceLaw(m - 1);
    if d == m - 1 {
    } else {
      DistancesApart(d, m - 1);
    }
  }

  /** A distance symbol and extra bits stand for one distance, which has no other name. */
  lemma NameOfDistance(d: nat, v: nat)
    requires d < 30 && v < Pow2(DistExtra(d))
    ensures 1 <= DistBase(d) + v <= 32768
    ensures DistName(DistBase(d) + v) == (d, DistExtra(d), v)
  {
    hide DistBase, DistExtra, DistName, Pow2;
    DistanceLaw(d);
    DistanceLaw(29);
    if d < 29 {
      DistancesApart(d, 29);
    }
    var back := DistBase(d) + v;
    DistNamed(back);
    var m := DistName(back).0;
    if d < m {
      DistancesApart(d, m);
    } else if m < d {
      DistancesApart(m, d);
    }
  }

  // ---------------------------------------------------------------------------------------
  // The order of the code length code

  /** The repeat codes and zero, and then the lengths from the middle outwards. */
  function Order(i: nat): (c: nat)
    requires i < 19
    ensures c < 19
  {
    if i < 3 then 16 + i else if i == 3 then 0 else if i % 2 == 0 then 6 + i / 2 else 7 - (i - 5) / 2
  }

  lemma OrderLaw(i: nat)
    requires i < 19
    ensures CodeOrder(i) == Order(i)
  {
    if i == 0 {
    } else if i == 1 {
    } else if i == 2 {
    } else if i == 3 {
    } else if i == 4 {
    } else if i == 5 {
    } else if i == 6 {
    } else if i == 7 {
    } else if i == 8 {
    } else if i == 9 {
    } else if i == 10 {
    } else if i == 11 {
    } else if i == 12 {
    } else if i == 13 {
    } else if i == 14 {
    } else if i == 15 {
    } else if i == 16 {
    } else if i == 17 {
    } else {
      assert i == 18;
    }
  }

  /** No length is sent twice, and every length has its turn. */
  lemma OrderPermutes(c: nat)
    requires c < 19
    ensures exists i: nat :: i < 19 && CodeOrder(i) == c && forall j: nat | j < 19 && CodeOrder(j) == c :: j == i
  {
    hide CodeOrder;
    var i := if c >= 16 then c - 16 else if c == 0 then 3 else if c >= 8 then 2 * (c - 6) else 2 * (7 - c) + 5;
    OrderLaw(i);
    forall j: nat | j < 19 && CodeOrder(j) == c
      ensures j == i
    {
      OrderLaw(j);
    }
  }
}
