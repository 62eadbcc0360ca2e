/** Reversal of sixteen bits by four swaps on machine words, and how words and numbers correspond. */
module BitSwaps {
  import opened BitStream

  /** Neighbouring bits, pairs, fours and bytes are swapped in turn. */
  function Swaps(n: bv16): bv16 {
    var n1 := ((n & 0xAAAA) >> 1) | ((n & 0x5555) << 1);
    var n2 := ((n1 & 0xCCCC) >> 2) | ((n1 & 0x3333) << 2);
    var n3 := ((n2 & 0xF0F0) >> 4) | ((n2 & 0x0F0F) << 4);
    ((n3 & 0xFF00) >> 8) | ((n3 & 0x00FF) << 8)
  }

  // ---------------------------------------------------------------------------------------
  // Words and numbers by their bits, the lowest first

  /** The n low bits of a number. */
  function Bits(v: nat, n: nat): (b: seq<bool>)
    ensures |b| == n
    decreases n, v
  {
    if n == 0 then [] else [v % 2 == 1] + Bits(v / 2, n - 1)
  }

  function Number(b: seq<bool>): nat {
    if b == [] then 0 else (if b[0] then 1 else 0) + 2 * Number(b[1..])
  }

  function Backwards(b: seq<bool>): (r: seq<bool>)
    ensures |r| == |b|
  {
    if b == [] then [] else Backwards(b[1..]) + [b[0]]
  }

  /** The word with bit k only. */
  function Single(k: nat): (w: bv16)
    requires k < 16
    ensures w != 0
  {
    if k == 0 then 1 else if k == 1 then 2 else if k == 2 then 4 else if k == 3 then 8
    else if k == 4 then 16 else if k == 5 then 32 else if k == 6 then 64 else if k == 7 then 128
    else if k == 8 then 256 else if k == 9 then 512 else if k == 10 then 1024 else if k == 11 then 2048
    else if k == 12 then 4096 else if k == 13 then 8192 else if k == 14 then 16384
    else 32768
  }

  predicate BitOf(w: bv16, k: nat)
    requires k < 16
  {
    w & Single(k) != 0
  }

  /** The word with the first n of these bits. */
  function Word(b: seq<bool>, n: nat): bv16
    requires n <= |b| <= 16
    decreases n, b
  {
    if n == 0 then 0
    else if b[n - 1] then Word(b, n - 1) | Single(n - 1) else Word(b, n - 1)
  }

  function ToWord(v: nat): bv16 {
    Word(Bits(v, 16), 16)
  }

  function OfWord(w: bv16): nat {
    Number(seq(16, k requires 0 <= k < 16 => BitOf(w, k)))
  }

  // ---------------------------------------------------------------------------------------
  // The swaps reverse

  lemma NoBit(k: nat)
    requires k < 16
    ensures !BitOf(0, k)
  {
  }

  lemma BitIs(w: bv16, k: nat, q: bv16)
    requires k < 16 && q == Single(k)
    ensures BitOf(w, k) == (w & q != 0)
  {
  }

  lemma OrOther(w: bv16, m: nat, k: nat, p: bv16, q: bv16, x: bv16)
    requires m < 16 && k < 16 && p == Single(m) && q == Single(k) && p & q == 0 && x == w | p
    ensures BitOf(x, k) == BitOf(w, k)
  {
    hide *;
    BitIs(w, k, q);
    BitIs(x, k, q);
    OrApart(w, p, q);
  }

  lemma OrIt(w: bv16, k: nat, p: bv16, x: bv16)
    requires k < 16 && p == Single(k) && x == w | p
    ensures BitOf(x, k)
  {
    hide *;
    BitIs(x, k, p);
    OrSame(w, p);
  }

  /** Setting bit m leaves the other bits. */
  lemma OrBit(w: bv16, m: nat, k: nat, p: bv16, x: bv16)
    requires m < 16 && k < 16 && p == Single(m) && x == w | p
    ensures BitOf(x, k) <==> k == m || BitOf(w, k)
  {
    hide *;
    if k == m {
      OrIt(w, k, p, x);
    } else {
      Apart(m, k, p, Single(k));
      OrOther(w, m, k, p, Single(k), x);
    }
  }

  lemma OrApart(w: bv16, p: bv16, q: bv16)
    requires p & q == 0
    ensures (w | p) & q == w & q
  {
  }

  lemma OrSame(w: bv16, p: bv16)
    ensures (w | p) & p == p
  {
  }

  lemma Apart(m: nat, k: nat, p: bv16, q: bv16)
    requires m < 16 && k < 16 && m != k && p == Single(m) && q == Single(k)
    ensures p & q == 0
  {
  }

  lemma {:induction false} WordBit(b: seq<bool>, n: nat, k: nat)
    requires n <= |b| == 16 && k < 16
    ensures BitOf(Word(b, n), k) == (k < n && b[k])
    decreases n
  {
    hide BitOf, Single;
    if n == 0 {
      NoBit(k);
    } else {
      WordBit(b, n - 1, k);
      OrBit(Word(b, n - 1), n - 1, k, Single(n - 1), Word(b, n - 1) | Single(n - 1));
    }
  }

  lemma SwappedBit(w: bv16, k: nat)
    requires k < 16
    ensures BitOf(Swaps(w), k) == BitOf(w, 15 - k)
  {
  }

  lemma {:induction false} BackwardsAt(b: seq<bool>, k: nat)
    requires k < |b|
    ensures Backwards(b)[k] == b[|b| - 1 - k]
  {
    if k >= |b| - 1 {
    } else {
      BackwardsAt(b[1..], k);
    }
  }

  lemma {:induction false} NumberSnoc(b: seq<bool>, last: bool)
    ensures Number(b + [last]) == Number(b) + if last then Pow2(|b|) else 0
  {
    if b == [] {
      assert ([last])[1..] == [];
    } else {
      NumberSnoc(b[1..], last);
      assert (b + [last])[1..] == b[1..] + [last];
    }
  }

  /** Bits read backwards are the reversed number. */
  lemma {:induction false} NumberBackwards(v: nat, n: nat)
    ensures Number(Backwards(Bits(v, n))) == Reverse(v, n)
    decreases n
  {
    if n == 0 {
    } else {
      NumberBackwards(v / 2, n - 1);
      var b := Bits(v, n);
      assert b[1..] == Bits(v / 2, n - 1);
      NumberSnoc(Backwards(b[1..]), b[0]);
    }
  }

  /** The four swaps reverse the sixteen low bits of any number. */
  lemma SwapsReverse(v: nat)
    ensures OfWord(Swaps(ToWord(v))) == Reverse(v, 16)
  {
    hide Swaps, Word, BitOf, Number, Backwards, Bits;
    var b := Bits(v, 16);
    var w := Word(b, 16);
    var c := seq(16, k requires 0 <= k < 16 => BitOf(Swaps(w), k));
    forall k | 0 <= k < 16
      ensures c[k] == Backwards(b)[k]
    {
      SwappedBit(w, k);
      WordBit(b, 16, 15 - k);
      BackwardsAt(b, k);
    }
    assert c == Backwards(b);
    NumberBackwards(v, 16);
  }
}
