/** Canonical Huffman codes, as section 3.2.2 of RFC 1951 builds them from code lengths. */
module Canonical {
  import opened BitStream

  const MAX_LEN: nat := 15

  predicate Lengths(lens: seq<nat>) {
    forall i | 0 <= i < |lens| :: lens[i] <= MAX_LEN
  }

  /** The number of symbols below n whose code length is l. */
  function CountTo(lens: seq<nat>, n: nat, l: nat): (c: nat)
    requires n <= |lens|
    ensures c <= n
  {
    if n == 0 then 0 else CountTo(lens, n - 1, l) + if lens[n - 1] == l then 1 else 0
  }

  /** The number of codes of length l; length 0 means that the symbol is not coded. */
  function Used(lens: seq<nat>, l: nat): nat {
    if l == 0 then 0 else CountTo(lens, |lens|, l)
  }

  /** The smallest code of length l (step 2 of section 3.2.2). */
  function First(lens: seq<nat>, l: nat): nat {
    if l == 0 then 0 else 2 * (First(lens, l - 1) + Used(lens, l - 1))
  }

  /** The number of codes shorter than l. */
  function Shorter(lens: seq<nat>, l: nat): nat {
    if l == 0 then 0 else Shorter(lens, l - 1) + Used(lens, l - 1)
  }

  /** The code of symbol i (step 3 of section 3.2.2). */
  function Code(lens: seq<nat>, i: nat): nat
    requires i < |lens|
  {
    First(lens, lens[i]) + CountTo(lens, i, lens[i])
  }

  /** The rank of symbol i among the coded symbols ordered by length, then by index. */
  function Slot(lens: seq<nat>, i: nat): nat
    requires i < |lens|
  {
    Shorter(lens, lens[i]) + CountTo(lens, i, lens[i])
  }

  predicate LevelFits(lens: seq<nat>, l: nat) {
    First(lens, l) + Used(lens, l) <= Pow2(l)
  }

  /** Every code fits its length: the code is not over-subscribed. */
  predicate Fits(lens: seq<nat>) {
    forall l | 1 <= l <= MAX_LEN :: LevelFits(lens, l)
  }

  /** The 16-bit window k, first code bit on top, starts with the code of symbol i. */
  predicate Matches(lens: seq<nat>, i: nat, k: nat)
    requires i < |lens| && Lengths(lens)
  {
    lens[i] > 0 && ShiftRight(k, 16 - lens[i]) == Code(lens, i)
  }

  /** The first 16-bit window above all windows that start with a code of length at most l. */
  function Limit(lens: seq<nat>, l: nat): nat
    requires l <= 16
  {
    ShiftLeft(First(lens, l) + Used(lens, l), 16 - l)
  }

  // ---------------------------------------------------------------------------------------
  // Counting

  lemma {:induction false} CountMono(lens: seq<nat>, m: nat, n: nat, l: nat)
    requires m <= n <= |lens|
    ensures CountTo(lens, m, l) <= CountTo(lens, n, l)
  {
    if m == n {
    } else {
      CountMono(lens, m, n - 1, l);
    }
  }

  lemma CountBelow(lens: seq<nat>, i: nat, n: nat)
    requires i < n <= |lens|
    ensures CountTo(lens, i, lens[i]) < CountTo(lens, n, lens[i])
  {
    CountMono(lens, i + 1, n, lens[i]);
  }

  /** The r-th symbol of length l below n. */
  lemma {:induction false} NthSymbol(lens: seq<nat>, n: nat, l: nat, r: nat) returns (i: nat)
    requires n <= |lens| && r < CountTo(lens, n, l)
    ensures i < n && lens[i] == l && CountTo(lens, i, l) == r
  {
    if r == CountTo(lens, n - 1, l) {
      i := n - 1;
    } else {
      i := NthSymbol(lens, n - 1, l, r);
    }
  }

  lemma {:induction false} ShorterMono(lens: seq<nat>, l: nat, m: nat)
    requires l < m
    ensures Shorter(lens, l) + Used(lens, l) <= Shorter(lens, m)
  {
    if l + 1 >= m {
    } else {
      ShorterMono(lens, l, m - 1);
    }
  }

  function ShorterTo(lens: seq<nat>, n: nat, l: nat): nat
    requires n <= |lens|
  {
    if l <= 1 then 0 else ShorterTo(lens, n, l - 1) + CountTo(lens, n, l - 1)
  }

  lemma {:induction false} ShorterToStep(lens: seq<nat>, n: nat, l: nat)
    requires n < |lens|
    ensures ShorterTo(lens, n + 1, l) == ShorterTo(lens, n, l) + if 1 <= lens[n] < l then 1 else 0
  {
    if l <= 1 {
    } else {
      ShorterToStep(lens, n, l - 1);
    }
  }

  lemma {:induction false} ShorterToBound(lens: seq<nat>, n: nat, l: nat)
    requires n <= |lens|
    ensures ShorterTo(lens, n, l) <= n
  {
    if n == 0 {
      ShorterToEmpty(lens, l);
    } else {
      ShorterToBound(lens, n - 1, l);
      ShorterToStep(lens, n - 1, l);
    }
  }

  lemma {:induction false} ShorterToEmpty(lens: seq<nat>, l: nat)
    ensures ShorterTo(lens, 0, l) == 0
  {
    if l <= 1 {
    } else {
      ShorterToEmpty(lens, l - 1);
    }
  }

  lemma {:induction false} ShorterBound(lens: seq<nat>, l: nat)
    ensures Shorter(lens, l) <= |lens|
  {
    ShorterIsShorterTo(lens, l);
    ShorterToBound(lens, |lens|, l);
  }

  lemma {:induction false} ShorterIsShorterTo(lens: seq<nat>, l: nat)
    ensures Shorter(lens, l) == ShorterTo(lens, |lens|, l)
  {
    if l <= 1 {
    } else {
      ShorterIsShorterTo(lens, l - 1);
    }
  }

  /** Slots are distinct and in range: coded symbols are listed without gaps or clashes. */
  lemma SlotBound(lens: seq<nat>, i: nat)
    requires i < |lens| && lens[i] > 0
    ensures Slot(lens, i) < |lens|
  {
    CountBelow(lens, i, |lens|);
    ShorterMono(lens, lens[i], lens[i] + 1);
    ShorterBound(lens, lens[i] + 1);
  }

  lemma SlotInjective(lens: seq<nat>, i: nat, j: nat)
    requires i < |lens| && j < |lens| && i != j && lens[i] > 0 && lens[j] > 0
    ensures Slot(lens, i) != Slot(lens, j)
  {
    if lens[i] == lens[j] {
      if i < j {
        CountBelow(lens, i, j);
      } else {
        CountBelow(lens, j, i);
      }
    } else if lens[i] < lens[j] {
      CountBelow(lens, i, |lens|);
      ShorterMono(lens, lens[i], lens[j]);
    } else {
      CountBelow(lens, j, |lens|);
      ShorterMono(lens, lens[j], lens[i]);
    }
  }

  // ---------------------------------------------------------------------------------------
  // Windows and codes

  lemma LimitStep(lens: seq<nat>, l: nat)
    requires 1 <= l <= 16
    ensures ShiftLeft(First(lens, l), 16 - l) == Limit(lens, l - 1)
    ensures Limit(lens, l) == Limit(lens, l - 1) + ShiftLeft(Used(lens, l), 16 - l)
  {
    ShiftLeftDouble(First(lens, l - 1) + Used(lens, l - 1), 16 - l);
    assert 16 - (l - 1) == 16 - l + 1;
    ShiftLeftAdd(First(lens, l), Used(lens, l), 16 - l);
  }

  lemma {:induction false} LimitMono(lens: seq<nat>, l: nat, m: nat)
    requires l <= m <= 16
    ensures Limit(lens, l) <= Limit(lens, m)
  {
    if l == m {
    } else {
      LimitMono(lens, l, m - 1);
      LimitStep(lens, m);
    }
  }

  /** A window that starts with a code of length l lies between the limits of l - 1 and l. */
  lemma MatchLevel(lens: seq<nat>, i: nat, k: nat)
    requires Lengths(lens) && i < |lens| && Matches(lens, i, k)
    ensures Limit(lens, lens[i] - 1) <= k < Limit(lens, lens[i])
  {
    var l := lens[i];
    LimitStep(lens, l);
    CountBelow(lens, i, |lens|);
    ShiftRightRange(k, 16 - l, First(lens, l), First(lens, l) + Used(lens, l));
  }

  /** Conversely a window between the limits of l - 1 and l starts with a code of length l,
      the one whose slot the window and the first code of that length give. */
  lemma LevelMatch(lens: seq<nat>, l: nat, k: nat) returns (i: nat)
    requires Lengths(lens) && 1 <= l <= MAX_LEN
    requires Limit(lens, l - 1) <= k < Limit(lens, l)
    ensures i < |lens| && lens[i] == l && Matches(lens, i, k)
    ensures First(lens, l) <= ShiftRight(k, 16 - l)
    ensures Slot(lens, i) == ShiftRight(k, 16 - l) - First(lens, l) + Shorter(lens, l)
  {
    LimitStep(lens, l);
    ShiftRightRange(k, 16 - l, First(lens, l), First(lens, l) + Used(lens, l));
    i := NthSymbol(lens, |lens|, l, ShiftRight(k, 16 - l) - First(lens, l));
  }

  /** No window starts with two codes: the code is prefix-free. */
  lemma PrefixFree(lens: seq<nat>, i: nat, j: nat, k: nat)
    requires Lengths(lens) && i < |lens| && j < |lens|
    requires Matches(lens, i, k) && Matches(lens, j, k)
    ensures i == j
  {
    MatchLevel(lens, i, k);
    MatchLevel(lens, j, k);
    if lens[i] < lens[j] {
      LimitMono(lens, lens[i], lens[j] - 1);
    } else if lens[j] < lens[i] {
      LimitMono(lens, lens[j], lens[i] - 1);
    } else if i < j {
      CountBelow(lens, i, j);
    } else if j < i {
      CountBelow(lens, j, i);
    }
  }

  /** A window below the limit of l starts with some code of length at most l. */
  lemma {:induction false} Covered(lens: seq<nat>, l: nat, k: nat) returns (i: nat)
    requires Lengths(lens) && l <= MAX_LEN && k < Limit(lens, l)
    ensures i < |lens| && 1 <= lens[i] <= l && Matches(lens, i, k)
  {
    ShiftLeftZero(16);
    if l == 0 {
      assert false;
    } else if k < Limit(lens, l - 1) {
      i := Covered(lens, l - 1, k);
    } else {
      i := LevelMatch(lens, l, k);
    }
  }

  lemma CodeFits(lens: seq<nat>, i: nat)
    requires Lengths(lens) && Fits(lens) && i < |lens| && lens[i] > 0
    ensures Code(lens, i) < Pow2(lens[i])
  {
    CountBelow(lens, i, |lens|);
    assert LevelFits(lens, lens[i]);
  }

  // ---------------------------------------------------------------------------------------
  // Which code lengths can be built

  /** The Kraft sum of the first n symbols, in units of 2^-15. */
  function KraftTo(lens: seq<nat>, n: nat): nat
    requires n <= |lens| && Lengths(lens)
  {
    if n == 0 then 0
    else KraftTo(lens, n - 1) + if lens[n - 1] > 0 then Pow2(MAX_LEN - lens[n - 1]) else 0
  }

  function LevelSum(lens: seq<nat>, n: nat, l: nat): nat
    requires n <= |lens| && l <= MAX_LEN
  {
    if l == 0 then 0 else LevelSum(lens, n, l - 1) + ShiftLeft(CountTo(lens, n, l), MAX_LEN - l)
  }

  lemma {:induction false} LevelSumStep(lens: seq<nat>, n: nat, l: nat)
    requires n < |lens| && l <= MAX_LEN && Lengths(lens)
    ensures LevelSum(lens, n + 1, l)
         == LevelSum(lens, n, l) + if 1 <= lens[n] <= l then Pow2(MAX_LEN - lens[n]) else 0
  {
    if l == 0 {
    } else {
      LevelSumStep(lens, n, l - 1);
      ShiftLeftAdd(CountTo(lens, n, l), 1, MAX_LEN - l);
      ShiftPow2(0, MAX_LEN - l);
    }
  }

  lemma {:induction false} LevelSumEmpty(lens: seq<nat>, l: nat)
    requires l <= MAX_LEN
    ensures LevelSum(lens, 0, l) == 0
  {
    if l == 0 {
    } else {
      LevelSumEmpty(lens, l - 1);
      ShiftLeftZero(MAX_LEN - l);
    }
  }

  lemma {:induction false} LevelSumIsKraft(lens: seq<nat>, n: nat)
    requires n <= |lens| && Lengths(lens)
    ensures LevelSum(lens, n, MAX_LEN) == KraftTo(lens, n)
  {
    if n == 0 {
      LevelSumEmpty(lens, MAX_LEN);
    } else {
      LevelSumIsKraft(lens, n - 1);
      LevelSumStep(lens, n - 1, MAX_LEN);
    }
  }

  lemma {:induction false} EndIsLevelSum(lens: seq<nat>, l: nat)
    requires l <= MAX_LEN
    ensures ShiftLeft(First(lens, l) + Used(lens, l), MAX_LEN - l) == LevelSum(lens, |lens|, l)
  {
    if l == 0 {
      ShiftLeftZero(MAX_LEN);
    } else {
      EndIsLevelSum(lens, l - 1);
      ShiftLeftDouble(First(lens, l - 1) + Used(lens, l - 1), MAX_LEN - l);
      assert MAX_LEN - (l - 1) == MAX_LEN - l + 1;
      ShiftLeftAdd(First(lens, l), Used(lens, l), MAX_LEN - l);
    }
  }

  lemma {:induction false} LevelSumMono(lens: seq<nat>, l: nat, m: nat)
    requires l <= m <= MAX_LEN
    ensures LevelSum(lens, |lens|, l) <= LevelSum(lens, |lens|, m)
  {
    if l == m {
    } else {
      LevelSumMono(lens, l, m - 1);
    }
  }

  lemma KraftLevel(lens: seq<nat>, l: nat)
    requires l <= MAX_LEN && LevelSum(lens, |lens|, MAX_LEN) <= Pow2(MAX_LEN)
    ensures LevelFits(lens, l)
  {
    hide Pow2, ShiftLeft, LevelSum, First, Used;
    EndIsLevelSum(lens, l);
    LevelSumMono(lens, l, MAX_LEN);
    ShiftPow2(l, MAX_LEN - l);
    ShiftLeftMono(First(lens, l) + Used(lens, l), Pow2(l), MAX_LEN - l);
  }

  /** A list of lengths has a canonical code exactly when its Kraft sum is at most one. */
  lemma FitsIffKraft(lens: seq<nat>)
    requires Lengths(lens)
    ensures Fits(lens) <==> KraftTo(lens, |lens|) <= Pow2(MAX_LEN)
  {
    hide LevelFits, LevelSum, KraftTo, Lengths;
    LevelSumIsKraft(lens, |lens|);
    TopLevel(lens);
    if LevelSum(lens, |lens|, MAX_LEN) <= Pow2(MAX_LEN) {
      forall l | 1 <= l <= MAX_LEN
        ensures LevelFits(lens, l)
      {
        KraftLevel(lens, l);
      }
    }
  }

  lemma TopLevel(lens: seq<nat>)
    ensures LevelSum(lens, |lens|, MAX_LEN) <= Pow2(MAX_LEN) <==> LevelFits(lens, MAX_LEN)
  {
    hide First, Used, LevelSum;
    EndIsLevelSum(lens, MAX_LEN);
    assert ShiftLeft(First(lens, MAX_LEN) + Used(lens, MAX_LEN), 0) == First(lens, MAX_LEN) + Used(lens, MAX_LEN);
  }
}
