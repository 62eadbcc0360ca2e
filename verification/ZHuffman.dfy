/** The decoding tables of one Huffman code: a direct table for codes of up to nine bits and
    first-code tables by length for the others. */
module ZHuffman {
  import opened BitStream
  import opened Canonical
  import W = BitSwaps

  const FAST_BITS: nat := 9
  const FAST_SIZE: nat := 512
  const SYMBOLS: nat := 288

  /** The fast slot j, first code bit lowest, starts with the code of symbol i. */
  predicate FastMatch(lens: seq<nat>, i: nat, j: nat)
    requires i < |lens|
  {
    0 < lens[i] <= FAST_BITS && Reverse(j, lens[i]) == Code(lens, i)
  }

  /** The content of fast slot j once the first n symbols are entered. */
  function FastEntry(lens: seq<nat>, n: nat, j: nat): nat
    requires n <= |lens|
  {
    if n == 0 then 0
    else if FastMatch(lens, n - 1, j) then lens[n - 1] * 512 + (n - 1)
    else FastEntry(lens, n - 1, j)
  }

  /** The low n bits of v reversed, computed by reversing 16 bits by swaps and shifting. */
  function BitReverse(v: nat, n: nat): (r: nat)
    requires n <= 16
    ensures r == Reverse(v, n)
  {
    W.SwapsReverse(v);
    ReverseShift(v, n, 16 - n);
    assert n + (16 - n) == 16;
    ShiftRight(W.OfWord(W.Swaps(W.ToWord(v))), 16 - n)
  }

  /** A fast slot matches a short code exactly when the window it is the start of does. */
  lemma FastIsMatch(lens: seq<nat>, i: nat, w: nat)
    requires Lengths(lens) && i < |lens|
    ensures FastMatch(lens, i, LowBits(w, FAST_BITS))
       <==> lens[i] <= FAST_BITS && Matches(lens, i, Reverse(w, 16))
  {
    var l := lens[i];
    ReverseShift(w, l, 16 - l);
    assert l + (16 - l) == 16;
    if l <= FAST_BITS {
      ReverseLow(w, l, FAST_BITS);
    }
  }

  /** No two symbols own the same fast slot. */
  lemma FastOwner(lens: seq<nat>, i: nat, m: nat, j: nat)
    requires Lengths(lens) && i < |lens| && m < |lens| && j < FAST_SIZE
    requires FastMatch(lens, i, j) && FastMatch(lens, m, j)
    ensures i == m
  {
    assert Pow2(9) == FAST_SIZE;
    LowBitsSmall(j, FAST_BITS);
    FastIsMatch(lens, i, j);
    FastIsMatch(lens, m, j);
    assert Matches(lens, i, Reverse(j, 16)) && Matches(lens, m, Reverse(j, 16));
    PrefixFree(lens, i, m, Reverse(j, 16));
  }

  /** A fast slot holds its owner, and zero when it has none among the symbols entered. */
  lemma {:induction false} FastEntryOwner(lens: seq<nat>, n: nat, j: nat)
    requires Lengths(lens) && n <= |lens| && j < FAST_SIZE
    ensures forall i | 0 <= i < n && FastMatch(lens, i, j) :: FastEntry(lens, n, j) == lens[i] * 512 + i
    ensures FastEntry(lens, n, j) == 0 <==> forall i | 0 <= i < n :: !FastMatch(lens, i, j)
  {
    if n == 0 {
    } else {
      FastEntryOwner(lens, n - 1, j);
      if FastMatch(lens, n - 1, j) {
        forall i | 0 <= i < n && FastMatch(lens, i, j)
          ensures i == n - 1
        {
          FastOwner(lens, i, n - 1, j);
        }
      }
    }
  }

  /** The fast table gives the symbol whose code starts the window, unless that code is long
      or there is none. */
  lemma FastLookup(lens: seq<nat>, w: nat)
    requires Lengths(lens) && |lens| <= SYMBOLS
    ensures var b := FastEntry(lens, |lens|, LowBits(w, FAST_BITS));
      if b != 0 then
        && b % 512 < |lens| && lens[b % 512] == b / 512 && 1 <= b / 512 <= FAST_BITS
        && Matches(lens, b % 512, Reverse(w, 16))
      else
        forall i | 0 <= i < |lens| && Matches(lens, i, Reverse(w, 16)) :: lens[i] > FAST_BITS
  {
    hide FastMatch, FastEntry, Matches, Reverse;
    var j := LowBits(w, FAST_BITS);
    assert Pow2(9) == FAST_SIZE;
    FastEntryOwner(lens, |lens|, j);
    var b := FastEntry(lens, |lens|, j);
    if b != 0 {
      var i: nat :| i < |lens| && FastMatch(lens, i, j);
      FastIsMatch(lens, i, w);
      ShortCode(lens, i, j);
      assert b / 512 == lens[i] && b % 512 == i;
    } else {
      forall i | 0 <= i < |lens| && Matches(lens, i, Reverse(w, 16))
        ensures lens[i] > FAST_BITS
      {
        FastIsMatch(lens, i, w);
      }
    }
  }

  lemma ShortCode(lens: seq<nat>, i: nat, j: nat)
    requires i < |lens| && FastMatch(lens, i, j)
    ensures 1 <= lens[i] <= FAST_BITS
  {
  }

  /** A window that starts with no short code is searched by length: it lies below the limit
      of s only if a code of length at most s starts it. */
  lemma SlowSearch(lens: seq<nat>, k: nat, s: nat)
    requires Lengths(lens) && FAST_BITS < s <= 16
    requires forall i | 0 <= i < |lens| && Matches(lens, i, k) :: lens[i] >= s
    ensures k >= Limit(lens, s - 1)
  {
    hide Matches, Limit;
    if k < Limit(lens, s - 1) {
      var i := Covered(lens, s - 1, k);
    }
  }

  lemma SlowNext(lens: seq<nat>, k: nat, s: nat)
    requires Lengths(lens) && s <= MAX_LEN && k >= Limit(lens, s)
    ensures forall i | 0 <= i < |lens| && Matches(lens, i, k) :: lens[i] > s
  {
    hide Matches, Limit;
    forall i | 0 <= i < |lens| && Matches(lens, i, k)
      ensures lens[i] > s
    {
      MatchPositive(lens, i, k);
      MatchLevel(lens, i, k);
      if lens[i] <= s {
        LimitMono(lens, lens[i], s);
      }
    }
  }

  lemma MatchPositive(lens: seq<nat>, i: nat, k: nat)
    requires Lengths(lens) && i < |lens| && Matches(lens, i, k)
    ensures lens[i] > 0
  {
  }

  /** The slots a code owns are those whose low bits are its reversal. */
  lemma SlotResidue(code: nat, s: nat, j: nat)
    requires code < Pow2(s)
    ensures Reverse(j, s) == code <==> LowBits(j, s) == Reverse(code, s)
  {
    ReverseLow(j, s, s);
    ReverseInvolution(code, s);
    ReverseInvolution(LowBits(j, s), s);
  }

  /** The slots a code owns start at its reversal and lie one power of two apart. */
  lemma FirstSlot(lens: seq<nat>, i: nat)
    requires Lengths(lens) && Fits(lens) && i < |lens| && 1 <= lens[i] <= FAST_BITS
    ensures FastMatch(lens, i, Reverse(Code(lens, i), lens[i]))
    ensures forall m | 0 <= m < Reverse(Code(lens, i), lens[i]) :: !FastMatch(lens, i, m)
  {
    CodeFits(lens, i);
    var code, s := Code(lens, i), lens[i];
    var j := Reverse(code, s);
    ReverseInvolution(code, s);
    forall m: nat | m < j
      ensures !FastMatch(lens, i, m)
    {
      SlotResidue(code, s, m);
      LowBitsSmall(m, s);
    }
  }

  lemma NextSlot(lens: seq<nat>, i: nat, j: nat)
    requires Lengths(lens) && Fits(lens) && i < |lens| && FastMatch(lens, i, j)
    ensures FastMatch(lens, i, j + Pow2(lens[i]))
    ensures forall m | j < m < j + Pow2(lens[i]) :: !FastMatch(lens, i, m)
  {
    hide Code, Fits, Pow2, LowBits, Reverse, Lengths;
    CodeFits(lens, i);
    var code, s := Code(lens, i), lens[i];
    SlotResidue(code, s, j);
    forall m: nat | j < m < j + Pow2(s)
      ensures !FastMatch(lens, i, m)
    {
      SlotResidue(code, s, m);
      LowBitsGap(j, m, s);
    }
    SlotResidue(code, s, j + Pow2(s));
    LowBitsNext(j, s);
  }

  /** The fast table once the first n symbols are entered. */
  ghost function FastSeq(lens: seq<nat>, n: nat): (f: seq<nat>)
    requires n <= |lens|
    ensures |f| == FAST_SIZE
  {
    seq(FAST_SIZE, j requires 0 <= j < FAST_SIZE => FastEntry(lens, n, j))
  }

  /** The fast table while symbol i is being entered, in the slots below j so far. */
  ghost function FillSeq(lens: seq<nat>, i: nat, j: nat): (f: seq<nat>)
    requires i < |lens|
    ensures |f| == FAST_SIZE
  {
    seq(FAST_SIZE, m requires 0 <= m < FAST_SIZE => FillEntry(lens, i, j, m))
  }

  ghost function FillEntry(lens: seq<nat>, i: nat, j: nat, m: nat): nat
    requires i < |lens|
  {
    if m < j then FastEntry(lens, i + 1, m) else FastEntry(lens, i, m)
  }

  lemma FillStart(lens: seq<nat>, i: nat)
    requires Lengths(lens) && Fits(lens) && i < |lens| && 1 <= lens[i] <= FAST_BITS
    ensures FillSeq(lens, i, Reverse(Code(lens, i), lens[i])) == FastSeq(lens, i)
    ensures FastMatch(lens, i, Reverse(Code(lens, i), lens[i]))
  {
    FirstSlot(lens, i);
    var j := Reverse(Code(lens, i), lens[i]);
    forall m | 0 <= m < FAST_SIZE
      ensures FillEntry(lens, i, j, m) == FastEntry(lens, i, m)
    {
    }
  }

  lemma FillStep(lens: seq<nat>, i: nat, j: nat)
    requires Lengths(lens) && Fits(lens) && i < |lens| <= SYMBOLS
    requires j < FAST_SIZE && FastMatch(lens, i, j)
    ensures FillSeq(lens, i, j)[j] == 0
    ensures FastMatch(lens, i, j + Pow2(lens[i]))
    ensures FillSeq(lens, i, j)[j := lens[i] * 512 + i] == FillSeq(lens, i, j + Pow2(lens[i]))
  {
    FastEntryOwner(lens, i, j);
    forall m | 0 <= m < i
      ensures !FastMatch(lens, m, j)
    {
      if FastMatch(lens, m, j) {
        FastOwner(lens, m, i, j);
      }
    }
    NextSlot(lens, i, j);
    var k := j + Pow2(lens[i]);
    forall m | 0 <= m < FAST_SIZE
      ensures FillEntry(lens, i, k, m) == if m == j then lens[i] * 512 + i else FillEntry(lens, i, j, m)
    {
    }
  }

  lemma FillEnd(lens: seq<nat>, i: nat, j: nat)
    requires i < |lens| && FAST_SIZE <= j
    ensures FillSeq(lens, i, j) == FastSeq(lens, i + 1)
  {
    forall m | 0 <= m < FAST_SIZE
      ensures FillEntry(lens, i, j, m) == FastEntry(lens, i + 1, m)
    {
    }
  }

  /** Enters one short code in every fast slot it owns; each was still empty. */
  method FillFast(fast: array<nat>, lens: seq<nat>, i: nat, code: nat)
    requires Lengths(lens) && Fits(lens) && i < |lens| <= SYMBOLS
    requires 1 <= lens[i] <= FAST_BITS && code == Code(lens, i)
    requires fast.Length == FAST_SIZE && fast[..] == FastSeq(lens, i)
    modifies fast
    ensures fast[..] == FastSeq(lens, i + 1)
  {
    hide Code, FastMatch, FastSeq, FillSeq, Fits, Lengths, Pow2, Reverse, BitReverse;
    var s := lens[i];
    var fastv: nat := (s * 512 + i) % 0x10000;
    FillStart(lens, i);
    var j := BitReverse(code, s);
    ghost var filled := fast[..];
    while j < FAST_SIZE
      invariant FastMatch(lens, i, j)
      invariant fast[..] == filled == FillSeq(lens, i, j)
    {
      FillStep(lens, i, j);
      assert fast[j] == 0;
      fast[j] := fastv;
      filled := filled[j := fastv];
      j := j + Pow2(s);
    }
    FillEnd(lens, i, j);
  }

  lemma NoFastEntry(lens: seq<nat>, i: nat)
    requires i < |lens| && !(1 <= lens[i] <= FAST_BITS)
    ensures FastSeq(lens, i + 1) == FastSeq(lens, i)
  {
  }

  predicate FitsBelow(lens: seq<nat>, n: nat) {
    forall l | 1 <= l < n :: LevelFits(lens, l)
  }

  lemma FirstBound(lens: seq<nat>, l: nat)
    requires 1 <= l <= MAX_LEN && FitsBelow(lens, l)
    ensures First(lens, l) <= Pow2(l) <= 0x8000
  {
    hide CountTo;
    assert l > 1 ==> LevelFits(lens, l - 1);
    PowerBound(l);
  }

  lemma PowerBound(l: nat)
    requires l <= 15
    ensures Pow2(l) <= 0x8000
  {
    Pow2Mono(l, 15);
    WordSizes();
  }

  class ZHuffman {
    const fast: array<nat>
    const firstcode: array<nat>
    const maxcode: array<nat>
    const firstsymbol: array<nat>
    const size: array<nat>
    const value: array<nat>
    ghost const Repr: set<object>

    ghost predicate Shape() {
      && fast.Length == FAST_SIZE && firstcode.Length == 16 && maxcode.Length == 17
      && firstsymbol.Length == 16 && size.Length == SYMBOLS && value.Length == SYMBOLS
      && Repr == {this, fast, firstcode, maxcode, firstsymbol, size, value}
      && fast != firstcode && fast != maxcode && fast != firstsymbol && fast != size && fast != value
      && firstcode != maxcode && firstcode != firstsymbol && firstcode != size && firstcode != value
      && maxcode != firstsymbol && maxcode != size && maxcode != value
      && firstsymbol != size && firstsymbol != value && size != value
    }

    ghost predicate LevelTables(lens: seq<nat>, n: nat)
      requires Shape() && n <= 16
      reads firstcode, firstsymbol, maxcode
    {
      forall l {:trigger firstcode[l]} {:trigger firstsymbol[l]} {:trigger maxcode[l]} | 1 <= l < n ::
        && firstcode[l] == First(lens, l)
        && firstsymbol[l] == Shorter(lens, l)
        && maxcode[l] == Limit(lens, l)
    }

    ghost predicate FirstCodes(lens: seq<nat>, n: nat, nextCode: array<nat>)
      requires nextCode.Length == 16 && n <= 16
      reads nextCode
    {
      forall l {:trigger nextCode[l]} | 1 <= l < n :: nextCode[l] == First(lens, l)
    }

    ghost predicate NextCodes(lens: seq<nat>, n: nat, nextCode: array<nat>)
      requires nextCode.Length == 16 && n <= |lens|
      reads nextCode
    {
      forall l {:trigger nextCode[l]} | 1 <= l < 16 :: nextCode[l] == First(lens, l) + CountTo(lens, n, l)
    }

    ghost predicate Sizes(lens: seq<nat>, sizes: array<nat>)
      requires sizes.Length == 17
      reads sizes
    {
      forall l {:trigger sizes[l]} | 0 <= l <= MAX_LEN :: sizes[l] == Used(lens, l)
    }

    ghost predicate SymbolTables(lens: seq<nat>, n: nat)
      requires Shape() && n <= |lens| <= SYMBOLS
      reads size, value
    {
      forall i {:trigger Slot(lens, i)} | 0 <= i < n && lens[i] > 0 ::
        && Slot(lens, i) < |lens|
        && size[Slot(lens, i)] == lens[i]
        && value[Slot(lens, i)] == i
    }

    ghost predicate FastTable(lens: seq<nat>, n: nat)
      requires Shape() && n <= |lens|
      reads fast
    {
      fast[..] == FastSeq(lens, n)
    }

    /** The tables are those of the canonical code with these lengths. */
    ghost predicate Represents(lens: seq<nat>)
      reads Repr
    {
      && Shape() && |lens| <= SYMBOLS && Lengths(lens) && Fits(lens)
      && LevelTables(lens, 16) && maxcode[16] == 0x10000
      && SymbolTables(lens, |lens|)
      && FastTable(lens, |lens|)
    }

    constructor ()
      ensures Shape() && fresh(Repr)
    {
      var f, v := new nat[FAST_SIZE], new nat[SYMBOLS];
      var c, m, y, z := new nat[16], new nat[17], new nat[16], new nat[SYMBOLS];
      fast, firstcode, maxcode, firstsymbol, size, value := f, c, m, y, z, v;
      Repr := {this, f, c, m, y, z, v};
    }

    /** Builds the tables; refuses exactly the over-subscribed lists of lengths. */
    method Build(sizelist: seq<nat>) returns (ok: bool)
      requires Shape() && |sizelist| <= SYMBOLS && Lengths(sizelist)
      modifies Repr
      ensures ok <==> Fits(sizelist)
      ensures ok ==> Represents(sizelist)
    {
      var nextCode := new nat[16];
      ok := BuildLevels(sizelist, nextCode);
      if !ok {
        return;
      }
      BuildSymbols(sizelist, nextCode);
    }

    method CountSizes(sizelist: seq<nat>, sizes: array<nat>)
      requires sizes.Length == 17 && Lengths(sizelist)
      modifies sizes
      ensures Sizes(sizelist, sizes)
    {
      for l := 0 to 17
        invariant forall m | 0 <= m < l :: sizes[m] == 0
      {
        sizes[l] := 0;
      }
      for i := 0 to |sizelist|
        invariant forall l {:trigger sizes[l]} | 0 <= l <= MAX_LEN :: sizes[l] == CountTo(sizelist, i, l)
      {
        sizes[sizelist[i]] := sizes[sizelist[i]] + 1;
      }
      sizes[0] := 0;
    }

    method ClearFast(ghost lens: seq<nat>)
      requires Shape()
      modifies fast
      ensures FastTable(lens, 0)
    {
      for j := 0 to FAST_SIZE
        invariant forall m | 0 <= m < j :: fast[m] == 0
      {
        fast[j] := 0;
      }
    }

    method BuildLevels(sizelist: seq<nat>, nextCode: array<nat>) returns (ok: bool)
      requires Shape() && |sizelist| <= SYMBOLS && Lengths(sizelist)
      requires nextCode.Length == 16 && nextCode !in Repr
      modifies fast, firstcode, firstsymbol, maxcode, nextCode
      ensures ok <==> Fits(sizelist)
      ensures ok ==> LevelTables(sizelist, 16) && maxcode[16] == 0x10000 && FastTable(sizelist, 0)
      ensures ok ==> NextCodes(sizelist, 0, nextCode)
    {
      var sizes := new nat[17];
      CountSizes(sizelist, sizes);
      ClearFast(sizelist);
      hide FastSeq, FastTable, ShiftLeft;
      for i := 1 to 16 {
        if sizes[i] > Pow2(i) {
          assert !LevelFits(sizelist, i);
          return false;
        }
      }
      var code, k := 0, 0;
      for i := 1 to 16
        invariant Sizes(sizelist, sizes) && FastTable(sizelist, 0)
        invariant code == First(sizelist, i) && k == Shorter(sizelist, i)
        invariant LevelTables(sizelist, i) && FirstCodes(sizelist, i, nextCode)
        invariant FitsBelow(sizelist, i)
      {
        ok, code, k := OneLevel(sizelist, i, code, k, sizes[i], nextCode);
        if !ok {
          return;
        }
      }
      maxcode[16] := 0x10000;
      return true;
    }

    /** Gives out the codes of one length. */
    method OneLevel(ghost lens: seq<nat>, i: nat, first: nat, shorter: nat, used: nat, nextCode: array<nat>)
      returns (ok: bool, code: nat, k: nat)
      requires Shape() && |lens| <= SYMBOLS && Lengths(lens) && 1 <= i <= MAX_LEN
      requires nextCode.Length == 16 && nextCode !in Repr
      requires first == First(lens, i) && shorter == Shorter(lens, i) && used == Used(lens, i)
      requires LevelTables(lens, i) && FirstCodes(lens, i, nextCode) && FitsBelow(lens, i)
      modifies firstcode, firstsymbol, maxcode, nextCode
      ensures ok <==> LevelFits(lens, i)
      ensures ok ==> LevelTables(lens, i + 1) && FirstCodes(lens, i + 1, nextCode) && FitsBelow(lens, i + 1)
      ensures ok ==> code == First(lens, i + 1) && k == Shorter(lens, i + 1)
    {
      hide Used, Lengths;
      code, k := first, shorter;
      FirstBound(lens, i);
      StoreFirst(lens, i, code, k, nextCode);
      code := code + used;
      if used > 0 && code - 1 >= Pow2(i) {
        return false, code, k;
      }
      maxcode[i] := ShiftLeft(code, 16 - i);
      code := code * 2;
      k := k + used;
      ok := true;
    }

    method StoreFirst(ghost lens: seq<nat>, i: nat, code: nat, k: nat, nextCode: array<nat>)
      requires Shape() && |lens| <= SYMBOLS && Lengths(lens) && 1 <= i <= MAX_LEN
      requires nextCode.Length == 16 && nextCode !in Repr
      requires code == First(lens, i) && k == Shorter(lens, i) && FitsBelow(lens, i)
      requires LevelTables(lens, i) && FirstCodes(lens, i, nextCode)
      modifies firstcode, firstsymbol, nextCode
      ensures LevelTables(lens, i) && FirstCodes(lens, i + 1, nextCode)
      ensures firstcode[i] == code && firstsymbol[i] == k
    {
      FirstBound(lens, i);
      ShorterBound(lens, i);
      nextCode[i] := code;
      firstcode[i] := code % 0x10000;
      firstsymbol[i] := k % 0x10000;
    }

    method BuildSymbols(sizelist: seq<nat>, nextCode: array<nat>)
      requires Shape() && |sizelist| <= SYMBOLS && Lengths(sizelist) && Fits(sizelist)
      requires nextCode.Length == 16 && nextCode !in Repr
      requires LevelTables(sizelist, 16) && FastTable(sizelist, 0) && NextCodes(sizelist, 0, nextCode)
      modifies fast, size, value, nextCode
      ensures SymbolTables(sizelist, |sizelist|) && FastTable(sizelist, |sizelist|)
    {
      for i := 0 to |sizelist|
        invariant LevelTables(sizelist, 16) && NextCodes(sizelist, i, nextCode)
        invariant SymbolTables(sizelist, i) && FastTable(sizelist, i)
      {
        var s := sizelist[i];
        if s > 0 {
          var c := nextCode[s] - firstcode[s] + firstsymbol[s];
          SlotBound(sizelist, i);
          EnterSymbol(sizelist, i, c);
          if s <= FAST_BITS {
            FillFast(fast, sizelist, i, nextCode[s]);
          } else {
            NoFastEntry(sizelist, i);
          }
          Advance(sizelist, i, nextCode);
        } else {
          NoFastEntry(sizelist, i);
          assert NextCodes(sizelist, i + 1, nextCode);
        }
      }
    }

    method Advance(lens: seq<nat>, i: nat, nextCode: array<nat>)
      requires Lengths(lens) && i < |lens| && lens[i] > 0
      requires nextCode.Length == 16 && NextCodes(lens, i, nextCode)
      modifies nextCode
      ensures NextCodes(lens, i + 1, nextCode)
    {
      nextCode[lens[i]] := nextCode[lens[i]] + 1;
    }

    method EnterSymbol(lens: seq<nat>, i: nat, c: nat)
      requires Shape() && i < |lens| <= SYMBOLS && lens[i] > 0
      requires c == Slot(lens, i) < |lens| && SymbolTables(lens, i)
      modifies size, value
      ensures SymbolTables(lens, i + 1)
    {
      forall m | 0 <= m < i && lens[m] > 0
        ensures Slot(lens, m) != c
      {
        SlotInjective(lens, m, i);
      }
      size[c] := lens[i];
      value[c] := i;
    }
  }
}
