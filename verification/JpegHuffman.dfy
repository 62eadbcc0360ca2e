/** Huffman decoding of JPEG: the tables that are built for a code, the decoding of a symbol,
    and the combined table for small AC coefficients. */
module JpegHuffman {
  import opened BitStream
  import opened JpegCode

  const FAST_BITS: nat := 9
  const FAST_SIZE: nat := 512
  const NOT_FAST: byte := 255

  /** What the tables hold for an accepted list of counts. */
  ghost predicate Describes(h: Huffman, count: seq<nat>)
    reads h.fast, h.code, h.size, h.maxcode, h.delta
  {
    && h.Shape() && Accepts(count)
    && h.Sized(count, Total(count, 16)) && h.Levelled(count, 16) && h.FastUpTo(count, Total(count, 16))
    && (forall i: nat {:trigger h.code[i]} | i < Total(count, 16) :: h.code[i] == CodeOf(count, i))
    && h.maxcode[17] == 0xffff_ffff
  }

  /** The symbol of a window of nine bits, if its code is that short and its number is below n. */
  function FastOf(count: seq<nat>, x: nat, n: nat): byte
    requires |count| == 16
  {
    var l := Level(count, x, 9, 1);
    if l > 9 then NOT_FAST
    else
      var i := SymbolAt(count, x, 9, l);
      if 0 <= i < n && i < 256 then i else NOT_FAST
  }

  class Huffman {
    const fast: array<byte>
    const code: array<nat>
    const values: array<byte>
    const size: array<nat>
    const maxcode: array<nat>
    const delta: array<int>

    ghost predicate Shape() {
      && fast.Length == FAST_SIZE && code.Length == 256 && values.Length == 256
      && size.Length == 257 && maxcode.Length == 18 && delta.Length == 17
      && code != size && code != maxcode && size != maxcode && fast != values
    }

    constructor ()
      ensures Shape() && fresh(fast) && fresh(code) && fresh(values) && fresh(size) && fresh(maxcode) && fresh(delta)
    {
      fast := new byte[FAST_SIZE];
      code := new nat[256];
      values := new byte[256];
      size := new nat[257];
      maxcode := new nat[18];
      delta := new int[17];
    }

    /** Builds the tables for a list of counts, unless it does not make a code. */
    method Build(count: seq<nat>) returns (ok: bool)
      requires Shape() && |count| == 16
      modifies fast, code, size, maxcode, delta
      ensures ok <==> Accepts(count)
      ensures ok ==> Describes(this, count)
    {
      hide Sized, Coded, Levelled, Accepts, Total, Describes, Roomy;
      var k: nat;
      ok, k := ListSizes(count);
      AcceptsIs(count);
      if !ok {
        return;
      }
      ok := AssignCodes(count, k);
      AcceptsIs(count);
      if !ok {
        return;
      }
      FillFast(count, k);
    }

    /** The first n symbols have their sizes. */
    ghost predicate Sized(count: seq<nat>, n: nat)
      requires |count| == 16
      reads size
    {
      && n <= Total(count, 16) && n < size.Length
      && forall i: nat {:trigger size[i]} | i < n :: size[i] == Size(count, i)
    }

    /** Lists the sizes of the symbols. */
    method ListSizes(count: seq<nat>) returns (ok: bool, k: nat)
      requires Shape() && |count| == 16
      modifies size
      ensures ok <==> Total(count, 16) <= 256
      ensures ok ==> k == Total(count, 16) && Sized(count, k) && size[k] == 0
    {
      hide Size, Total;
      k := 0;
      NoneYet(count);
      for i := 0 to 16
        invariant k == Total(count, i) && k <= 256 && Sized(count, k)
      {
        TotalNext(count, i);
        for j := 0 to count[i]
          invariant k == Total(count, i) + j && k <= 256 && Sized(count, k)
        {
          SizeIs(count, k, i + 1);
          size[k] := i + 1;
          k := k + 1;
          if k >= 257 {
            return false, k;
          }
        }
      }
      size[k] := 0;
      ok := true;
    }

    ghost predicate Coded(count: seq<nat>, n: nat)
      requires |count| == 16
      reads code
    {
      && n <= Total(count, 16) && n <= code.Length
      && forall i: nat {:trigger code[i]} | i < n :: code[i] == CodeOf(count, i) % 0x1_0000
    }

    /** The levels up to j are described. */
    ghost predicate Levelled(count: seq<nat>, j: nat)
      requires Shape() && |count| == 16 && j <= 16
      reads maxcode, delta
    {
      && (forall l: nat {:trigger maxcode[l]} | 1 <= l <= j :: maxcode[l] == ShiftLeft(Edge(count, l), 16 - l))
      && (forall l: nat {:trigger delta[l]} | 1 <= l <= j :: delta[l] == Total(count, l - 1) - 2 * Edge(count, l - 1))
    }

    /** Gives the symbols their codes, level by level. */
    method AssignCodes(count: seq<nat>, n: nat) returns (ok: bool)
      requires Shape() && |count| == 16 && n == Total(count, 16) <= 256 && Sized(count, n) && size[n] == 0
      modifies code, maxcode, delta
      ensures ok <==> Roomy(count, 16)
      ensures ok ==> Coded(count, n) && Levelled(count, 16) && maxcode[17] == 0xffff_ffff
    {
      hide Total, Edge, Size, CodeOf, RoomAt, ShiftLeft;
      var next: nat, k: nat := 0, 0;
      NoneYet(count);
      for j := 1 to 17
        invariant k == Total(count, j - 1) && next == 2 * Edge(count, j - 1)
        invariant Coded(count, k) && Levelled(count, j - 1) && Roomy(count, j - 1)
      {
        delta[j] := k - next;
        ok, next, k := OneLevel(count, n, j, next, k);
        if !ok {
          return;
        }
        maxcode[j] := ShiftLeft(next, 16 - j);
        next := 2 * next;
      }
      maxcode[17] := 0xffff_ffff;
      ok := true;
    }

    /** Gives the symbols of one length their codes. */
    method OneLevel(count: seq<nat>, n: nat, j: nat, next: nat, k: nat) returns (ok: bool, next': nat, k': nat)
      requires Shape() && |count| == 16 && n == Total(count, 16) <= 256 && Sized(count, n) && size[n] == 0
      requires 1 <= j <= 16 && k == Total(count, j - 1) && next == 2 * Edge(count, j - 1) && Coded(count, k)
      modifies code
      ensures ok <==> RoomAt(count, j)
      ensures k' == Total(count, j) && next' == Edge(count, j) && Coded(count, k')
    {
      hide Total, Size, CodeOf, Pow2;
      next', k', ok := next, k, true;
      TotalNext(count, j - 1);
      SizeHere(count, n, j, k');
      if size[k'] == j {
        while size[k'] == j
          invariant Total(count, j - 1) <= k' <= Total(count, j) && Coded(count, k')
          invariant next' == 2 * Edge(count, j - 1) + (k' - Total(count, j - 1))
          invariant size[k'] == j <==> k' < Total(count, j)
          decreases Total(count, j) - k'
        {
          CodeHere(count, j, k');
          code[k'] := next' % 0x1_0000;
          k', next' := k' + 1, next' + 1;
          SizeHere(count, n, j, k');
        }
        if next' - 1 >= Pow2(j) {
          ok := false;
        }
      }
    }

    lemma SizeHere(count: seq<nat>, n: nat, j: nat, k: nat)
      requires Shape() && |count| == 16 && n == Total(count, 16) <= 256 && Sized(count, n) && size[n] == 0
      requires 1 <= j <= 16 && Total(count, j - 1) <= k <= Total(count, j)
      ensures k <= n && (size[k] == j <==> k < Total(count, j))
    {
      hide Total, Size;
      TotalMono(count, j, 16);
      if k < Total(count, j) {
        SizeIs(count, k, j);
      }
    }

    lemma CodeHere(count: seq<nat>, j: nat, k: nat)
      requires 1 <= j <= |count| && Total(count, j - 1) <= k < Total(count, j)
      ensures k < Total(count, |count|) && CodeOf(count, k) == 2 * Edge(count, j - 1) + (k - Total(count, j - 1))
    {
      hide Total, Size, Edge;
      SizeIs(count, k, j);
    }

    /** Fills the table of short codes. */
    method FillFast(count: seq<nat>, n: nat)
      requires Shape() && |count| == 16 && Accepts(count) && n == Total(count, 16)
      requires Sized(count, n) && Coded(count, n) && Levelled(count, 16) && maxcode[17] == 0xffff_ffff
      modifies fast
      ensures Describes(this, count)
    {
      hide Total, Edge, Size, CodeOf, Level, FastOf, SymbolAt, ShiftLeft, Accepts;
      for i := 0 to FAST_SIZE
        invariant forall x | 0 <= x < i :: fast[x] == NOT_FAST
      {
        fast[i] := NOT_FAST;
      }
      NoneFast(count);
      AcceptedSize(count);
      for i := 0 to n
        invariant FastUpTo(count, i)
      {
        FillSlot(count, n, i);
      }
      forall i: nat | i < n
        ensures code[i] == CodeOf(count, i)
      {
        CodeFits(count, i);
      }
    }

    ghost predicate FastUpTo(count: seq<nat>, n: nat)
      requires Shape() && |count| == 16
      reads fast
    {
      forall x: nat | x < FAST_SIZE :: fast[x] == FastOf(count, x, n)
    }

    /** Enters a symbol in the places of its code. */
    method FillSlot(count: seq<nat>, n: nat, i: nat)
      requires Shape() && |count| == 16 && Accepts(count) && n == Total(count, 16) && i < n && n <= 256
      requires Sized(count, n) && Coded(count, n) && FastUpTo(count, i)
      modifies fast
      ensures FastUpTo(count, i + 1)
    {
      hide Total, Edge, Size, CodeOf, Level, FastOf, SymbolAt, ShiftLeft, Accepts;
      CodeFits(count, i);
      var s := size[i];
      if s <= FAST_BITS {
        var c := ShiftLeft(code[i], FAST_BITS - s);
        var m := ShiftLeft(1, FAST_BITS - s);
        SlotFits(count, i);
        for j := 0 to m
          invariant forall x: nat | x < FAST_SIZE ::
            fast[x] == if c <= x < c + j then i else FastOf(count, x, i)
        {
          fast[c + j] := i;
        }
        forall x: nat | x < FAST_SIZE
          ensures fast[x] == FastOf(count, x, i + 1)
        {
          SlotOwner(count, i, x);
        }
      } else {
        forall x: nat | x < FAST_SIZE
          ensures fast[x] == FastOf(count, x, i + 1)
        {
          LongOwner(count, i, x);
        }
      }
    }
  }

  ghost predicate Roomy(count: seq<nat>, n: nat)
    requires n <= |count|
  {
    forall j: nat | 1 <= j <= n :: RoomAt(count, j)
  }

  lemma AcceptsIs(count: seq<nat>)
    requires |count| == 16
    ensures Accepts(count) <==> Total(count, 16) <= 256 && Roomy(count, 16)
  {
  }

  lemma AcceptedSize(count: seq<nat>)
    requires Accepts(count)
    ensures Total(count, 16) <= 256
  {
  }

  lemma NoneFast(count: seq<nat>)
    requires |count| == 16
    ensures forall x: nat | x < FAST_SIZE :: FastOf(count, x, 0) == NOT_FAST
  {
    hide Level;
  }

  lemma CodeFits(count: seq<nat>, i: nat)
    requires |count| == 16 && Accepts(count) && i < Total(count, 16)
    ensures CodeOf(count, i) < Pow2(Size(count, i)) <= 0x1_0000 && CodeOf(count, i) % 0x1_0000 == CodeOf(count, i)
  {
    hide Pow2, Accepts;
    var s := Size(count, i);
    RoomEverywhere(count, s);
    Pow2Mono(s, 16);
    SixteenBits();
  }

  lemma SixteenBits()
    ensures Pow2(16) == 0x1_0000 && Pow2(9) == FAST_SIZE
  {
    assert Pow2(9) == 512;
    assert Pow2(16) == 128 * Pow2(9);
  }

  /** The places of a short code are in the table. */
  lemma SlotFits(count: seq<nat>, i: nat)
    requires |count| == 16 && Accepts(count) && i < Total(count, 16) && Size(count, i) <= 9
    ensures var s, c := Size(count, i), CodeOf(count, i);
      ShiftLeft(c, 9 - s) + ShiftLeft(1, 9 - s) <= FAST_SIZE
  {
    hide Pow2, Accepts, CodeOf, Size, ShiftLeft;
    var s, c := Size(count, i), CodeOf(count, i);
    CodeFits(count, i);
    ShiftLeftAdd(c, 1, 9 - s);
    ShiftLeftMono(c + 1, Pow2(s), 9 - s);
    ShiftPow2(s, 9 - s);
    SixteenBits();
  }

  /** The places of a short code are the windows that begin with it. */
  lemma SlotOwner(count: seq<nat>, i: nat, x: nat)
    requires |count| == 16 && Accepts(count) && i < Total(count, 16) <= 256 && Size(count, i) <= 9
    ensures var s, c := Size(count, i), CodeOf(count, i);
      FastOf(count, x, i + 1) ==
        if ShiftLeft(c, 9 - s) <= x < ShiftLeft(c, 9 - s) + ShiftLeft(1, 9 - s) then i else FastOf(count, x, i)
  {
    hide CodeOf, Size, ShiftLeft, ShiftRight, Level, Total, SymbolAt;
    var s, c := Size(count, i), CodeOf(count, i);
    LevelIsMatch(count, x, 9, i);
    ShiftRightRange(x, 9 - s, c, c + 1);
    ShiftLeftAdd(c, 1, 9 - s);
  }

  /** A longer code has no places. */
  lemma LongOwner(count: seq<nat>, i: nat, x: nat)
    requires |count| == 16 && Accepts(count) && i < Total(count, 16) <= 256 && Size(count, i) > 9
    ensures FastOf(count, x, i + 1) == FastOf(count, x, i)
  {
    hide ShiftRight, Level, Total, Size, SymbolAt;
    var l := Level(count, x, 9, 1);
    if l <= 9 && SymbolAt(count, x, 9, l) == i {
      AtLevel(count, x, 9, l);
      SizeIs(count, i, l);
    }
  }

  lemma NoneYet(count: seq<nat>)
    ensures Total(count, 0) == 0 && Edge(count, 0) == 0
  {
  }

  lemma TotalNext(count: seq<nat>, i: nat)
    requires i < |count|
    ensures Total(count, i + 1) == Total(count, i) + count[i] <= Total(count, |count|)
  {
    TotalMono(count, i + 1, |count|);
  }
}
