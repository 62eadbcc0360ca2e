/** The Huffman codes of JPEG: how a list of counts becomes a code (annex C of ITU-T T.81), and
    how a code is read bit by bit (section F.2.2.3). */
module JpegCode {
  import opened BitStream

  /** How many symbols have codes of at most j bits. */
  function Total(count: seq<nat>, j: nat): nat
    requires j <= |count|
  {
    if j == 0 then 0 else Total(count, j - 1) + count[j - 1]
  }

  /** One more than the last code of j bits: codes of a length follow each other, and go on after
      the codes before them with a zero appended. */
  function Edge(count: seq<nat>, j: nat): nat
    requires j <= |count|
  {
    if j == 0 then 0 else 2 * Edge(count, j - 1) + count[j - 1]
  }

  /** The length of the code of symbol i. */
  function Size(count: seq<nat>, i: nat): (s: nat)
    requires i < Total(count, |count|)
    ensures 1 <= s <= |count| && Total(count, s - 1) <= i < Total(count, s)
  {
    SizeFrom(count, i, |count|)
  }

  function SizeFrom(count: seq<nat>, i: nat, j: nat): (s: nat)
    requires j <= |count| && i < Total(count, j)
    ensures 1 <= s <= j && Total(count, s - 1) <= i < Total(count, s)
  {
    if i >= Total(count, j - 1) then j else SizeFrom(count, i, j - 1)
  }

  /** The code of symbol i. */
  function CodeOf(count: seq<nat>, i: nat): nat
    requires i < Total(count, |count|)
  {
    var s := Size(count, i);
    2 * Edge(count, s - 1) + (i - Total(count, s - 1))
  }

  /** Every length has room for its codes, and there are no more symbols than bytes. */
  ghost predicate Accepts(count: seq<nat>) {
    && |count| == 16 && Total(count, 16) <= 256
    && forall j: nat | 1 <= j <= 16 :: RoomAt(count, j)
  }

  predicate RoomAt(count: seq<nat>, j: nat)
    requires 1 <= j <= |count|
  {
    count[j - 1] > 0 ==> Edge(count, j) <= Pow2(j)
  }

  lemma {:induction false} RoomEverywhere(count: seq<nat>, j: nat)
    requires Accepts(count) && j <= 16
    ensures Edge(count, j) <= Pow2(j)
  {
    if j == 0 {
    } else {
      RoomEverywhere(count, j - 1);
      assert RoomAt(count, j);
    }
  }

  lemma {:induction false} TotalMono(count: seq<nat>, i: nat, j: nat)
    requires i <= j <= |count|
    ensures Total(count, i) <= Total(count, j)
  {
    if i == j {
    } else {
      TotalMono(count, i, j - 1);
    }
  }

  /** Only one length has the symbol. */
  lemma SizeIs(count: seq<nat>, i: nat, j: nat)
    requires 1 <= j <= |count| && Total(count, j - 1) <= i < Total(count, j)
    ensures i < Total(count, |count|) && Size(count, i) == j
  {
    TotalMono(count, j, |count|);
    var s := Size(count, i);
    if s < j {
      TotalMono(count, s, j - 1);
    } else if j < s {
      TotalMono(count, j, s - 1);
    }
  }

  // ---------------------------------------------------------------------------------------
  // Reading a code

  /** The length at which a window of w bits is decoded, looking from j bits on: where its first
      bits are below the edge.  It is w + 1 when the window holds no whole code. */
  function Level(count: seq<nat>, x: nat, w: nat, j: nat): (l: nat)
    requires 1 <= j <= w + 1 && w <= |count|
    ensures j <= l <= w + 1
    ensures l <= w ==> ShiftRight(x, w - l) < Edge(count, l)
    ensures forall i | j <= i < l :: Beyond(count, x, w, i)
    decreases w + 1 - j
  {
    if j == w + 1 then j
    else if ShiftRight(x, w - j) < Edge(count, j) then j
    else Level(count, x, w, j + 1)
  }

  predicate Beyond(count: seq<nat>, x: nat, w: nat, j: nat) {
    j <= w && j <= |count| && Edge(count, j) <= ShiftRight(x, w - j)
  }

  /** The number of the symbol with the first j bits as its code. */
  function SymbolAt(count: seq<nat>, x: nat, w: nat, j: nat): int
    requires 1 <= j <= w && j <= |count|
  {
    Total(count, j - 1) + ShiftRight(x, w - j) - 2 * Edge(count, j - 1)
  }

  /** Once beyond the edge, also beyond it with fewer bits. */
  lemma {:induction false} BeyondBefore(count: seq<nat>, x: nat, w: nat, i: nat, j: nat)
    requires 1 <= i <= j <= w <= |count| && 2 * Edge(count, j - 1) <= ShiftRight(x, w - j)
    ensures i < j ==> Beyond(count, x, w, i)
    decreases j
  {
    if i == j {
    } else {
      ShiftRightStep(x, w - j);
      assert w - j + 1 == w - (j - 1);
      assert Edge(count, j - 1) <= ShiftRight(x, w - (j - 1));
      if i < j - 1 {
        assert 2 * Edge(count, j - 2) <= Edge(count, j - 1);
        BeyondBefore(count, x, w, i, j - 1);
      }
    }
  }

  /** A window is decoded to a symbol just when it begins with the code of the symbol. */
  lemma LevelIsMatch(count: seq<nat>, x: nat, w: nat, i: nat)
    requires w <= |count| && i < Total(count, |count|) && Size(count, i) <= w && w > 0
    ensures var s := Size(count, i);
      ShiftRight(x, w - s) == CodeOf(count, i) <==>
        Level(count, x, w, 1) <= w && SymbolAt(count, x, w, Level(count, x, w, 1)) == i
  {
    hide ShiftRight;
    var s, l := Size(count, i), Level(count, x, w, 1);
    if ShiftRight(x, w - s) == CodeOf(count, i) {
      assert !Beyond(count, x, w, s);
      if l < s {
        BeyondBefore(count, x, w, l, s);
      }
    }
    if l <= w {
      AtLevel(count, x, w, l);
      if SymbolAt(count, x, w, l) == i {
        SizeIs(count, i, l);
      }
    }
  }

  /** At its level a window has a symbol of that length. */
  lemma AtLevel(count: seq<nat>, x: nat, w: nat, l: nat)
    requires w <= |count| && w > 0 && l == Level(count, x, w, 1) <= w
    ensures Total(count, l - 1) <= SymbolAt(count, x, w, l) < Total(count, l)
  {
    if l > 1 {
      assert Beyond(count, x, w, l - 1);
      ShiftRightStep(x, w - l);
      assert w - l + 1 == w - (l - 1);
    }
  }

  /** The first bits of a longer window. */
  lemma SameBits(x: nat, w: nat, more: nat, i: nat)
    requires i <= w
    ensures ShiftRight(ShiftRight(x, more), w - i) == ShiftRight(x, w + more - i)
  {
    ShiftRightTwice(x, more, w - i);
    assert more + (w - i) == w + more - i;
  }

  /** A longer window is decoded as its beginning is. */
  lemma {:induction false} LongerWindow(count: seq<nat>, x: nat, w: nat, more: nat, j: nat)
    requires 1 <= j <= w + 1 && w + more <= |count|
    ensures var l := Level(count, ShiftRight(x, more), w, j);
      Level(count, x, w + more, j) == if l <= w then l else Level(count, x, w + more, w + 1)
    decreases w + 1 - j
  {
    hide ShiftRight, Edge;
    if j > w {
    } else {
      LongerWindow(count, x, w, more, j + 1);
      SameBits(x, w, more, j);
    }
  }

  lemma {:induction false} ShiftRightTwice(x: nat, a: nat, b: nat)
    ensures ShiftRight(ShiftRight(x, a), b) == ShiftRight(x, a + b)
    decreases a
  {
    if a == 0 {
    } else {
      ShiftRightTwice(x / 2, a - 1, b);
    }
  }
}
