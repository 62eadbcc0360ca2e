/** The interlacing of PNG images in seven passes (section 8.2 of the PNG specification). */
module Adam7 {

  /** The pass of each pixel of an eight by eight block, counted from zero. */
  const PATTERN: seq<seq<nat>> := [
    [0, 5, 3, 5, 1, 5, 3, 5],
    [6, 6, 6, 6, 6, 6, 6, 6],
    [4, 5, 4, 5, 4, 5, 4, 5],
    [6, 6, 6, 6, 6, 6, 6, 6],
    [2, 5, 3, 5, 2, 5, 3, 5],
    [6, 6, 6, 6, 6, 6, 6, 6],
    [4, 5, 4, 5, 4, 5, 4, 5],
    [6, 6, 6, 6, 6, 6, 6, 6]]

  function PassOf(r: nat, c: nat): nat {
    PATTERN[r % 8][c % 8]
  }

  // The first column and row of each pass, and the distances to the next.
  const XORIG: seq<nat> := [0, 4, 0, 2, 0, 1, 0]
  const YORIG: seq<nat> := [0, 0, 4, 0, 2, 0, 1]
  const XSPC: seq<nat> := [8, 8, 4, 4, 2, 2, 1]
  const YSPC: seq<nat> := [8, 8, 8, 4, 4, 2, 2]

  function PassWidth(p: nat, w: nat): nat
    requires p < 7 && w > 0
  {
    (w - XORIG[p] + XSPC[p] - 1) / XSPC[p]
  }

  function PassHeight(p: nat, h: nat): nat
    requires p < 7 && h > 0
  {
    (h - YORIG[p] + YSPC[p] - 1) / YSPC[p]
  }

  function XAt(p: nat, i: nat): nat
    requires p < 7
  {
    i * XSPC[p] + XORIG[p]
  }

  function YAt(p: nat, j: nat): nat
    requires p < 7
  {
    j * YSPC[p] + YORIG[p]
  }

  /** The row and column within its pass. */
  function RowIn(p: nat, r: nat): int
    requires p < 7
  {
    (r - YORIG[p]) / YSPC[p]
  }

  function ColIn(p: nat, c: nat): int
    requires p < 7
  {
    (c - XORIG[p]) / XSPC[p]
  }

  lemma Odd(m: nat, j: nat)
    requires m == (2 * j + 1) % 8
    ensures m == 1 || m == 3 || m == 5 || m == 7
  {
    var q := (2 * j + 1) / 8;
    assert m == 2 * (j - 4 * q) + 1;
  }

  lemma Even(m: nat, j: nat)
    requires m == (2 * j) % 8
    ensures m == 0 || m == 2 || m == 4 || m == 6
  {
    var q := 2 * j / 8;
    assert m == 2 * (j - 4 * q);
  }

  lemma FourthOf(m: nat, j: nat, k: nat)
    requires m == (4 * j + k) % 8 && k < 4
    ensures m == k || m == k + 4
  {
    var q := (4 * j + k) / 8;
    assert m == 4 * (j - 2 * q) + k;
  }

  lemma EighthOf(j: nat, k: nat)
    requires k < 8
    ensures (8 * j + k) % 8 == k
  {
  }

  /** The pattern, pass by pass. */
  lemma Pattern(y: nat, x: nat)
    requires y < 8 && x < 8
    ensures var p := PATTERN[y][x];
      && p < 7
      && (p == 0 <==> y == 0 && x == 0)
      && (p == 1 <==> y == 0 && x == 4)
      && (p == 2 <==> y == 4 && (x == 0 || x == 4))
      && (p == 3 <==> (y == 0 || y == 4) && (x == 2 || x == 6))
      && (p == 4 <==> (y == 2 || y == 6) && (x == 0 || x == 2 || x == 4 || x == 6))
      && (p == 5 <==> (y == 0 || y == 2 || y == 4 || y == 6) && (x == 1 || x == 3 || x == 5 || x == 7))
      && (p == 6 <==> y == 1 || y == 3 || y == 5 || y == 7)
  {
  }

  lemma RowResidue(p: nat, j: nat)
    requires p < 7
    ensures var y := YAt(p, j) % 8;
      && y < 8
      && (p <= 1 ==> y == 0) && (p == 2 ==> y == 4) && (p == 3 ==> y == 0 || y == 4) && (p == 4 ==> y == 2 || y == 6)
      && (p == 5 ==> y == 0 || y == 2 || y == 4 || y == 6) && (p == 6 ==> y == 1 || y == 3 || y == 5 || y == 7)
  {
    var y := YAt(p, j) % 8;
    if p <= 1 {
      EighthOf(j, 0);
    } else if p == 2 {
      EighthOf(j, 4);
    } else if p == 3 {
      FourthOf(y, j, 0);
    } else if p == 4 {
      FourthOf(y, j, 2);
    } else if p == 5 {
      Even(y, j);
    } else {
      Odd(y, j);
    }
  }

  lemma ColResidue(p: nat, i: nat)
    requires p < 7
    ensures var x := XAt(p, i) % 8;
      && x < 8
      && (p == 0 ==> x == 0) && (p == 1 ==> x == 4) && (p == 2 ==> x == 0 || x == 4) && (p == 3 ==> x == 2 || x == 6)
      && (p == 4 ==> x == 0 || x == 2 || x == 4 || x == 6) && (p == 5 ==> x == 1 || x == 3 || x == 5 || x == 7)
  {
    var x := XAt(p, i) % 8;
    if p == 0 {
      EighthOf(i, 0);
    } else if p == 1 {
      EighthOf(i, 4);
    } else if p == 2 {
      FourthOf(x, i, 0);
    } else if p == 3 {
      FourthOf(x, i, 2);
    } else if p == 4 {
      Even(x, i);
    } else if p == 5 {
      Odd(x, i);
    }
  }

  /** Every position of a pass is a pixel of that pass. */
  lemma PassPixel(p: nat, j: nat, i: nat)
    requires p < 7
    ensures PassOf(YAt(p, j), XAt(p, i)) == p
  {
    hide PATTERN, YAt, XAt;
    RowResidue(p, j);
    ColResidue(p, i);
    Pattern(YAt(p, j) % 8, XAt(p, i) % 8);
  }

  /** Positions are found back from their pixels. */
  lemma PositionBack(p: nat, j: nat, i: nat)
    requires p < 7
    ensures RowIn(p, YAt(p, j)) == j && ColIn(p, XAt(p, i)) == i
  {
  }

  /** Every pixel is at a position of its pass. */
  lemma PixelPass(r: nat, c: nat)
    ensures var p := PassOf(r, c);
      p < 7 && RowIn(p, r) >= 0 && ColIn(p, c) >= 0 && r == YAt(p, RowIn(p, r)) && c == XAt(p, ColIn(p, c))
  {
    var p := PassOf(r, c);
    hide PATTERN;
    Pattern(r % 8, c % 8);
    RowPosition(p, r);
    ColPosition(p, c);
  }

  lemma RowPosition(p: nat, r: nat)
    requires p < 7
    requires var y := r % 8;
      (p <= 1 ==> y == 0) && (p == 2 ==> y == 4) && (p == 3 ==> y == 0 || y == 4) && (p == 4 ==> y == 2 || y == 6)
      && (p == 5 ==> y == 0 || y == 2 || y == 4 || y == 6) && (p == 6 ==> y == 1 || y == 3 || y == 5 || y == 7)
    ensures RowIn(p, r) >= 0 && r == YAt(p, RowIn(p, r))
  {
    var q, y := r / 8, r % 8;
    assert r == 8 * q + y;
    Position(q, y, YSPC[p], YORIG[p]);
  }

  lemma ColPosition(p: nat, c: nat)
    requires p < 7
    requires var x := c % 8;
      (p == 0 ==> x == 0) && (p == 1 ==> x == 4) && (p == 2 ==> x == 0 || x == 4) && (p == 3 ==> x == 2 || x == 6)
      && (p == 4 ==> x == 0 || x == 2 || x == 4 || x == 6) && (p == 5 ==> x == 1 || x == 3 || x == 5 || x == 7)
    ensures ColIn(p, c) >= 0 && c == XAt(p, ColIn(p, c))
  {
    var q, x := c / 8, c % 8;
    assert c == 8 * q + x;
    Position(q, x, XSPC[p], XORIG[p]);
  }

  lemma Position(q: nat, y: nat, spc: nat, orig: nat)
    requires y < 8 && orig <= y
    requires || (spc == 8 && y == orig)
             || (spc == 4 && (y == orig || y == orig + 4))
             || (spc == 2 && (y == orig || y == orig + 2 || y == orig + 4 || y == orig + 6))
             || (spc == 1 && orig == 0)
    ensures (8 * q + y - orig) / spc * spc + orig == 8 * q + y && (8 * q + y - orig) / spc >= 0
  {
    if spc == 8 {
      assert 8 * q / 8 == q;
    } else if spc == 4 {
      assert (8 * q + y - orig) / 4 == 2 * q + (if y == orig then 0 else 1);
    } else if spc == 2 {
      assert (8 * q + y - orig) / 2 == 4 * q + (y - orig) / 2;
    }
  }

  /** The computed size of a pass is the number of its rows and columns in the image. */
  lemma PassSize(p: nat, w: nat, i: nat)
    requires p < 7 && w > 0
    ensures i < PassWidth(p, w) <==> XAt(p, i) < w
    ensures i < PassHeight(p, w) <==> YAt(p, i) < w
  {
  }
}
