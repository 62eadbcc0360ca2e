/** The walk over an image rectangle that GIF decoding writes along, interlaced or not
    (appendix E of GIF89a).  Positions are counted in pixels and rows. */
module GifRaster {

  type Index = x: int | 0 <= x < 256

  datatype Colour = Colour(c0: Index, c1: Index, c2: Index, alpha: Index)

  datatype Cell = Cell(row: int, col: int)

  // ---------------------------------------------------------------------------------------
  // The order of rows

  /** The rows from r on, step apart, below h. */
  function Range(r: int, step: nat, h: int): (s: seq<int>)
    requires step > 0
    decreases h - r
  {
    if r >= h then [] else [r] + Range(r + step, step, h)
  }

  function PassFirst(pass: nat): int
    requires pass < 4
  {
    if pass == 0 then 0 else if pass == 1 then 4 else if pass == 2 then 2 else 1
  }

  function PassStep(pass: nat): (s: nat)
    requires pass < 4
    ensures s > 0
  {
    if pass < 2 then 8 else if pass == 2 then 4 else 2
  }

  /** The rows of the passes from the given one on. */
  function PassRows(pass: nat, h: nat): seq<int>
    requires pass <= 4
    decreases 4 - pass
  {
    if pass == 4 then [] else Range(PassFirst(pass), PassStep(pass), h) + PassRows(pass + 1, h)
  }

  /** All rows of an image of height h in the order they are sent: every eighth from 0, every
      eighth from 4, every fourth from 2, every second from 1. */
  function RowOrder(interlaced: bool, h: nat): seq<int> {
    if interlaced then PassRows(0, h) else Range(0, 1, h)
  }

  lemma {:induction false} RangeMember(r: int, step: nat, h: int, x: int)
    requires step == 1 || step == 2 || step == 4 || step == 8
    ensures x in Range(r, step, h) <==> r <= x < h && (x - r) % step == 0
    decreases h - r
  {
    if r >= h {
    } else {
      RangeMember(r + step, step, h, x);
      SameResidue(x - r - step, step);
      SameResidue(x - r, step);
    }
  }

  lemma SameResidue(y: int, step: nat)
    requires step == 1 || step == 2 || step == 4 || step == 8
    ensures (y + step) % step == y % step
    ensures 0 <= y < step ==> y % step == y
  {
    if step == 1 {
      assert (y + 1) % 1 == y % 1;
    } else if step == 2 {
      assert (y + 2) % 2 == y % 2;
    } else if step == 4 {
      assert (y + 4) % 4 == y % 4;
    } else {
      assert (y + 8) % 8 == y % 8;
    }
  }

  ghost predicate Distinct<T(!new)>(s: seq<T>) {
    forall i, j | 0 <= i < j < |s| :: s[i] != s[j]
  }

  lemma {:induction false} RangeDistinct(r: int, step: nat, h: int)
    requires step == 1 || step == 2 || step == 4 || step == 8
    ensures Distinct(Range(r, step, h))
    decreases h - r
  {
    if r >= h {
    } else {
      RangeDistinct(r + step, step, h);
      RangeMember(r + step, step, h, r);
      DistinctCons(r, Range(r + step, step, h));
    }
  }

  lemma DistinctCons<T(!new)>(x: T, s: seq<T>)
    requires Distinct(s) && x !in s
    ensures Distinct([x] + s)
  {
  }

  lemma DistinctAppend<T(!new)>(s: seq<T>, t: seq<T>)
    requires Distinct(s) && Distinct(t) && forall x | x in s :: x !in t
    ensures Distinct(s + t)
  {
    forall i, j | 0 <= i < j < |s + t|
      ensures (s + t)[i] != (s + t)[j]
    {
      if i < |s| <= j {
        assert s[i] in s && t[j - |s|] in t;
      }
    }
  }

  predicate InPasses(pass: nat, x: int) {
    || (pass == 0 && x % 8 == 0)
    || (pass <= 1 && x % 8 == 4)
    || (pass <= 2 && x % 4 == 2)
    || (pass <= 3 && x % 2 == 1)
  }

  /** The rows of a pass by their residue modulo eight. */
  lemma PassMember(pass: nat, h: nat, x: int)
    requires pass <= 4
    ensures x in PassRows(pass, h) <==> 0 <= x < h && InPasses(pass, x)
    decreases 4 - pass
  {
    hide Range;
    if pass == 4 {
    } else {
      PassMember(pass + 1, h, x);
      RangeMember(PassFirst(pass), PassStep(pass), h, x);
    }
  }

  lemma {:induction false} PassDistinct(pass: nat, h: nat)
    requires pass <= 4
    ensures Distinct(PassRows(pass, h))
    decreases 4 - pass
  {
    if pass == 4 {
    } else {
      PassDistinct(pass + 1, h);
      RangeDistinct(PassFirst(pass), PassStep(pass), h);
      var here, rest := Range(PassFirst(pass), PassStep(pass), h), PassRows(pass + 1, h);
      forall x | x in here
        ensures x !in rest
      {
        RangeMember(PassFirst(pass), PassStep(pass), h, x);
        PassMember(pass + 1, h, x);
      }
      DistinctAppend(here, rest);
    }
  }

  lemma OddRow(q: int)
    ensures (2 * q + 1) % 2 == 1
  {
  }

  lemma SecondOfFour(q: int)
    ensures (4 * q + 2) % 4 == 2
  {
  }

  /** Every row is in some pass. */
  lemma EveryResidue(x: int)
    ensures InPasses(0, x)
  {
    var q, r := x / 8, x % 8;
    assert x == 8 * q + r && 0 <= r < 8;
    if r == 2 {
      SecondOfFour(2 * q);
    } else if r == 6 {
      SecondOfFour(2 * q + 1);
    } else if r != 0 && r != 4 {
      OddRow(4 * q + (if r == 1 then 0 else if r == 3 then 1 else if r == 5 then 2 else 3));
    }
  }

  lemma RowOrderMember(interlaced: bool, h: nat, x: int)
    ensures x in RowOrder(interlaced, h) <==> 0 <= x < h
  {
    hide Range, PassRows, InPasses;
    if interlaced {
      PassMember(0, h, x);
      EveryResidue(x);
    } else {
      RangeMember(0, 1, h, x);
    }
  }

  /** The row order, interlaced or not, is a permutation of the rows. */
  lemma RowOrderPermutes(interlaced: bool, h: nat)
    ensures Distinct(RowOrder(interlaced, h))
    ensures forall x :: x in RowOrder(interlaced, h) <==> 0 <= x < h
  {
    hide Distinct, Range, PassRows;
    if interlaced {
      PassDistinct(0, h);
    } else {
      RangeDistinct(0, 1, h);
    }
    hide RowOrder;
    forall x
      ensures x in RowOrder(interlaced, h) <==> 0 <= x < h
    {
      RowOrderMember(interlaced, h, x);
    }
  }

  // ---------------------------------------------------------------------------------------
  // The order of pixels

  /** The cells of a row from column c to before column e. */
  function RowCells(row: int, c: int, e: int): (s: seq<Cell>)
    decreases e - c
  {
    if c >= e then [] else [Cell(row, c)] + RowCells(row, c + 1, e)
  }

  /** The cells of the rows, shifted down by top, from column left to before right. */
  function Cells(rows: seq<int>, top: int, left: int, right: int): seq<Cell> {
    if rows == [] then []
    else RowCells(top + rows[0], left, right) + Cells(rows[1..], top, left, right)
  }

  /** The cells of a rectangle in the order they are sent. */
  function Path(interlaced: bool, x: int, y: int, w: nat, h: nat): seq<Cell> {
    Cells(RowOrder(interlaced, h), y, x, x + w)
  }

  lemma {:induction false} RowCellsMember(row: int, c: int, e: int, z: Cell)
    ensures z in RowCells(row, c, e) <==> z.row == row && c <= z.col < e
    decreases e - c
  {
    if c >= e {
    } else {
      RowCellsMember(row, c + 1, e, z);
    }
  }

  lemma {:induction false} RowCellsDistinct(row: int, c: int, e: int)
    ensures Distinct(RowCells(row, c, e))
    decreases e - c
  {
    if c >= e {
    } else {
      RowCellsDistinct(row, c + 1, e);
      RowCellsMember(row, c + 1, e, Cell(row, c));
      DistinctCons(Cell(row, c), RowCells(row, c + 1, e));
    }
  }

  lemma {:induction false} CellsMember(rows: seq<int>, top: int, left: int, right: int, z: Cell)
    ensures z in Cells(rows, top, left, right) <==> z.row - top in rows && left <= z.col < right
  {
    hide RowCells;
    if rows == [] {
    } else {
      RowCellsMember(top + rows[0], left, right, z);
      CellsMember(rows[1..], top, left, right, z);
      HeadOrTail(rows, z.row - top);
    }
  }

  lemma HeadOrTail(rows: seq<int>, x: int)
    requires rows != []
    ensures x in rows <==> x == rows[0] || x in rows[1..]
  {
    assert rows == [rows[0]] + rows[1..];
  }

  lemma {:induction false} CellsDistinct(rows: seq<int>, top: int, left: int, right: int)
    requires Distinct(rows)
    ensures Distinct(Cells(rows, top, left, right))
  {
    if rows == [] {
    } else {
      var here, rest := RowCells(top + rows[0], left, right), Cells(rows[1..], top, left, right);
      assert Distinct(rows[1..]);
      CellsDistinct(rows[1..], top, left, right);
      RowCellsDistinct(top + rows[0], left, right);
      forall z | z in here
        ensures z !in rest
      {
        RowCellsMember(top + rows[0], left, right, z);
        CellsMember(rows[1..], top, left, right, z);
      }
      DistinctAppend(here, rest);
    }
  }

  /** The path visits every pixel of the rectangle once and no other. */
  lemma PathPermutes(interlaced: bool, x: int, y: int, w: nat, h: nat)
    ensures Distinct(Path(interlaced, x, y, w, h))
    ensures forall z :: z in Path(interlaced, x, y, w, h) <==> y <= z.row < y + h && x <= z.col < x + w
  {
    hide Cells, RowOrder;
    RowOrderPermutes(interlaced, h);
    var rows := RowOrder(interlaced, h);
    CellsDistinct(rows, y, x, x + w);
    forall z: Cell
      ensures z in Path(interlaced, x, y, w, h) <==> y <= z.row < y + h && x <= z.col < x + w
    {
      CellsMember(rows, y, x, x + w, z);
    }
  }

  // ---------------------------------------------------------------------------------------
  // The number of steps

  lemma {:induction false} LengthOf(s: seq<int>, n: nat)
    requires Distinct(s) && forall x :: x in s <==> 0 <= x < n
    ensures |s| == n
    decreases n
  {
    if n == 0 {
      if |s| > 0 {
        var x := HeadIn(s);
      }
    } else {
      var x := n - 1;
      assert x in s;
      var i :| 0 <= i < |s| && s[i] == x;
      var t := s[..i] + s[i + 1..];
      WithoutOne(s, i);
      var m := n - 1;
      forall x
        ensures x in t <==> 0 <= x < m
      {
        assert x in t <==> x in s && x != s[i];
      }
      LengthOf(t, m);
    }
  }

  lemma HeadIn(s: seq<int>) returns (x: int)
    requires |s| > 0
    ensures x in s
  {
    x := s[0];
  }

  lemma WithoutOne(s: seq<int>, i: nat)
    requires i < |s| && Distinct(s)
    ensures Distinct(s[..i] + s[i + 1..])
    ensures forall x :: x in s[..i] + s[i + 1..] <==> x in s && x != s[i]
  {
    var t := s[..i] + s[i + 1..];
    forall x
      ensures x in t <==> x in s && x != s[i]
    {
      if x in t {
        var k :| 0 <= k < |t| && t[k] == x;
        assert if k < i then x == s[k] else x == s[k + 1];
      }
      if x in s && x != s[i] {
        var k :| 0 <= k < |s| && s[k] == x;
        assert if k < i then x == t[k] else x == t[k - 1];
      }
    }
  }

  lemma {:induction false} RowCellsLength(row: int, c: int, e: int)
    requires c <= e
    ensures |RowCells(row, c, e)| == e - c
    decreases e - c
  {
    if c == e {
    } else {
      RowCellsLength(row, c + 1, e);
    }
  }

  lemma {:induction false} CellsLength(rows: seq<int>, top: int, left: int, w: nat)
    ensures |Cells(rows, top, left, left + w)| == |rows| * w
  {
    if rows == [] {
    } else {
      RowCellsLength(top + rows[0], left, left + w);
      CellsLength(rows[1..], top, left, w);
      assert (|rows| - 1) * w == |rows| * w - w;
    }
  }

  /** The path has width times height steps. */
  lemma PathLength(interlaced: bool, x: int, y: int, w: nat, h: nat)
    ensures |Path(interlaced, x, y, w, h)| == h * w
  {
    hide Cells, RowOrder, Distinct;
    RowOrderPermutes(interlaced, h);
    LengthOf(RowOrder(interlaced, h), h);
    CellsLength(RowOrder(interlaced, h), y, x, w);
  }

  // ---------------------------------------------------------------------------------------
  // The order

  /** The pass in which a row of an interlaced image is sent (appendix E). */
  function PassOfRow(x: int): nat {
    if x % 8 == 0 then 0 else if x % 8 == 4 then 1 else if x % 4 == 2 then 2 else 3
  }

  predicate Before(interlaced: bool, a: int, b: int) {
    if interlaced then PassOfRow(a) < PassOfRow(b) || (PassOfRow(a) == PassOfRow(b) && a < b) else a < b
  }

  ghost predicate InOrder(interlaced: bool, s: seq<int>) {
    forall i, j | 0 <= i < j < |s| :: Before(interlaced, s[i], s[j])
  }

  lemma {:induction false} RangeInOrder(interlaced: bool, r: int, step: nat, h: int)
    requires step == 1 || step == 2 || step == 4 || step == 8
    requires interlaced ==> forall x | x in Range(r, step, h) :: PassOfRow(x) == PassOfRow(r)
    ensures InOrder(interlaced, Range(r, step, h))
    decreases h - r
  {
    hide PassOfRow;
    if r >= h {
    } else {
      var rest := Range(r + step, step, h);
      assert Range(r, step, h) == [r] + rest;
      if rest != [] {
        assert rest[0] == r + step && rest[0] in Range(r, step, h);
      }
      assert forall x | x in rest :: x in Range(r, step, h);
      RangeInOrder(interlaced, r + step, step, h);
      forall x | x in rest
        ensures Before(interlaced, r, x)
      {
        RangeMember(r + step, step, h, x);
      }
      OrderCons(interlaced, r, rest);
    }
  }

  lemma OrderCons(interlaced: bool, r: int, rest: seq<int>)
    requires InOrder(interlaced, rest) && forall x | x in rest :: Before(interlaced, r, x)
    ensures InOrder(interlaced, [r] + rest)
  {
    hide Before;
  }

  lemma OrderAppend(interlaced: bool, s: seq<int>, t: seq<int>)
    requires InOrder(interlaced, s) && InOrder(interlaced, t)
    requires forall a, b | a in s && b in t :: Before(interlaced, a, b)
    ensures InOrder(interlaced, s + t)
  {
    hide Before;
    forall i, j | 0 <= i < j < |s + t|
      ensures Before(interlaced, (s + t)[i], (s + t)[j])
    {
      if i < |s| <= j {
        assert s[i] in s && t[j - |s|] in t;
      }
    }
  }

  lemma RangePass(pass: nat, h: int, x: int)
    requires pass < 4 && x in Range(PassFirst(pass), PassStep(pass), h)
    ensures PassOfRow(x) == pass
  {
    RangeMember(PassFirst(pass), PassStep(pass), h, x);
  }

  lemma {:induction false} LaterPass(pass: nat, h: nat, x: int)
    requires pass <= 4 && x in PassRows(pass, h)
    ensures PassOfRow(x) >= pass
    decreases 4 - pass
  {
    hide Range, PassOfRow;
    if pass < 4 {
      var here := Range(PassFirst(pass), PassStep(pass), h);
      if x in here {
        RangePass(pass, h, x);
      } else {
        LaterPass(pass + 1, h, x);
      }
    }
  }

  lemma {:induction false} PassesInOrder(pass: nat, h: nat)
    requires pass <= 4
    ensures InOrder(true, PassRows(pass, h))
    decreases 4 - pass
  {
    hide Range, PassOfRow;
    if pass == 4 {
    } else {
      var here, rest := Range(PassFirst(pass), PassStep(pass), h), PassRows(pass + 1, h);
      forall x | x in here
        ensures PassOfRow(x) == pass
      {
        RangePass(pass, h, x);
      }
      PassOfFirst(pass);
      RangeInOrder(true, PassFirst(pass), PassStep(pass), h);
      PassesInOrder(pass + 1, h);
      forall a, b | a in here && b in rest
        ensures Before(true, a, b)
      {
        LaterPass(pass + 1, h, b);
      }
      OrderAppend(true, here, rest);
    }
  }

  lemma PassOfFirst(pass: nat)
    requires pass < 4
    ensures PassOfRow(PassFirst(pass)) == pass
  {
  }

  /** Rows are sent pass by pass, and downwards within a pass. */
  lemma RowOrderInOrder(interlaced: bool, h: nat)
    ensures InOrder(interlaced, RowOrder(interlaced, h))
  {
    if interlaced {
      PassesInOrder(0, h);
    } else {
      RangeInOrder(false, 0, 1, h);
    }
  }

  lemma {:induction false} RowCellsAt(row: int, c: int, e: int, k: nat)
    requires c + k < e
    ensures |RowCells(row, c, e)| == e - c && RowCells(row, c, e)[k] == Cell(row, c + k)
    decreases k
  {
    RowCellsLength(row, c, e);
    if k == 0 {
    } else {
      RowCellsAt(row, c + 1, e, k - 1);
    }
  }

  lemma {:induction false} CellsAt(rows: seq<int>, top: int, left: int, w: nat, i: nat, k: nat)
    requires i < |rows| && k < w
    ensures i * w + k < |Cells(rows, top, left, left + w)|
    ensures Cells(rows, top, left, left + w)[i * w + k] == Cell(top + rows[i], left + k)
    decreases i
  {
    hide RowCells;
    RowCellsAt(top + rows[0], left, left + w, k);
    CellsLength(rows, top, left, w);
    RowsBefore(i, |rows|, w);
    if i == 0 {
    } else {
      CellsAt(rows[1..], top, left, w, i - 1, k);
      assert (i - 1) * w + k == i * w + k - w;
    }
  }

  lemma RowsBefore(i: nat, n: nat, w: nat)
    requires i < n
    ensures i * w + w <= n * w
  {
    var d := n - i - 1;
    assert n * w == (i + 1) * w + d * w;
    assert (i + 1) * w == i * w + w;
  }

  /** Step i times the width plus k is in the row sent as number i, k pixels from its left end. */
  lemma PathAt(interlaced: bool, x: int, y: int, w: nat, h: nat, i: nat, k: nat)
    requires i < h && k < w
    ensures |RowOrder(interlaced, h)| == h && i * w + k < |Path(interlaced, x, y, w, h)|
    ensures Path(interlaced, x, y, w, h)[i * w + k] == Cell(y + RowOrder(interlaced, h)[i], x + k)
  {
    hide Cells, RowOrder, Distinct;
    RowOrderPermutes(interlaced, h);
    LengthOf(RowOrder(interlaced, h), h);
    CellsAt(RowOrder(interlaced, h), y, x, w, i, k);
  }
}
