/** One block of 64 coefficients of baseline JPEG (sections F.2.2.1 and F.2.2.2 of ITU-T T.81). */
module JpegBlock {
  import opened BitStream
  import opened Common
  import opened JpegCode
  import opened JpegDecode
  import opened JpegHuffman
  import opened JpegScan
  import opened MsbBits

  const INT_MAX: int := 0x7fff_ffff
  const SHORT_MAX: int := 0x7fff

  // ---------------------------------------------------------------------------------------
  // The order of the coefficients

  const DEZIGZAG_0: seq<nat> := [0, 1, 8, 16, 9, 2, 3, 10, 17, 24, 32, 25, 18, 11, 4, 5]
  const DEZIGZAG_1: seq<nat> := [12, 19, 26, 33, 40, 48, 41, 34, 27, 20, 13, 6, 7, 14, 21, 28]
  const DEZIGZAG_2: seq<nat> := [35, 42, 49, 56, 57, 50, 43, 36, 29, 22, 15, 23, 30, 37, 44, 51]
  const DEZIGZAG_3: seq<nat> := [58, 59, 52, 45, 38, 31, 39, 46, 53, 60, 61, 54, 47, 55, 62, 63]

  /** Where the coefficient at position k of the sequence is in the block; a run may point past its end. */
  function Place(k: nat): (z: nat)
    requires k < 79
    ensures z < 64
  {
    if k < 16 then DEZIGZAG_0[k]
    else if k < 32 then DEZIGZAG_1[k - 16]
    else if k < 48 then DEZIGZAG_2[k - 32]
    else if k < 64 then DEZIGZAG_3[k - 48]
    else 63
  }

  /** The next place on the way up and down the diagonals of the block (figure A.6), whose rows have eight
      places. */
  function NextPlace(z: int): int {
    var row, col := z / 8, z % 8;
    if (row + col) % 2 == 0 then
      if col == 7 then z + 8 else if row == 0 then z + 1 else z - 7
    else if row == 7 then z + 1
    else if col == 0 then z + 8
    else z + 7
  }

  function Walk(k: nat): int {
    if k == 0 then 0 else NextPlace(Walk(k - 1))
  }

  /** One table goes along the diagonals. */
  predicate Diagonal(t: seq<nat>) {
    |t| == 16 && forall i | 0 <= i < 15 :: t[i + 1] == NextPlace(t[i])
  }

  lemma Steps0()
    ensures NextPlace(0) == 1 && NextPlace(1) == 8 && NextPlace(8) == 16 && NextPlace(16) == 9
    ensures NextPlace(9) == 2 && NextPlace(2) == 3 && NextPlace(3) == 10 && NextPlace(10) == 17
    ensures NextPlace(17) == 24 && NextPlace(24) == 32 && NextPlace(32) == 25 && NextPlace(25) == 18
    ensures NextPlace(18) == 11 && NextPlace(11) == 4 && NextPlace(4) == 5 && NextPlace(5) == 12
  {
  }

  lemma Diagonal0()
    ensures Diagonal(DEZIGZAG_0)
  {
    hide NextPlace;
    Steps0();
  }

  lemma Steps1()
    ensures NextPlace(12) == 19 && NextPlace(19) == 26 && NextPlace(26) == 33 && NextPlace(33) == 40
    ensures NextPlace(40) == 48 && NextPlace(48) == 41 && NextPlace(41) == 34 && NextPlace(34) == 27
    ensures NextPlace(27) == 20 && NextPlace(20) == 13 && NextPlace(13) == 6 && NextPlace(6) == 7
    ensures NextPlace(7) == 14 && NextPlace(14) == 21 && NextPlace(21) == 28 && NextPlace(28) == 35
  {
  }

  lemma Diagonal1()
    ensures Diagonal(DEZIGZAG_1)
  {
    hide NextPlace;
    Steps1();
  }

  lemma Steps2()
    ensures NextPlace(35) == 42 && NextPlace(42) == 49 && NextPlace(49) == 56 && NextPlace(56) == 57
    ensures NextPlace(57) == 50 && NextPlace(50) == 43 && NextPlace(43) == 36 && NextPlace(36) == 29
    ensures NextPlace(29) == 22 && NextPlace(22) == 15 && NextPlace(15) == 23 && NextPlace(23) == 30
    ensures NextPlace(30) == 37 && NextPlace(37) == 44 && NextPlace(44) == 51 && NextPlace(51) == 58
  {
  }

  lemma Diagonal2()
    ensures Diagonal(DEZIGZAG_2)
  {
    hide NextPlace;
    Steps2();
  }

  lemma Steps3()
    ensures NextPlace(58) == 59 && NextPlace(59) == 52 && NextPlace(52) == 45 && NextPlace(45) == 38
    ensures NextPlace(38) == 31 && NextPlace(31) == 39 && NextPlace(39) == 46 && NextPlace(46) == 53
    ensures NextPlace(53) == 60 && NextPlace(60) == 61 && NextPlace(61) == 54 && NextPlace(54) == 47
    ensures NextPlace(47) == 55 && NextPlace(55) == 62 && NextPlace(62) == 63
  {
  }

  lemma Diagonal3()
    ensures Diagonal(DEZIGZAG_3)
  {
    hide NextPlace;
    Steps3();
  }

  lemma DiagonalsMeet()
    ensures NextPlace(DEZIGZAG_0[15]) == DEZIGZAG_1[0]
    ensures NextPlace(DEZIGZAG_1[15]) == DEZIGZAG_2[0]
    ensures NextPlace(DEZIGZAG_2[15]) == DEZIGZAG_3[0]
  {
    hide NextPlace;
    Steps0();
    Steps1();
    Steps2();
  }

  lemma PlaceNext(k: nat)
    requires k < 63
    ensures Place(k + 1) == NextPlace(Place(k))
  {
    hide DEZIGZAG_0, DEZIGZAG_1, DEZIGZAG_2, DEZIGZAG_3, NextPlace;
    Diagonal0();
    Diagonal1();
    Diagonal2();
    Diagonal3();
    DiagonalsMeet();
  }

  /** The table is the zigzag. */
  lemma {:induction false} PlaceIsWalk(k: nat)
    requires k < 64
    ensures Place(k) == Walk(k)
  {
    hide Place, NextPlace;
    if k > 0 {
      PlaceIsWalk(k - 1);
      PlaceNext(k - 1);
    } else {
      FirstPlace();
    }
  }

  lemma FirstPlace()
    ensures Place(0) == 0
  {
  }

  function Triangle(d: nat): nat {
    if d == 0 then 0 else d + Triangle(d - 1)
  }

  /** How many places come before that in a row and a column. */
  function Rank(row: int, col: int): int
    requires 0 <= row < 8 && 0 <= col < 8
  {
    var d := row + col;
    if d < 8 then Triangle(d) + (if d % 2 == 0 then col else row)
    else 63 - Triangle(14 - d) - (if d % 2 == 0 then 7 - col else 7 - row)
  }

  lemma TriangleNext(d: nat)
    ensures Triangle(d + 1) == Triangle(d) + d + 1
  {
  }

  lemma FewTriangles()
    ensures Triangle(0) == 0 && Triangle(6) == 21 && Triangle(7) == 28
  {
  }

  lemma RowAndColumn(row: int, col: int)
    requires 0 <= col < 8
    ensures (8 * row + col) / 8 == row && (8 * row + col) % 8 == col
  {
  }

  /** On a diagonal the rank goes up with the column or with the row. */
  lemma RankWithin(row: int, col: int)
    requires 0 <= row < 8 && 0 <= col < 8
    ensures (row + col) % 2 == 0 && row > 0 && col < 7 ==> Rank(row - 1, col + 1) == Rank(row, col) + 1
    ensures (row + col) % 2 == 1 && row < 7 && col > 0 ==> Rank(row + 1, col - 1) == Rank(row, col) + 1
  {
    hide Triangle;
  }

  /** At the border it goes on to the next diagonal. */
  lemma RankAcross(row: int, col: int)
    requires 0 <= row < 8 && 0 <= col < 8
    ensures (row + col) % 2 == 0 && col == 7 && row < 7 ==> Rank(row + 1, 7) == Rank(row, col) + 1
    ensures (row + col) % 2 == 0 && row == 0 && col < 7 ==> Rank(0, col + 1) == Rank(row, col) + 1
    ensures (row + col) % 2 == 1 && row == 7 && col < 7 ==> Rank(7, col + 1) == Rank(row, col) + 1
    ensures (row + col) % 2 == 1 && col == 0 && row < 7 ==> Rank(row + 1, 0) == Rank(row, col) + 1
  {
    hide Triangle;
    FewTriangles();
    var d := row + col;
    if d < 7 {
      TriangleNext(d);
    } else if 7 < d < 14 {
      TriangleNext(13 - d);
    }
  }

  lemma RankNext(row: int, col: int)
    requires 0 <= row < 8 && 0 <= col < 8 && (row < 7 || col < 7)
    ensures var n := NextPlace(8 * row + col);
      0 <= n < 64 && Rank(n / 8, n % 8) == Rank(row, col) + 1
  {
    hide Rank;
    RowAndColumn(row, col);
    RankWithin(row, col);
    RankAcross(row, col);
    if (row + col) % 2 == 0 {
      if col == 7 {
        RowAndColumn(row + 1, 7);
      } else if row == 0 {
        RowAndColumn(0, col + 1);
      } else {
        RowAndColumn(row - 1, col + 1);
      }
    } else if row == 7 {
      RowAndColumn(7, col + 1);
    } else if col == 0 {
      RowAndColumn(row + 1, 0);
    } else {
      RowAndColumn(row + 1, col - 1);
    }
  }

  lemma {:induction false} WalkRank(k: nat)
    requires k < 64
    ensures 0 <= Walk(k) < 64 && Rank(Walk(k) / 8, Walk(k) % 8) == k
  {
    hide Rank, NextPlace;
    if k > 0 {
      WalkRank(k - 1);
      LastRank();
      RankNext(Walk(k - 1) / 8, Walk(k - 1) % 8);
    } else {
      FirstRank();
    }
  }

  lemma FirstRank()
    ensures Rank(0, 0) == 0
  {
  }

  lemma LastRank()
    ensures Rank(7, 7) == 63
  {
  }

  /** No two positions of the sequence have one place. */
  lemma PlaceOnce(k: nat, m: nat)
    requires k < 64 && m < 64 && Place(k) == Place(m)
    ensures k == m
  {
    hide Place, Walk, Rank;
    PlaceIsWalk(k);
    PlaceIsWalk(m);
    WalkRank(k);
    WalkRank(m);
  }

  // ---------------------------------------------------------------------------------------
  // Numbers of the source

  /** A value cut to sixteen bits with a sign. */
  function Short(x: int): (r: int)
    ensures -0x8000 <= r <= 0x7fff
    ensures -0x8000 <= x <= 0x7fff ==> r == x
  {
    (x + 0x8000) % 0x1_0000 - 0x8000
  }

  predicate IsInt(x: int) {
    -INT_MAX - 1 <= x <= INT_MAX
  }

  predicate IsShort(x: int) {
    -SHORT_MAX - 1 <= x <= SHORT_MAX
  }

  /** Whether a sum of two words is one, without forming it. */
  method AddIntsValid(a: int, b: int) returns (ok: bool)
    requires IsInt(a) && IsInt(b)
    ensures ok <==> IsInt(a + b)
  {
    if (a >= 0) != (b >= 0) {
      return true;
    }
    if a < 0 && b < 0 {
      return a >= -INT_MAX - 1 - b;
    }
    return a <= INT_MAX - b;
  }

  /** Whether a product is a short number, without forming it; b is not negative here. */
  method Mul2ShortsValid(a: int, b: nat) returns (ok: bool)
    ensures ok <==> IsShort(a * b)
  {
    if b == 0 {
      return true;
    }
    if a >= 0 {
      ProductAtMost(a, b, SHORT_MAX);
      return a <= SHORT_MAX / b;
    }
    ProductAtMost(-a, b, SHORT_MAX + 1);
    assert a * b == -(-a * b);
    // Division towards zero.
    return a >= -((SHORT_MAX + 1) / b);
  }

  lemma ProductAtMost(a: nat, b: nat, m: nat)
    requires b > 0
    ensures a <= m / b <==> a * b <= m
  {
    var q, r := m / b, m % b;
    assert m == q * b + r;
    if a <= q {
      Monotone(a, q, b);
    } else {
      Monotone(q + 1, a, b);
      assert (q + 1) * b == q * b + b;
    }
  }

  lemma Monotone(a: nat, c: nat, b: nat)
    requires a <= c
    ensures a * b <= c * b
  {
  }

  // ---------------------------------------------------------------------------------------
  // A block, bit by bit

  /** The table of short codes can express every symbol of the code: there is no symbol 255, or its code
      is a long one. */
  predicate Sighted(count: seq<nat>) {
    |count| == 16 && (Total(count, 16) > 255 ==> Size(count, 255) > FAST_BITS)
  }

  /** That is so just when no window is one that it cannot express. */
  lemma SightedIff(count: seq<nat>)
    requires Accepts(count)
    ensures Sighted(count) <==> forall w: nat :: !Blind(count, w)
  {
    hide ShiftRight, Level, SymbolAt, Total, Size, CodeOf;
    forall w: nat | Blind(count, w)
      ensures Total(count, 16) > 255 && Size(count, 255) <= FAST_BITS
    {
      var l := Level(count, w, 16, 1);
      AtLevel(count, w, 16, l);
      TotalMono(count, l, 16);
      SizeIs(count, 255, l);
    }
    if !Sighted(count) {
      var l := Size(count, 255);
      var w := ShiftLeft(CodeOf(count, 255), 16 - l);
      LeftThenRight(CodeOf(count, 255), 16 - l, 0);
      Unshifted(CodeOf(count, 255));
      LevelIsMatch(count, w, 16, 255);
      var l' := Level(count, w, 16, 1);
      AtLevel(count, w, 16, l');
      SizeIs(count, 255, l');
      assert Blind(count, w);
    }
  }

  /** What a block is by the standard: not valid, cut off by the end of the segment, one that needs a symbol for
      which the table of short codes is blind, or its coefficients and its end. */
  datatype Block = Bad | CutOff | Blinded | Block(dc: int, data: seq<int>, end: nat)

  /** The AC coefficients from position k of the sequence on. */
  ghost function AcFrom(count: seq<nat>, values: seq<byte>, q: seq<nat>, seg: seq<byte>, p: nat, k: nat,
    dc: int, data: seq<int>): Block
    requires |count| == 16 && |values| == 256 && |q| == 64 && |data| == 64 && k < 80
    decreases 80 - k
  {
    if k >= 64 then Block(dc, data, p)
    else if BlindIn(count, seg, p) then Blinded
    else
      match AcIn(count, values, seg, p)
      case None => Bad
      case Some((a, e)) =>
        if e > 8 * |seg| then CutOff
        else
          match a
          case Failed => Bad
          case Special(rs) => if rs != 0xf0 then Block(dc, data, e) else AcFrom(count, values, q, seg, e, k + 16, dc, data)
          case Value(run, v) =>
            if run >= 16 then Bad
            else
              var z := Place(k + run);
              AcFrom(count, values, q, seg, e, k + run + 1, dc, data[z := Short(v * q[z])])
  }

  function Zeros(n: nat): (s: seq<int>)
    ensures |s| == n && forall i | 0 <= i < n :: s[i] == 0
  {
    seq(n, i => 0)
  }

  /** A whole block at bit p, the DC coefficient as a difference to the one before. */
  ghost function BlockIn(dcCount: seq<nat>, dcValues: seq<byte>, acCount: seq<nat>, acValues: seq<byte>, q: seq<nat>,
    seg: seq<byte>, p: nat, before: int): Block
    requires |dcCount| == 16 && |dcValues| == 256 && |acCount| == 16 && |acValues| == 256 && |q| == 64
  {
    if BlindIn(dcCount, seg, p) then Blinded
    else
      match SymbolIn(dcCount, dcValues, seg, p)
      case None => Bad
      case Some((t, l)) =>
        if p + l > 8 * |seg| then CutOff
        else if t > 15 then Bad
        else if p + l + t > 8 * |seg| then CutOff
        else
          var dc := before + if t == 0 then 0 else Extend(Digits(seg, p + l, t), t);
          if !IsInt(dc) || !IsShort(dc * q[0]) then Bad
          else AcFrom(acCount, acValues, q, seg, p + l + t, 1, dc, Zeros(64)[0 := dc * q[0]])
  }

  // ---------------------------------------------------------------------------------------
  // A block, as the decoder reads it

  /** The tables of a code as the decoder keeps them, and the segment. */
  datatype Tables = Tables(fast: seq<byte>, size: seq<nat>, count: seq<nat>, values: seq<byte>) {
    predicate Shape() {
      |fast| == 512 && |size| == 257 && |count| == 16 && |values| == 256
    }
  }

  /** The coefficients that are read, and where reading them ends. */
  ghost function AcRun(t: Tables, q: seq<nat>, seg: seq<byte>, marked: bool, at: At, k: nat, data: seq<int>):
    Option<(seq<int>, At)>
    requires t.Shape() && |q| == 64 && |data| == 64 && k < 80
    decreases 80 - k
  {
    if k >= 64 then Some((data, at))
    else
      match ReadAc(t.fast, t.size, t.count, t.values, seg, marked, at)
      case None => None
      case Some((a, end)) =>
        match a
        case Failed => None
        case Special(rs) => if rs != 0xf0 then Some((data, end)) else AcRun(t, q, seg, marked, end, k + 16, data)
        case Value(run, v) =>
          if run >= 16 then None
          else
            var z := Place(k + run);
            AcRun(t, q, seg, marked, end, k + run + 1, data[z := Short(v * q[z])])
  }

  /** The difference of the DC coefficient, if it has bits. */
  function ReadDiff(seg: seq<byte>, marked: bool, at: At, t: nat): (int, At) {
    if t == 0 then (0, at) else ReadValue(seg, marked, at, t)
  }

  /** The first symbol of a block: bytes may be fetched twice before it. */
  ghost function ReadFirst(dc: Tables, seg: seq<byte>, marked: bool, at: At): Option<(byte, At)>
    requires dc.Shape()
  {
    ReadSymbol(dc.count, dc.values, seg, marked, At(at.p, Needed(at.f, at.p, 16, |seg|, marked)))
  }

  /** A whole block. */
  ghost function BlockRun(dc: Tables, ac: Tables, q: seq<nat>, seg: seq<byte>, marked: bool, at: At, before: int):
    Option<(int, seq<int>, At)>
    requires dc.Shape() && ac.Shape() && |q| == 64
  {
    match ReadFirst(dc, seg, marked, at)
    case None => None
    case Some((t, next)) =>
      if t > 15 then None
      else
        var (diff, after) := ReadDiff(seg, marked, next, t);
        AfterDc(ac, q, seg, marked, after, before + diff)
  }

  ghost function AfterDc(ac: Tables, q: seq<nat>, seg: seq<byte>, marked: bool, at: At, dc: int):
    Option<(int, seq<int>, At)>
    requires ac.Shape() && |q| == 64
  {
    if !IsInt(dc) || !IsShort(dc * q[0]) then None
    else
      match AcRun(ac, q, seg, marked, at, 1, Zeros(64)[0 := dc * q[0]])
      case None => None
      case Some((data, end)) => Some((dc, data, end))
  }

  ghost function TablesOf(h: Huffman, count: seq<nat>): (t: Tables)
    requires Describes(h, count)
    reads h.fast, h.code, h.size, h.maxcode, h.delta, h.values
    ensures t.Shape() && t.count == count
  {
    DescribesShape(h, count);
    Tables(h.fast[..], h.size[..], count, h.values[..])
  }

  lemma AcRunDone(t: Tables, q: seq<nat>, seg: seq<byte>, marked: bool, at: At, k: nat, data: seq<int>)
    requires t.Shape() && |q| == 64 && |data| == 64 && 64 <= k < 80
    ensures AcRun(t, q, seg, marked, at, k, data) == Some((data, at))
  {
  }

  /** One step of the AC coefficients, told from what it reads. */
  lemma AcRunStep(t: Tables, q: seq<nat>, seg: seq<byte>, marked: bool, at: At, k: nat, data: seq<int>)
    requires t.Shape() && |q| == 64 && |data| == 64 && k < 64
    ensures var s := ReadAc(t.fast, t.size, t.count, t.values, seg, marked, at);
      AcRun(t, q, seg, marked, at, k, data) ==
        if s.None? then None
        else
          var (a, end) := s.value;
          if a.Failed? then None
          else if a.Special? then
            if a.rs != 0xf0 then Some((data, end)) else AcRun(t, q, seg, marked, end, k + 16, data)
          else if a.run >= 16 then None
          else
            var z := Place(k + a.run);
            AcRun(t, q, seg, marked, end, k + a.run + 1, data[z := Short(a.value * q[z])])
  {
    hide ReadAc, Place, Short;
  }

  /** Runs are short. */
  lemma RunsAreShort(t: Tables, seg: seq<byte>, marked: bool, at: At)
    requires t.Shape()
    ensures var s := ReadAc(t.fast, t.size, t.count, t.values, seg, marked, at);
      s.Some? ==> !s.value.0.Failed? && (s.value.0.Value? ==> s.value.0.run < 16)
  {
    hide AcEntry, ReadSymbol, ReadValue, Digits, Needed;
    NineBits(seg, at.p);
  }

  /** Decodes the AC coefficients of a block. */
  method DecodeAcs(j: Jpeg, data: array<int>, h: Huffman, fastAc: array<int>, q: seq<nat>, ghost count: seq<nat>)
    returns (ok: bool)
    requires j.Reservoir() && Describes(h, count) && AcTable(fastAc, h)
    requires data.Length == 64 && |q| == 64 && data != fastAc && data != h.delta
    modifies j, data
    ensures Describes(h, count) && TablesOf(h, count) == old(TablesOf(h, count))
    ensures var s := AcRun(TablesOf(h, count), q, j.seg, j.marked, old(j.Here()), 1, old(data[..]));
      if ok then j.Reservoir() && s == Some((data[..], j.Here())) else s.None?
  {
    hide Jpeg.Reservoir, Jpeg.Here, Describes, AcTable, ReadAc, AcRun, Place, Short, TablesOf;
    ghost var t, seg, marked := TablesOf(h, count), j.seg, j.marked;
    TablesAre(h, count);
    ghost var s := AcRun(t, q, seg, marked, j.Here(), 1, data[..]);
    var k := 1;
    while k < 64
      invariant 1 <= k < 80 && j.Reservoir() && Describes(h, count) && AcTable(fastAc, h) && TablesOf(h, count) == t
      invariant AcRun(t, q, seg, marked, j.Here(), k, data[..]) == s
      decreases 80 - k
    {
      ghost var at, was := j.Here(), data[..];
      AcRunStep(t, q, seg, marked, at, k, was);
      RunsAreShort(t, seg, marked, at);
      TablesAre(h, count);
      var r := j.DecodeAc(h, fastAc, count);
      match r
      case Failed =>
        return false;
      case Special(rs) =>
        if rs != 0xf0 {
          return true;
        }
        k := k + 16;
      case Value(run, v) =>
        k := k + run;
        var zig := Place(k);
        data[zig] := Short(v * q[zig]);
        k := k + 1;
        assert data[..] == was[zig := Short(v * q[zig])];
    }
    AcRunDone(t, q, seg, marked, j.Here(), k, data[..]);
    ok := true;
  }

  lemma TablesAre(h: Huffman, count: seq<nat>)
    requires Describes(h, count)
    ensures h.Shape() && TablesOf(h, count) == Tables(h.fast[..], h.size[..], count, h.values[..])
  {
  }

  lemma ExtendRange(v: nat, n: nat)
    requires 0 < n <= 15 && v < Pow2(n)
    ensures -0x8000 < Extend(v, n) < 0x8000
  {
    Pow2Mono(n, 15);
    assert Pow2(15) == 0x8000;
  }

  lemma SmallIsInt(x: int)
    requires -0x8000 < x < 0x8000
    ensures IsInt(x)
  {
  }

  /** The difference of the DC coefficient. */
  method ReadDifference(j: Jpeg, t: nat) returns (diff: int)
    requires j.Reservoir() && t <= 15
    modifies j
    ensures j.Reservoir() && -0x8000 < diff < 0x8000
    ensures (diff, j.Here()) == ReadDiff(j.seg, j.marked, old(j.Here()), t)
  {
    hide Digits, Extend, Needed;
    diff := 0;
    if t != 0 {
      ghost var at := j.bitpos;
      diff := j.ExtendReceive(t);
      DigitsRange(j.seg, at, t);
      ExtendRange(Digits(j.seg, at, t), t);
    }
  }

  /** The DC coefficient, if it and its product are in range. */
  method MergeDc(before: int, diff: int, q: nat) returns (ok: bool, dc: int, product: int)
    requires IsInt(before) && IsInt(diff)
    ensures dc == before + diff && (ok <==> IsInt(dc) && IsShort(dc * q)) && (ok ==> product == dc * q)
  {
    dc, product := before + diff, 0;
    ok := AddIntsValid(before, diff);
    if !ok {
      return;
    }
    ok := Mul2ShortsValid(dc, q);
    if ok {
      product := Short(dc * q);
    }
  }

  lemma NoDc(dc: Tables, ac: Tables, q: seq<nat>, seg: seq<byte>, marked: bool, at: At, before: int)
    requires dc.Shape() && ac.Shape() && |q| == 64
    ensures var s := ReadFirst(dc, seg, marked, at);
      s.None? || s.value.0 > 15 ==> BlockRun(dc, ac, q, seg, marked, at, before).None?
  {
    hide ReadFirst;
  }

  lemma BlockRunIs(dc: Tables, ac: Tables, q: seq<nat>, seg: seq<byte>, marked: bool, at: At, before: int,
    t: nat, next: At)
    requires dc.Shape() && ac.Shape() && |q| == 64 && t <= 15
    requires ReadFirst(dc, seg, marked, at) == Some((t, next))
    ensures var (diff, after) := ReadDiff(seg, marked, next, t);
      BlockRun(dc, ac, q, seg, marked, at, before) == AfterDc(ac, q, seg, marked, after, before + diff)
  {
    hide ReadFirst, ReadDiff, AfterDc;
  }

  lemma AfterDcIs(ac: Tables, q: seq<nat>, seg: seq<byte>, marked: bool, at: At, dc: int)
    requires ac.Shape() && |q| == 64
    ensures !IsInt(dc) || !IsShort(dc * q[0]) ==> AfterDc(ac, q, seg, marked, at, dc).None?
    ensures IsInt(dc) && IsShort(dc * q[0]) ==> (
      var r := AcRun(ac, q, seg, marked, at, 1, Zeros(64)[0 := dc * q[0]]);
      AfterDc(ac, q, seg, marked, at, dc) == if r.None? then None else Some((dc, r.value.0, r.value.1)))
  {
    hide AcRun, IsInt, IsShort;
  }

  /** Reads the symbol of the DC coefficient. */
  method FirstSymbol(j: Jpeg, h: Huffman, ghost count: seq<nat>) returns (t: int)
    requires j.Reservoir() && Describes(h, count)
    modifies j
    ensures Describes(h, count) && TablesOf(h, count) == old(TablesOf(h, count))
    ensures var s := ReadFirst(TablesOf(h, count), j.seg, j.marked, old(j.Here()));
      if t >= 0 then j.Reservoir() && s == Some((t, j.Here())) else s.None?
  {
    hide Jpeg.Reservoir, Describes, ReadSymbol, Needed, TablesOf;
    TablesAre(h, count);
    j.Need(16);
    t := j.HuffDecode(h, count);
    TablesAre(h, count);
  }

  /** Decodes what follows the first symbol t of a block. */
  method DecodeRest(j: Jpeg, data: array<int>, t: nat, h: Huffman, fastAc: array<int>, before: int, q: seq<nat>,
    ghost count: seq<nat>) returns (ok: bool, dc: int)
    requires j.Reservoir() && t <= 15 && Describes(h, count) && AcTable(fastAc, h) && IsInt(before)
    requires data.Length == 64 && |q| == 64 && data != fastAc && data != h.delta
    modifies j, data
    ensures Describes(h, count) && TablesOf(h, count) == old(TablesOf(h, count))
    ensures var (diff, after) := ReadDiff(j.seg, j.marked, old(j.Here()), t);
      var s := AfterDc(TablesOf(h, count), q, j.seg, j.marked, after, before + diff);
      if ok then j.Reservoir() && s == Some((dc, data[..], j.Here())) else s.None?
  {
    hide Jpeg.Reservoir, Jpeg.Here, Describes, AcTable, AcRun, ReadDiff, AfterDc, IsInt, IsShort, TablesOf, Huffman.Shape;
    ghost var t1 := TablesOf(h, count);
    forall i | 0 <= i < 64 {
      data[i] := 0;
    }
    var diff := ReadDifference(j, t);
    SmallIsInt(diff);
    var product;
    ok, dc, product := MergeDc(before, diff, q[0]);
    AfterDcIs(t1, q, j.seg, j.marked, j.Here(), dc);
    if !ok {
      return;
    }
    data[0] := product;
    assert data[..] == Zeros(64)[0 := product];
    ok := DecodeAcs(j, data, h, fastAc, q, count);
  }

  /** Decodes a block; before is the DC coefficient of the block before it. */
  method DecodeBlock(j: Jpeg, data: array<int>, hdc: Huffman, hac: Huffman, fastAc: array<int>, before: int,
    q: seq<nat>, ghost dcCount: seq<nat>, ghost acCount: seq<nat>) returns (ok: bool, dc: int)
    requires j.Reservoir() && Describes(hdc, dcCount) && Describes(hac, acCount) && AcTable(fastAc, hac)
    requires data.Length == 64 && |q| == 64 && data != fastAc && data != hac.delta && data != hdc.delta && IsInt(before)
    modifies j, data
    ensures Describes(hdc, dcCount) && TablesOf(hdc, dcCount) == old(TablesOf(hdc, dcCount))
    ensures Describes(hac, acCount) && TablesOf(hac, acCount) == old(TablesOf(hac, acCount))
    ensures var s := BlockRun(TablesOf(hdc, dcCount), TablesOf(hac, acCount), q, j.seg, j.marked, old(j.Here()), before);
      if ok then j.Reservoir() && s == Some((dc, data[..], j.Here())) else s.None?
  {
    hide Jpeg.Reservoir, Jpeg.Here, Describes, AcTable, ReadFirst, ReadDiff, AfterDc, BlockRun, IsInt, TablesOf,
      Huffman.Shape;
    ghost var at := j.Here();
    ghost var t0, t1 := TablesOf(hdc, dcCount), TablesOf(hac, acCount);
    NoDc(t0, t1, q, j.seg, j.marked, at, before);
    var t := FirstSymbol(j, hdc, dcCount);
    if t < 0 || t > 15 {
      return false, before;
    }
    BlockRunIs(t0, t1, q, j.seg, j.marked, at, before, t, j.Here());
    ok, dc := DecodeRest(j, data, t, hac, fastAc, before, q, acCount);
  }

  // ---------------------------------------------------------------------------------------
  // What the decoder reads is what the standard has

  /** The outcome is that of the standard, where the standard has one that the decoder can read. */
  predicate Agree(b: Block, r: Option<(seq<int>, At)>) {
    && (b.Block? ==> r.Some? && r.value.0 == b.data && r.value.1.p == b.end)
    && (b.Bad? ==> r.None?)
  }

  lemma AcFromStep(count: seq<nat>, values: seq<byte>, q: seq<nat>, seg: seq<byte>, p: nat, k: nat, dc: int, data: seq<int>)
    requires |count| == 16 && |values| == 256 && |q| == 64 && |data| == 64 && k < 64
    ensures var there := AcIn(count, values, seg, p);
      AcFrom(count, values, q, seg, p, k, dc, data) ==
        if BlindIn(count, seg, p) then Blinded
        else if there.None? then Bad
        else
          var (a, e) := there.value;
          if e > 8 * |seg| then CutOff
          else if a.Failed? then Bad
          else if a.Special? then
            if a.rs != 0xf0 then Block(dc, data, e) else AcFrom(count, values, q, seg, e, k + 16, dc, data)
          else if a.run >= 16 then Bad
          else
            var z := Place(k + a.run);
            AcFrom(count, values, q, seg, e, k + a.run + 1, dc, data[z := Short(a.value * q[z])])
  {
    hide AcIn, BlindIn, Place, Short;
  }

  /** A segment with zeros after it. */
  function Padded(seg: seq<byte>, pad: nat): (s: seq<byte>)
    ensures |s| == |seg| + pad
  {
    seg + seq(pad, i => 0)
  }

  lemma NotPadded(seg: seq<byte>)
    ensures Padded(seg, 0) == seg
  {
  }

  /** Bits after the end are zeros anyway. */
  lemma {:induction false} PaddedDigits(seg: seq<byte>, pad: nat, p: nat, n: nat)
    ensures Digits(Padded(seg, pad), p, n) == Digits(seg, p, n)
    decreases n
  {
    hide ShiftRight;
    if n == 0 {
    } else {
      PaddedDigits(seg, pad, p, n - 1);
      assert ByteAt(Padded(seg, pad), (p + n - 1) / 8) == ByteAt(seg, (p + n - 1) / 8);
    }
  }

  lemma PaddedIn(count: seq<nat>, values: seq<byte>, seg: seq<byte>, pad: nat, p: nat)
    requires |count| == 16 && |values| == 256
    ensures SymbolIn(count, values, Padded(seg, pad), p) == SymbolIn(count, values, seg, p)
    ensures AcIn(count, values, Padded(seg, pad), p) == AcIn(count, values, seg, p)
    ensures BlindIn(count, Padded(seg, pad), p) == BlindIn(count, seg, p)
  {
    hide Level, SymbolAt, Digits, Blind, Extend, Padded;
    PaddedDigits(seg, pad, p, 16);
    if SymbolIn(count, values, seg, p).Some? {
      var (rs, l) := SymbolIn(count, values, seg, p).value;
      PaddedDigits(seg, pad, p + l, rs % 16);
    }
  }

  lemma {:induction false} AcRunIsStandard(h: Huffman, t: Tables, q: seq<nat>, seg: seq<byte>, pad: nat, marked: bool,
    at: At, k: nat, dc: int, data: seq<int>)
    requires Describes(h, t.count) && t == TablesOf(h, t.count) && InOrder(at.f, |seg|, marked)
    requires |q| == 64 && |data| == 64 && k < 80 && (marked ==> pad == 0)
    ensures Agree(AcFrom(t.count, t.values, q, Padded(seg, pad), at.p, k, dc, data),
      AcRun(t, q, seg, marked, at, k, data))
    decreases 80 - k
  {
    hide Describes, AcIn, ReadAc, BlindIn, Place, Short, AcFrom, AcRun, TablesOf, Padded;
    TablesAre(h, t.count);
    PaddedIn(t.count, t.values, seg, pad, at.p);
    var long := Padded(seg, pad);
    if k >= 64 {
      AcRunDone(t, q, seg, marked, at, k, data);
      AcFromDone(t.count, t.values, q, long, at.p, k, dc, data);
    } else {
      AcRunStep(t, q, seg, marked, at, k, data);
      AcFromStep(t.count, t.values, q, long, at.p, k, dc, data);
      AcWithin(h, t.count, seg, marked, at);
      var there := AcIn(t.count, t.values, seg, at.p);
      if !BlindIn(t.count, seg, at.p) && there.Some? && there.value.1 <= 8 * |long| {
        var a := there.value.0;
        var end := ReadAc(t.fast, t.size, t.count, t.values, seg, marked, at).value.1;
        if a.Special? && a.rs == 0xf0 {
          AcRunIsStandard(h, t, q, seg, pad, marked, end, k + 16, dc, data);
        } else if a.Value? && a.run < 16 {
          var z := Place(k + a.run);
          AcRunIsStandard(h, t, q, seg, pad, marked, end, k + a.run + 1, dc, data[z := Short(a.value * q[z])]);
        }
      }
    }
  }

  lemma AcFromDone(count: seq<nat>, values: seq<byte>, q: seq<nat>, seg: seq<byte>, p: nat, k: nat, dc: int, data: seq<int>)
    requires |count| == 16 && |values| == 256 && |q| == 64 && |data| == 64 && 64 <= k < 80
    ensures AcFrom(count, values, q, seg, p, k, dc, data) == Block(dc, data, p)
  {
  }

  lemma {:induction false} AcFromDc(count: seq<nat>, values: seq<byte>, q: seq<nat>, seg: seq<byte>, p: nat, k: nat,
    dc: int, data: seq<int>)
    requires |count| == 16 && |values| == 256 && |q| == 64 && |data| == 64 && k < 80
    ensures AcFrom(count, values, q, seg, p, k, dc, data).Block? ==> AcFrom(count, values, q, seg, p, k, dc, data).dc == dc
    decreases 80 - k
  {
    hide AcIn, BlindIn, Place, Short, AcFrom;
    if k >= 64 {
      AcFromDone(count, values, q, seg, p, k, dc, data);
    } else {
      AcFromStep(count, values, q, seg, p, k, dc, data);
      if AcIn(count, values, seg, p).Some? {
        var (a, e) := AcIn(count, values, seg, p).value;
        if a.Special? {
          AcFromDc(count, values, q, seg, e, k + 16, dc, data);
        } else if a.Value? && a.run < 16 {
          var z := Place(k + a.run);
          AcFromDc(count, values, q, seg, e, k + a.run + 1, dc, data[z := Short(a.value * q[z])]);
        }
      }
    }
  }

  /** A block is read as the standard has it, if the segment does not cut it off and no symbol is met for which
      the table of short codes is blind.  A segment that no marker ends is read with any number of zeros after it. */
  lemma BlockIsStandard(hdc: Huffman, hac: Huffman, t0: Tables, t1: Tables, q: seq<nat>, seg: seq<byte>, pad: nat,
    marked: bool, at: At, before: int)
    requires Describes(hdc, t0.count) && t0 == TablesOf(hdc, t0.count)
    requires Describes(hac, t1.count) && t1 == TablesOf(hac, t1.count)
    requires InOrder(at.f, |seg|, marked) && |q| == 64 && (marked ==> pad == 0)
    ensures var b := BlockIn(t0.count, t0.values, t1.count, t1.values, q, Padded(seg, pad), at.p, before);
      var r := BlockRun(t0, t1, q, seg, marked, at, before);
      && (b.Block? ==> r.Some? && r.value.0 == b.dc && r.value.1 == b.data && r.value.2.p == b.end)
      && (b.Bad? ==> r.None?)
  {
    hide Describes, TablesOf, AcFrom, AcRun, SymbolIn, ReadSymbol, BlindIn, Needed, Digits, Extend, IsInt, IsShort, ReadValue,
      Padded;
    DescribesShape(hdc, t0.count);
    TablesAre(hdc, t0.count);
    TablesAre(hac, t1.count);
    PaddedIn(t0.count, t0.values, seg, pad, at.p);
    var s := SymbolIn(t0.count, t0.values, seg, at.p);
    NeededOrder(at.f, at.p, 16, |seg|, marked);
    var first := At(at.p, Needed(at.f, at.p, 16, |seg|, marked));
    SymbolWithin(t0.count, t0.values, seg, marked, first);
    if !BlindIn(t0.count, seg, at.p) && s.Some? {
      var (t, l) := s.value;
      if t <= 15 && at.p + l + t <= 8 * (|seg| + pad) {
        var next := ReadSymbol(t0.count, t0.values, seg, marked, first).value.1;
        PaddedDigits(seg, pad, at.p + l, t);
        if t > 0 {
          ValueWithin(seg, marked, next, t);
        }
        var (diff, after) := ReadDiff(seg, marked, next, t);
        var dc := before + diff;
        AcRunIsStandard(hac, t1, q, seg, pad, marked, after, 1, dc, Zeros(64)[0 := dc * q[0]]);
        AcFromDc(t1.count, t1.values, q, Padded(seg, pad), after.p, 1, dc, Zeros(64)[0 := dc * q[0]]);
      }
    }
  }

  /** No block meets such a symbol when neither table has one. */
  lemma NeverBlinded(dcCount: seq<nat>, dcValues: seq<byte>, acCount: seq<nat>, acValues: seq<byte>, q: seq<nat>,
    seg: seq<byte>, p: nat, before: int)
    requires Accepts(dcCount) && Accepts(acCount) && Sighted(dcCount) && Sighted(acCount)
    requires |dcValues| == 256 && |acValues| == 256 && |q| == 64
    ensures !BlockIn(dcCount, dcValues, acCount, acValues, q, seg, p, before).Blinded?
  {
    hide Sighted, SymbolIn, Digits, Extend, AcFrom, IsInt, IsShort, Blind;
    SightedIff(dcCount);
    if SymbolIn(dcCount, dcValues, seg, p).Some? {
      var (t, l) := SymbolIn(dcCount, dcValues, seg, p).value;
      var dc := before + if t == 0 then 0 else Extend(Digits(seg, p + l, t), t);
      AcNeverBlinded(acCount, acValues, q, seg, p + l + t, 1, dc, Zeros(64)[0 := dc * q[0]]);
    }
  }

  lemma {:induction false} AcNeverBlinded(count: seq<nat>, values: seq<byte>, q: seq<nat>, seg: seq<byte>, p: nat, k: nat,
    dc: int, data: seq<int>)
    requires Accepts(count) && Sighted(count) && |values| == 256 && |q| == 64 && |data| == 64 && k < 80
    ensures |count| == 16 && !AcFrom(count, values, q, seg, p, k, dc, data).Blinded?
    decreases 80 - k
  {
    hide Sighted, AcIn, Blind, Digits, Place, Short, AcFrom;
    if k >= 64 {
      AcFromDone(count, values, q, seg, p, k, dc, data);
    } else {
      SightedIff(count);
      AcFromStep(count, values, q, seg, p, k, dc, data);
      if AcIn(count, values, seg, p).Some? {
        var (a, e) := AcIn(count, values, seg, p).value;
        if a.Special? {
          AcNeverBlinded(count, values, q, seg, e, k + 16, dc, data);
        } else if a.Value? && a.run < 16 {
          var z := Place(k + a.run);
          AcNeverBlinded(count, values, q, seg, e, k + a.run + 1, dc, data[z := Short(a.value * q[z])]);
        }
      }
    }
  }
}
