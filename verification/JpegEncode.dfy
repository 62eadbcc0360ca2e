/** What an encoder writes for a block (sections F.1.2.1 and F.1.2.2 of ITU-T T.81), and that the decoder reads
    the block back. */
module JpegEncode {
  import opened BitLists
  import opened BitStream
  import opened Common
  import opened JpegBlock
  import opened JpegCode
  import opened JpegDecode
  import opened JpegHuffman
  import opened JpegScan
  import opened JpegSegment
  import opened MsbBits

  // ---------------------------------------------------------------------------------------
  // Codes

  /** The codes of annex C: the first is all zeros, and each is one more than the code before it, with zeros
      appended where it is longer. */
  lemma CodeNext(count: seq<nat>, i: nat)
    requires i + 1 < Total(count, |count|)
    ensures Size(count, i) <= Size(count, i + 1)
    ensures CodeOf(count, i + 1) == ShiftLeft(CodeOf(count, i) + 1, Size(count, i + 1) - Size(count, i))
  {
    hide Total, Edge, Size;
    var s, t := Size(count, i), Size(count, i + 1);
    if t < s {
      TotalMono(count, t, s - 1);
    } else if t == s {
      Unshifted(CodeOf(count, i) + 1);
    } else {
      TotalMono(count, s, t - 1);
      assert Total(count, s) == i + 1 == Total(count, t - 1);
      NextCount(count, s);
      EdgeOn(count, s, t - 1);
      OneLeft(Edge(count, s), t - 1 - s);
    }
  }

  lemma NextCount(count: seq<nat>, s: nat)
    requires 1 <= s <= |count|
    ensures Total(count, s) == Total(count, s - 1) + count[s - 1]
    ensures Edge(count, s) == 2 * Edge(count, s - 1) + count[s - 1]
  {
  }

  /** Lengths without codes only append zeros. */
  lemma {:induction false} EdgeOn(count: seq<nat>, s: nat, t: nat)
    requires s <= t <= |count| && Total(count, s) == Total(count, t)
    ensures Edge(count, t) == ShiftLeft(Edge(count, s), t - s)
    decreases t
  {
    hide Total, Edge;
    if s == t {
      Unshifted(Edge(count, s));
    } else {
      NextCount(count, t);
      TotalMono(count, s, t - 1);
      EdgeOn(count, s, t - 1);
      OneLeft(Edge(count, s), t - 1 - s);
    }
  }

  lemma FirstCode(count: seq<nat>)
    requires Total(count, |count|) > 0
    ensures CodeOf(count, 0) == 0
  {
    var s := Size(count, 0);
    hide Size;
    EdgeNone(count, s - 1);
  }

  lemma {:induction false} EdgeNone(count: seq<nat>, s: nat)
    requires s <= |count| && Total(count, s) == 0
    ensures Edge(count, s) == 0
  {
    if s == 0 {
    } else {
      EdgeNone(count, s - 1);
    }
  }

  function Numbers(lo: nat, hi: nat): (s: set<nat>)
    requires lo <= hi
    ensures forall i: nat :: i in s <==> lo <= i < hi
    ensures |s| == hi - lo
    decreases hi - lo
  {
    if lo == hi then {} else Numbers(lo, hi - 1) + {hi - 1}
  }

  /** There are as many codes of a length as the list says. */
  lemma CodesOfSize(count: seq<nat>, l: nat)
    requires 1 <= l <= |count|
    ensures |set i: nat | i < Total(count, |count|) && Size(count, i) == l| == count[l - 1]
  {
    hide Total, Edge, Size;
    NextCount(count, l);
    TotalMono(count, l, |count|);
    var lo, hi := Total(count, l - 1), Total(count, l);
    var s := set i: nat | i < Total(count, |count|) && Size(count, i) == l;
    forall i: nat
      ensures i in s <==> i in Numbers(lo, hi)
    {
      if lo <= i < hi {
        SizeIs(count, i, l);
      }
    }
    assert s == Numbers(lo, hi);
  }

  /** Symbol i of the code is rs, and the table of short codes can express it. */
  predicate Codes(count: seq<nat>, values: seq<byte>, rs: byte, i: nat)
    requires |count| == 16 && |values| == 256
  {
    i < 256 && i < Total(count, 16) && values[i] == rs && (i == 255 ==> Size(count, i) > FAST_BITS)
  }

  ghost predicate HasCode(count: seq<nat>, values: seq<byte>, rs: byte)
    requires |count| == 16 && |values| == 256
  {
    exists i: nat :: Codes(count, values, rs, i)
  }

  ghost function CodeBits(count: seq<nat>, values: seq<byte>, rs: byte): seq<bit>
    requires |count| == 16 && |values| == 256 && HasCode(count, values, rs)
  {
    var i: nat :| Codes(count, values, rs, i);
    HighFirst(CodeOf(count, i), Size(count, i))
  }

  /** A symbol whose code is in the segment is read. */
  lemma SymbolRead(count: seq<nat>, values: seq<byte>, seg: seq<byte>, p: nat, rs: byte)
    requires |count| == 16 && Accepts(count) && |values| == 256 && HasCode(count, values, rs)
    requires CarriesMsb(seg, p, CodeBits(count, values, rs))
    ensures !BlindIn(count, seg, p)
    ensures SymbolIn(count, values, seg, p) == Some((rs, |CodeBits(count, values, rs)|))
  {
    hide Digits, BitAt, CodeOf, Size, Total, Accepts, Level, ShiftRight, SymbolAt, HighFirst;
    var i: nat :| Codes(count, values, rs, i) && CodeBits(count, values, rs) == HighFirst(CodeOf(count, i), Size(count, i));
    var s, c, w := Size(count, i), CodeOf(count, i), Digits(seg, p, 16);
    CodeFits(count, i);
    DigitsCarried(seg, p, c, s);
    DigitsCut(seg, p, s, 16 - s);
    LevelIsMatch(count, w, 16, i);
    var l := Level(count, w, 16, 1);
    AtLevel(count, w, 16, l);
    SizeIs(count, i, l);
  }

  // ---------------------------------------------------------------------------------------
  // Values

  function Magnitude(v: int): nat {
    if v < 0 then -v else v
  }

  /** The category of a value (tables F.1 and F.2): how many bits its magnitude has. */
  function Category(v: int): nat {
    BitLength(Magnitude(v))
  }

  /** The bits after the symbol: a negative value is one less. */
  function ValueBits(v: int): seq<bit> {
    var n := Category(v);
    HighFirst(if v >= 0 then v else v - 1 + Pow2(n), n)
  }

  lemma ValueRead(seg: seq<byte>, p: nat, v: int)
    requires v != 0 && CarriesMsb(seg, p, ValueBits(v))
    ensures Category(v) > 0 && Extend(Digits(seg, p, Category(v)), Category(v)) == v
  {
    hide Digits, BitAt, HighFirst, BitLength;
    var n := Category(v);
    assert Pow2(n) == 2 * Pow2(n - 1);
    DigitsCarried(seg, p, if v >= 0 then v else v - 1 + Pow2(n), n);
  }

  lemma CategoryFits(v: int)
    requires -0x8000 < v < 0x8000
    ensures Category(v) <= 15 && (Category(v) == 0 <==> v == 0)
  {
    hide BitLength, Pow2;
    var n := Category(v);
    if n > 15 {
      assert v != 0 by {
        assert BitLength(0) == 0 by { NoBits(); }
      }
      Pow2Mono(15, n - 1);
      Fifteen();
    }
    NoBits();
  }

  lemma NoBits()
    ensures BitLength(0) == 0 && Pow2(0) == 1
  {
  }

  lemma Fifteen()
    ensures Pow2(15) == 0x8000
  {
    assert Pow2(8) == 256;
    assert Pow2(15) == 128 * Pow2(8);
  }

  // ---------------------------------------------------------------------------------------
  // A block as symbols and values

  /** A symbol and the value after it; a symbol that is a multiple of 16 has none. */
  datatype Step = Step(rs: byte, v: int)

  predicate Range(zz: seq<int>) {
    |zz| == 64 && forall i | 0 <= i < 64 :: -0x8000 < zz[i] < 0x8000
  }

  /** How many zeros there are from position k on. */
  function ZerosAt(zz: seq<int>, k: nat): (n: nat)
    requires k <= |zz|
    ensures k + n <= |zz| && (forall i | k <= i < k + n :: zz[i] == 0) && (k + n < |zz| ==> zz[k + n] != 0)
    decreases |zz| - k
  {
    if k < |zz| && zz[k] == 0 then 1 + ZerosAt(zz, k + 1) else 0
  }

  /** The symbol for a run of zeros and the category of the value after it. */
  function RunSize(run: nat, n: nat): (rs: byte)
    requires run < 16 && n < 16
    ensures rs / 16 == run && rs % 16 == n
  {
    16 * run + n
  }

  /** The coefficients from position k of the sequence on (figure F.2): each with the zeros before it, sixteen zeros
      by themselves, and an end where only zeros are left. */
  function AcSteps(zz: seq<int>, k: nat): seq<Step>
    requires Range(zz) && k <= 64
    decreases 64 - k
  {
    var run := ZerosAt(zz, k);
    if k == 64 then []
    else if k + run == 64 then [Step(0, 0)]
    else if run >= 16 then [Step(0xf0, 0)] + AcSteps(zz, k + 16)
    else
      CategoryFits(zz[k + run]);
      [Step(RunSize(run, Category(zz[k + run])), zz[k + run])] + AcSteps(zz, k + run + 1)
  }

  ghost predicate Coded(count: seq<nat>, values: seq<byte>, steps: seq<Step>)
    requires |count| == 16 && |values| == 256
  {
    forall i | 0 <= i < |steps| :: HasCode(count, values, steps[i].rs)
  }

  ghost function StepBits(count: seq<nat>, values: seq<byte>, s: Step): seq<bit>
    requires |count| == 16 && |values| == 256 && HasCode(count, values, s.rs)
  {
    CodeBits(count, values, s.rs) + if s.rs % 16 == 0 then [] else ValueBits(s.v)
  }

  ghost function StepsBits(count: seq<nat>, values: seq<byte>, steps: seq<Step>): seq<bit>
    requires |count| == 16 && |values| == 256 && Coded(count, values, steps)
  {
    if steps == [] then [] else StepBits(count, values, steps[0]) + StepsBits(count, values, steps[1..])
  }

  function DcStep(diff: int): Step
    requires -0x8000 < diff < 0x8000
  {
    CategoryFits(diff);
    Step(Category(diff), diff)
  }

  /** The value belongs to the symbol. */
  predicate Fitting(s: Step) {
    s.rs % 16 != 0 ==> s.rs % 16 == Category(s.v) && s.v != 0
  }

  /** A step whose bits are in the segment is read. */
  lemma StepRead(count: seq<nat>, values: seq<byte>, seg: seq<byte>, p: nat, s: Step)
    requires |count| == 16 && Accepts(count) && |values| == 256 && HasCode(count, values, s.rs) && Fitting(s)
    requires CarriesMsb(seg, p, StepBits(count, values, s))
    ensures !BlindIn(count, seg, p)
    ensures SymbolIn(count, values, seg, p) == Some((s.rs, |CodeBits(count, values, s.rs)|))
    ensures s.rs % 16 != 0 ==>
      Extend(Digits(seg, p + |CodeBits(count, values, s.rs)|, s.rs % 16), s.rs % 16) == s.v
    ensures AcIn(count, values, seg, p) == Some((
      if s.rs % 16 == 0 then Special(s.rs) else Value(s.rs / 16, s.v), p + |StepBits(count, values, s)|))
  {
    hide BlindIn, SymbolIn, CodeBits, Digits, Extend, CarriesMsb, Accepts, HasCode, Category;
    var code := CodeBits(count, values, s.rs);
    CarriesMsbParts(seg, p, code, if s.rs % 16 == 0 then [] else ValueBits(s.v));
    SymbolRead(count, values, seg, p, s.rs);
    if s.rs % 16 != 0 {
      ValueRead(seg, p + |code|, s.v);
      ValueLength(s.v);
    }
  }

  lemma ValueLength(v: int)
    requires v != 0
    ensures |ValueBits(v)| == Category(v)
  {
    hide BitLength;
  }

  // ---------------------------------------------------------------------------------------
  // Reading a block

  /** The coefficients before position k are in their places, dequantised, and the others are zero. */
  ghost predicate Placed(zz: seq<int>, q: seq<nat>, data: seq<int>, k: nat)
    requires |zz| == 64 && |q| == 64 && |data| == 64 && 1 <= k <= 64
  {
    && (forall i | 1 <= i < k :: data[Place(i)] == Short(zz[i] * q[Place(i)]))
    && (forall i | k <= i < 64 :: data[Place(i)] == 0)
  }

  /** Zeros need not be placed. */
  lemma PlacedOn(zz: seq<int>, q: seq<nat>, data: seq<int>, k: nat, m: nat)
    requires |zz| == 64 && |q| == 64 && |data| == 64 && 1 <= k <= m <= 64 && Placed(zz, q, data, k)
    requires forall i | k <= i < m :: zz[i] == 0
    ensures Placed(zz, q, data, m)
  {
    hide Place, Short;
    ShortZero();
    forall i | k <= i < m
      ensures data[Place(i)] == Short(zz[i] * q[Place(i)])
    {
      Nothing(zz[i], q[Place(i)]);
    }
  }

  lemma Nothing(v: int, q: nat)
    requires v == 0
    ensures v * q == 0
  {
  }

  lemma ShortZero()
    ensures Short(0) == 0
  {
  }

  lemma PlacedNext(zz: seq<int>, q: seq<nat>, data: seq<int>, k: nat)
    requires |zz| == 64 && |q| == 64 && |data| == 64 && 1 <= k < 64 && Placed(zz, q, data, k)
    ensures var z := Place(k); Placed(zz, q, data[z := Short(zz[k] * q[z])], k + 1)
    ensures Place(k) != 0
  {
    hide Place, Short;
    FirstPlace();
    forall i | 0 <= i < 64 && i != k
      ensures Place(i) != Place(k)
    {
      if Place(i) == Place(k) {
        PlaceOnce(i, k);
      }
    }
  }

  lemma BitsOn(count: seq<nat>, values: seq<byte>, seg: seq<byte>, p: nat, steps: seq<Step>)
    requires |count| == 16 && |values| == 256 && Coded(count, values, steps) && steps != []
    requires CarriesMsb(seg, p, StepsBits(count, values, steps))
    ensures HasCode(count, values, steps[0].rs) && Coded(count, values, steps[1..])
    ensures var a, b := StepBits(count, values, steps[0]), StepsBits(count, values, steps[1..]);
      CarriesMsb(seg, p, a) && CarriesMsb(seg, p + |a|, b) && |StepsBits(count, values, steps)| == |a| + |b|
  {
    hide StepBits, CarriesMsb, HasCode;
    CarriesMsbParts(seg, p, StepBits(count, values, steps[0]), StepsBits(count, values, steps[1..]));
  }

  lemma FirstStep(zz: seq<int>, k: nat)
    requires Range(zz) && k < 64
    ensures var run, steps := ZerosAt(zz, k), AcSteps(zz, k);
      && steps != [] && Fitting(steps[0])
      && (k + run == 64 ==> steps == [Step(0, 0)])
      && (k + run < 64 && run >= 16 ==> steps[0] == Step(0xf0, 0) && steps[1..] == AcSteps(zz, k + 16))
      && (k + run < 64 && run < 16 ==> (steps[0].rs % 16 != 0 && steps[0].rs / 16 == run
        && steps[0].v == zz[k + run] && steps[1..] == AcSteps(zz, k + run + 1)))
  {
    hide Category, ZerosAt, RunSize;
    var run := ZerosAt(zz, k);
    if k + run < 64 && run < 16 {
      CategoryFits(zz[k + run]);
    }
  }

  // ---------------------------------------------------------------------------------------
  // Symbols that an encoder does not write

  /** A symbol without a value ends the block, whatever run it names, unless it stands for sixteen zeros. */
  lemma OtherEnds(count: seq<nat>, values: seq<byte>, q: seq<nat>, seg: seq<byte>, p: nat, k: nat, dc: int,
    data: seq<int>, run: nat)
    requires |count| == 16 && Accepts(count) && |values| == 256 && |q| == 64 && |data| == 64 && k < 64 && run < 16
    requires HasCode(count, values, 16 * run) && CarriesMsb(seg, p, CodeBits(count, values, 16 * run))
    requires p + |CodeBits(count, values, 16 * run)| <= 8 * |seg|
    ensures var e := p + |CodeBits(count, values, 16 * run)|;
      AcFrom(count, values, q, seg, p, k, dc, data) ==
        if run == 15 then AcFrom(count, values, q, seg, e, k + 16, dc, data) else Block(dc, data, e)
  {
    hide AcFrom, AcIn, BlindIn, SymbolIn, CarriesMsb, CodeBits, Accepts, HasCode;
    var s := Step(16 * run, 0);
    assert s.rs % 16 == 0;
    NoValue(count, values, s);
    StepRead(count, values, seg, p, s);
    AcFromStep(count, values, q, seg, p, k, dc, data);
  }

  lemma NoValue(count: seq<nat>, values: seq<byte>, s: Step)
    requires |count| == 16 && |values| == 256 && HasCode(count, values, s.rs) && s.rs % 16 == 0
    ensures StepBits(count, values, s) == CodeBits(count, values, s.rs)
  {
    hide CodeBits, HasCode, ValueBits;
    assert CodeBits(count, values, s.rs) + [] == CodeBits(count, values, s.rs);
  }

  /** A run past the end of the block puts the value in its last place. */
  lemma PastEnd(k: nat)
    requires 64 <= k < 79
    ensures Place(k) == Place(63) == 63
  {
  }

  /** A category of more than 15 bits is refused. */
  lemma LargeCategory(dc: Code, ac: Code, q: seq<nat>, seg: seq<byte>, p: nat, before: int, t: byte)
    requires dc.Shape() && ac.Shape() && Accepts(dc.count) && |q| == 64 && t > 15 && HasCode(dc.count, dc.values, t)
    requires CarriesMsb(seg, p, CodeBits(dc.count, dc.values, t)) && p + |CodeBits(dc.count, dc.values, t)| <= 8 * |seg|
    ensures BlockIn(dc.count, dc.values, ac.count, ac.values, q, seg, p, before).Bad?
  {
    hide AcFrom, BlindIn, SymbolIn, CarriesMsb, CodeBits, Accepts, HasCode, Digits, Extend, IsInt, IsShort, Zeros;
    SymbolRead(dc.count, dc.values, seg, p, t);
  }

  /** The coefficients come back. */
  lemma {:induction false} AcRead(count: seq<nat>, values: seq<byte>, q: seq<nat>, seg: seq<byte>, p: nat, zz: seq<int>,
    k: nat, dc: int, data: seq<int>) returns (d: seq<int>)
    requires |count| == 16 && Accepts(count) && |values| == 256 && |q| == 64 && |data| == 64
    requires Range(zz) && 1 <= k <= 64 && Placed(zz, q, data, k) && Coded(count, values, AcSteps(zz, k))
    requires CarriesMsb(seg, p, StepsBits(count, values, AcSteps(zz, k)))
    requires p + |StepsBits(count, values, AcSteps(zz, k))| <= 8 * |seg|
    ensures |d| == 64 && d[0] == data[0] && Placed(zz, q, d, 64)
    ensures AcFrom(count, values, q, seg, p, k, dc, data) == Block(dc, d, p + |StepsBits(count, values, AcSteps(zz, k))|)
    decreases 64 - k
  {
    hide AcFrom, AcIn, BlindIn, Place, Short, StepBits, StepsBits, CarriesMsb, Accepts, HasCode, Placed, Coded,
      AcSteps, Category, Digits, Extend, SymbolIn, ZerosAt;
    var steps := AcSteps(zz, k);
    if k == 64 {
      d := data;
      AcFromDone(count, values, q, seg, p, k, dc, data);
      NoSteps(count, values, zz);
    } else {
      FirstStep(zz, k);
      BitsOn(count, values, seg, p, steps);
      StepRead(count, values, seg, p, steps[0]);
      AcFromStep(count, values, q, seg, p, k, dc, data);
      var run, e := ZerosAt(zz, k), p + |StepBits(count, values, steps[0])|;
      if k + run == 64 {
        PlacedOn(zz, q, data, k, 64);
        d := data;
        assert steps[1..] == [];
        NoMore(count, values);
      } else if run >= 16 {
        PlacedOn(zz, q, data, k, k + 16);
        d := AcRead(count, values, q, seg, e, zz, k + 16, dc, data);
      } else {
        PlacedOn(zz, q, data, k, k + run);
        PlacedNext(zz, q, data, k + run);
        var z := Place(k + run);
        d := AcRead(count, values, q, seg, e, zz, k + run + 1, dc, data[z := Short(zz[k + run] * q[z])]);
      }
    }
  }

  lemma NoMore(count: seq<nat>, values: seq<byte>)
    requires |count| == 16 && |values| == 256
    ensures Coded(count, values, []) && StepsBits(count, values, []) == []
  {
  }

  lemma NoSteps(count: seq<nat>, values: seq<byte>, zz: seq<int>)
    requires |count| == 16 && |values| == 256 && Range(zz)
    ensures AcSteps(zz, 64) == [] && Coded(count, values, []) && StepsBits(count, values, []) == []
  {
  }

  // ---------------------------------------------------------------------------------------
  // A code as a table segment gives it

  /** Counts and symbols of a code. */
  datatype Code = Code(count: seq<nat>, values: seq<byte>) {
    predicate Shape() {
      |count| == 16 && |values| == 256
    }
  }

  /** A block can be encoded: its numbers are in range, and its symbols have codes. */
  ghost predicate Encodable(dc: Code, ac: Code, diff: int, zz: seq<int>)
    requires dc.Shape() && ac.Shape()
  {
    && -0x8000 < diff < 0x8000 && Range(zz)
    && HasCode(dc.count, dc.values, DcStep(diff).rs) && Coded(ac.count, ac.values, AcSteps(zz, 1))
  }

  /** What is written for a block: the difference of its DC coefficient to the one before, and its AC
      coefficients. */
  ghost function BlockBits(dc: Code, ac: Code, diff: int, zz: seq<int>): seq<bit>
    requires dc.Shape() && ac.Shape() && Encodable(dc, ac, diff, zz)
  {
    StepBits(dc.count, dc.values, DcStep(diff)) + StepsBits(ac.count, ac.values, AcSteps(zz, 1))
  }

  /** The data of a block: the DC coefficient, and the others in their places, all of them dequantised. */
  ghost predicate Filled(zz: seq<int>, q: seq<nat>, dc: int, data: seq<int>)
    requires |zz| == 64 && |q| == 64
  {
    |data| == 64 && data[0] == dc * q[0] && Placed(zz, q, data, 64)
  }

  lemma DcIs(dc: Code, ac: Code, q: seq<nat>, seg: seq<byte>, p: nat, before: int, t: byte, l: nat)
    requires dc.Shape() && ac.Shape() && |q| == 64
    requires !BlindIn(dc.count, seg, p) && SymbolIn(dc.count, dc.values, seg, p) == Some((t, l)) && t <= 15
    requires p + l + t <= 8 * |seg|
    ensures var v := before + if t == 0 then 0 else Extend(Digits(seg, p + l, t), t);
      IsInt(v) && IsShort(v * q[0]) ==>
        BlockIn(dc.count, dc.values, ac.count, ac.values, q, seg, p, before) ==
          AcFrom(ac.count, ac.values, q, seg, p + l + t, 1, v, Zeros(64)[0 := v * q[0]])
  {
    hide BlindIn, SymbolIn, Digits, Extend, AcFrom, IsInt, IsShort, Zeros;
  }

  lemma PlacedNone(zz: seq<int>, q: seq<nat>, v: int)
    requires |zz| == 64 && |q| == 64
    ensures Placed(zz, q, Zeros(64)[0 := v], 1)
  {
    hide Place, Short;
    FirstPlace();
    forall i | 1 <= i < 64
      ensures Place(i) != 0
    {
      if Place(i) == 0 {
        PlaceOnce(i, 0);
      }
    }
  }

  lemma DcSymbol(diff: int)
    requires -0x8000 < diff < 0x8000
    ensures var s := DcStep(diff);
      s.v == diff && s.rs <= 15 && s.rs % 16 == s.rs && Fitting(s) && (s.rs == 0 <==> diff == 0)
      && |ValueBits(diff)| == s.rs
  {
    hide Category;
    CategoryFits(diff);
    if diff != 0 {
      ValueLength(diff);
    } else {
      assert |ValueBits(0)| == 0 by {
        hide HighFirst;
        assert Category(0) == 0;
      }
    }
  }

  /** A block whose bits are in the segment is read. */
  lemma BlockRead(dc: Code, ac: Code, q: seq<nat>, seg: seq<byte>, p: nat, before: int, diff: int, zz: seq<int>)
    returns (data: seq<int>)
    requires dc.Shape() && ac.Shape() && Accepts(dc.count) && Accepts(ac.count) && |q| == 64
    requires Encodable(dc, ac, diff, zz) && IsInt(before + diff) && IsShort((before + diff) * q[0])
    requires CarriesMsb(seg, p, BlockBits(dc, ac, diff, zz)) && p + |BlockBits(dc, ac, diff, zz)| <= 8 * |seg|
    ensures Filled(zz, q, before + diff, data)
    ensures BlockIn(dc.count, dc.values, ac.count, ac.values, q, seg, p, before) ==
      Block(before + diff, data, p + |BlockBits(dc, ac, diff, zz)|)
  {
    hide AcFrom, AcIn, BlindIn, StepsBits, CarriesMsb, Accepts, HasCode, Placed, Coded, BlockIn, CodeBits, ValueBits,
      AcSteps, Category, Digits, Extend, SymbolIn, ZerosAt, IsInt, IsShort, Zeros, DcStep, Fitting;
    var s := DcStep(diff);
    var head, tail := StepBits(dc.count, dc.values, s), StepsBits(ac.count, ac.values, AcSteps(zz, 1));
    DcSymbol(diff);
    CarriesMsbParts(seg, p, head, tail);
    StepRead(dc.count, dc.values, seg, p, s);
    DcIs(dc, ac, q, seg, p, before, s.rs, |CodeBits(dc.count, dc.values, s.rs)|);
    PlacedNone(zz, q, (before + diff) * q[0]);
    data := AcRead(ac.count, ac.values, q, seg, p + |head|, zz, 1, before + diff, Zeros(64)[0 := (before + diff) * q[0]]);
    assert Zeros(64)[0 := (before + diff) * q[0]][0] == (before + diff) * q[0];
  }

  // ---------------------------------------------------------------------------------------
  // The blocks of a component

  /** Blocks in the order of the sequence, quantised, the DC coefficient first, after one with that DC coefficient. */
  ghost predicate Writable(dc: Code, ac: Code, q: seq<nat>, before: int, blocks: seq<seq<int>>)
    requires dc.Shape() && ac.Shape() && |q| == 64
    decreases |blocks|
  {
    blocks == [] || (
      && Range(blocks[0]) && Encodable(dc, ac, blocks[0][0] - before, blocks[0]) && IsShort(blocks[0][0] * q[0])
      && Writable(dc, ac, q, blocks[0][0], blocks[1..]))
  }

  ghost function ScanBits(dc: Code, ac: Code, q: seq<nat>, before: int, blocks: seq<seq<int>>): seq<bit>
    requires dc.Shape() && ac.Shape() && |q| == 64 && Writable(dc, ac, q, before, blocks)
    decreases |blocks|
  {
    if blocks == [] then []
    else BlockBits(dc, ac, blocks[0][0] - before, blocks[0]) + ScanBits(dc, ac, q, blocks[0][0], blocks[1..])
  }

  /** The data show the block: every coefficient in its place, dequantised. */
  ghost predicate Shows(zz: seq<int>, q: seq<nat>, data: seq<int>)
    requires |q| == 64
  {
    |zz| == 64 && |data| == 64 && forall i | 0 <= i < 64 :: data[Place(i)] == Short(zz[i] * q[Place(i)])
  }

  lemma FilledShows(zz: seq<int>, q: seq<nat>, data: seq<int>)
    requires |zz| == 64 && |q| == 64 && Filled(zz, q, zz[0], data) && IsShort(zz[0] * q[0])
    ensures Shows(zz, q, data)
  {
    hide Place;
    FirstPlace();
  }

  /** The bits are in the segment. */
  predicate Ahead(seg: seq<byte>, p: nat, s: seq<bit>) {
    CarriesMsb(seg, p, s) && p + |s| <= 8 * |seg|
  }

  lemma WritableOn(dc: Code, ac: Code, q: seq<nat>, before: int, blocks: seq<seq<int>>)
    requires dc.Shape() && ac.Shape() && |q| == 64 && blocks != [] && Writable(dc, ac, q, before, blocks)
    ensures Range(blocks[0]) && Encodable(dc, ac, blocks[0][0] - before, blocks[0])
    ensures IsShort(blocks[0][0] * q[0]) && Writable(dc, ac, q, blocks[0][0], blocks[1..])
    ensures ScanBits(dc, ac, q, before, blocks) ==
      BlockBits(dc, ac, blocks[0][0] - before, blocks[0]) + ScanBits(dc, ac, q, blocks[0][0], blocks[1..])
  {
    hide Encodable, IsShort, BlockBits;
  }

  lemma AheadParts(seg: seq<byte>, p: nat, a: seq<bit>, b: seq<bit>)
    requires Ahead(seg, p, a + b)
    ensures Ahead(seg, p, a) && Ahead(seg, p + |a|, b)
  {
    hide CarriesMsb;
    CarriesMsbParts(seg, p, a, b);
  }

  lemma RangeIsInt(zz: seq<int>)
    requires Range(zz)
    ensures IsInt(zz[0])
  {
  }

  /** Decodes one block, which is in the segment. */
  method DecodeOne(j: Jpeg, data: array<int>, hdc: Huffman, hac: Huffman, fastAc: array<int>, before: int, q: seq<nat>,
    ghost dc: Code, ghost ac: Code, ghost zz: seq<int>) returns (ok: bool, next: int)
    requires j.Reservoir() && Describes(hdc, dc.count) && Describes(hac, ac.count) && AcTable(fastAc, hac)
    requires data.Length == 64 && |q| == 64 && data != fastAc && data != hac.delta && data != hdc.delta && IsInt(before)
    requires dc.Shape() && ac.Shape() && hdc.values[..] == dc.values && hac.values[..] == ac.values
    requires Range(zz) && Encodable(dc, ac, zz[0] - before, zz) && IsShort(zz[0] * q[0])
    requires Ahead(j.seg, j.bitpos, BlockBits(dc, ac, zz[0] - before, zz))
    modifies j, data
    ensures ok && j.Reservoir() && Describes(hdc, dc.count) && Describes(hac, ac.count)
    ensures next == zz[0] && Shows(zz, q, data[..])
    ensures j.bitpos == old(j.bitpos) + |BlockBits(dc, ac, zz[0] - before, zz)|
  {
    hide Jpeg.Reservoir, Describes, AcTable, BlockRun, BlockIn, IsInt, IsShort, Encodable, CarriesMsb, BlockBits,
      Filled, Shows, Accepts, TablesOf;
    DescribesShape(hdc, dc.count);
    DescribesShape(hac, ac.count);
    TablesAre(hdc, dc.count);
    TablesAre(hac, ac.count);
    ghost var at := j.Here();
    Ordered(j);
    RangeIsInt(zz);
    assert before + (zz[0] - before) == zz[0];
    ghost var d := BlockRead(dc, ac, q, j.seg, j.bitpos, before, zz[0] - before, zz);
    NotPadded(j.seg);
    BlockIsStandard(hdc, hac, TablesOf(hdc, dc.count), TablesOf(hac, ac.count), q, j.seg, 0, j.marked, at, before);
    FilledShows(zz, q, d);
    ok, next := DecodeBlock(j, data, hdc, hac, fastAc, before, q, dc.count, ac.count);
  }

  lemma Ordered(j: Jpeg)
    requires j.Reservoir()
    ensures InOrder(j.Here().f, |j.seg|, j.marked) && j.Here().p == j.bitpos
  {
    j.InOrderNow();
  }

  /** The tables of an accepted code. */
  method MakeTables(c: Code) returns (h: Huffman)
    requires c.Shape() && Accepts(c.count)
    ensures fresh(h) && fresh(h.fast) && fresh(h.code) && fresh(h.values) && fresh(h.size) && fresh(h.maxcode)
    ensures fresh(h.delta) && Describes(h, c.count) && h.values.Length == 256 && h.values[..] == c.values
  {
    hide Accepts, Describes;
    h := new Huffman();
    forall i | 0 <= i < 256 {
      h.values[i] := c.values[i];
    }
    var ok := h.Build(c.count);
  }

  /** Decodes n blocks, which are in the segment. */
  method DecodeBlocks(j: Jpeg, hdc: Huffman, hac: Huffman, fastAc: array<int>, q: seq<nat>, n: nat,
    ghost dc: Code, ghost ac: Code, ghost blocks: seq<seq<int>>) returns (r: seq<seq<int>>)
    requires j.Reservoir() && Describes(hdc, dc.count) && Describes(hac, ac.count) && AcTable(fastAc, hac) && |q| == 64
    requires dc.Shape() && ac.Shape() && hdc.values[..] == dc.values && hac.values[..] == ac.values
    requires n == |blocks| && Writable(dc, ac, q, 0, blocks) && Ahead(j.seg, j.bitpos, ScanBits(dc, ac, q, 0, blocks))
    modifies j
    ensures |r| == n && forall i | 0 <= i < n :: Shows(blocks[i], q, r[i])
  {
    hide Jpeg.Reservoir, Describes, AcTable, IsInt, IsShort, Ahead, Shows, Accepts, Writable, Encodable, ScanBits,
      BlockBits;
    var data := new int[64];
    var before := 0;
    r := [];
    ZeroIsInt();
    assert blocks[0..] == blocks;
    for i := 0 to n
      invariant |r| == i && forall m | 0 <= m < i :: Shows(blocks[m], q, r[m])
      invariant j.Reservoir() && Describes(hdc, dc.count) && Describes(hac, ac.count) && AcTable(fastAc, hac)
      invariant IsInt(before) && Writable(dc, ac, q, before, blocks[i..])
      invariant Ahead(j.seg, j.bitpos, ScanBits(dc, ac, q, before, blocks[i..]))
    {
      ghost var zz := blocks[i];
      WritableOn(dc, ac, q, before, blocks[i..]);
      AheadParts(j.seg, j.bitpos, BlockBits(dc, ac, zz[0] - before, zz), ScanBits(dc, ac, q, zz[0], blocks[i..][1..]));
      RangeIsInt(zz);
      var ok, next := DecodeOne(j, data, hdc, hac, fastAc, before, q, dc, ac, zz);
      assert blocks[i..][1..] == blocks[i + 1..];
      before := next;
      r := r + [data[..]];
    }
  }

  /** Decodes the blocks of a component from an entropy-coded segment, stuffed and ended by a marker, that an encoder
      may have written for them: each is shown, with its coefficients in their places. */
  method Decode(head: seq<byte>, coded: seq<byte>, marker: byte, tail: seq<byte>, dc: Code, ac: Code, q: seq<nat>, n: nat,
    ghost blocks: seq<seq<int>>) returns (r: seq<seq<int>>)
    requires dc.Shape() && ac.Shape() && Accepts(dc.count) && Accepts(ac.count) && |q| == 64
    requires marker != 0 && marker != ONES && n == |blocks| && Writable(dc, ac, q, 0, blocks)
    requires Ahead(coded, 0, ScanBits(dc, ac, q, 0, blocks))
    ensures |r| == n && forall i | 0 <= i < n :: Shows(blocks[i], q, r[i])
  {
    hide Jpeg.Reservoir, Describes, AcTable, Ahead, Shows, Accepts, Writable, ScanBits, Segment, Stuffed, AcEntry;
    var hdc := MakeTables(dc);
    var hac := MakeTables(ac);
    DescribesShape(hac, ac.count);
    var fastAc := new int[FAST_SIZE];
    BuildFastAc(fastAc, hac);
    Unstuffed(head, coded, marker, tail);
    var j := new Jpeg(head + Stuffed(coded) + [ONES, marker] + tail, |head|);
    r := DecodeBlocks(j, hdc, hac, fastAc, q, n, dc, ac, blocks);
  }

  lemma ZeroIsInt()
    ensures IsInt(0)
  {
  }
}
