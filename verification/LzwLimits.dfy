/** Data that the standard decodes and the GIF decoder refuses, one for each of its reasons. */
module LzwLimits {
  import opened BitStream
  import opened Lzw

  // ---------------------------------------------------------------------------------------
  // No clear code at the start

  /** The codes 0 and 5 (end) of three bits each. */
  const UNCLEARED: seq<byte> := [40]

  lemma UnclearedBits()
    ensures Field(UNCLEARED, 0, 3) == 0 && Field(UNCLEARED, 3, 3) == 5
    ensures Pow2(2) == 4 && Widened(6, 3) == 3
  {
    hide Field;
    FieldByte(UNCLEARED, 0);
    FieldCut(UNCLEARED, 0, 3, 5);
    FieldCut(UNCLEARED, 3, 3, 2);
    assert LowBits(40, 3) == 0 && ShiftRight(40, 3) == 5 && LowBits(5, 3) == 5;
    assert LowBits(6, 3) == 6;
  }

  /** The standard only recommends that encoders begin with a clear code; this decoder insists. */
  lemma UnclearedIsRefused()
    ensures Decodes(2, UNCLEARED, [0]) && !ClearsFirst(2, UNCLEARED) && !Accepted(2, UNCLEARED)
  {
    hide Field, Pow2, Widened, RunTo;
    UnclearedBits();
    var d := Cleared(2, false);
    RunNext(2, UNCLEARED, 0);
    RunNext(2, UNCLEARED, 1);
    FirstClear(2, UNCLEARED);
    UnclearedStart(2, UNCLEARED);
    var e := Grown(d.table, d.width, [0]);
    assert RunTo(2, CODE_LIMIT, false, UNCLEARED, 1) == Going(3, e, [0]);
    assert RunTo(2, CODE_LIMIT, false, UNCLEARED, 2) == Ended([0]);
  }

  lemma UnclearedStart(cs: nat, data: seq<byte>)
    ensures RunTo(cs, CODE_LIMIT, false, data, 0) == Going(0, Cleared(cs, false), [])
  {
  }

  lemma RunNext(cs: nat, data: seq<byte>, n: nat)
    ensures var r := RunTo(cs, CODE_LIMIT, false, data, n);
      RunTo(cs, CODE_LIMIT, false, data, n + 1) ==
        if r.Going? then RunStep(cs, CODE_LIMIT, false, data, r.pos, r.dict, r.out) else r
  {
    hide RunStep;
  }

  // ---------------------------------------------------------------------------------------
  // Too many codes without a clear code

  /** A clear code of three bits, then zeros: code 0 over and over, in ever wider codes. */
  ghost predicate Zeros(data: seq<byte>) {
    |data| > 0 && data[0] == 4 && forall i | 1 <= i < |data| :: data[i] == 0
  }

  lemma ZeroBit(data: seq<byte>, p: nat)
    requires Zeros(data) && p >= 3
    ensures Bit(data, p) == 0
  {
    hide ShiftRight;
    if p < 8 {
      FourGone(p);
    } else {
      ShiftRightZero(p % 8);
    }
  }

  lemma {:induction false} FourGone(k: nat)
    requires k >= 3
    ensures ShiftRight(4, k) == 0
    decreases k
  {
    if k == 3 {
      assert ShiftRight(4, 2) == 1;
      ShiftRightStep(4, 2);
    } else {
      FourGone(k - 1);
      ShiftRightStep(4, k - 1);
    }
  }

  lemma {:induction false} ZeroField(data: seq<byte>, p: nat, n: nat)
    requires Zeros(data) && p >= 3
    ensures Field(data, p, n) == 0
    decreases n
  {
    hide Bit;
    if n == 0 {
    } else {
      ZeroBit(data, p);
      ZeroField(data, p + 1, n - 1);
    }
  }

  lemma FirstCode(data: seq<byte>)
    requires Zeros(data)
    ensures Field(data, 0, 3) == 4 && Pow2(2) == 4 && ClearsFirst(2, data)
  {
    hide Field;
    FieldByte(data, 0);
    FieldCut(data, 0, 3, 5);
    assert LowBits(4, 3) == 4;
  }

  /** The table when only code 0 was used. */
  ghost predicate ZeroDict(d: Dict) {
    DictInv(2, d) && |d.table| <= CODE_LIMIT && d.width >= 3 && d.table[0] == [0] && (d.prev == [] || d.prev == [0])
  }

  lemma ZeroStep(d: Dict)
    requires ZeroDict(d)
    ensures var s := CodeStep(2, CODE_LIMIT, false, d, 0);
      s.Emit? && ZeroDict(s.dict)
  {
    hide Pow2;
    SmallRoots();
    TwelveBits();
    Pow2Mono(d.width, 12);
    if d.prev != [] && |d.table| < CODE_LIMIT {
      GrownInv(2, d.table + [[0, 0]], d.width, [0]);
      assert d.prev + [[0][0]] == [0, 0];
    } else {
      GrownInv(2, d.table, d.width, [0]);
    }
  }

  lemma SmallRoots()
    ensures Pow2(2) == 4
  {
  }

  lemma ClearedZero()
    ensures ZeroDict(Cleared(2, true))
  {
    ClearedInv(2);
    TwelveBits();
  }

  /** The standard run reads code after code, and none of them clears the table. */
  lemma {:induction false} ZeroRun(data: seq<byte>, n: nat)
    requires Zeros(data) && n >= 1
    ensures var r := RunTo(2, CODE_LIMIT, false, data, n);
      && !r.Failed?
      && (r.Going? ==> ZeroDict(r.dict) && n + 2 <= r.pos <= 8 * |data| && r.pos <= 12 * n && Unclear(2, data, n) == n - 1)
      && (12 * n <= 8 * |data| ==> r.Going?)
  {
    hide Field, CodeStep, RunTo, Unclear, ZeroDict, Pow2, Cleared;
    RunNext(2, data, n - 1);
    UnclearNext(2, data, n - 1);
    assert n - 1 + 1 == n;
    if n == 1 {
      UnclearedStart(2, data);
      FirstCode(data);
      FirstStep(Cleared(2, false));
      ClearedZero();
      StartWidth();
    } else {
      ZeroRun(data, n - 1);
      var r := RunTo(2, CODE_LIMIT, false, data, n - 1);
      if r.Going? {
        ZeroWidth(r.dict);
        ZeroField(data, r.pos, r.dict.width);
        ZeroStep(r.dict);
      }
    }
  }

  lemma StartWidth()
    ensures Cleared(2, false).width == 3
  {
  }

  lemma ZeroWidth(d: Dict)
    requires ZeroDict(d)
    ensures 3 <= d.width <= 12
  {
  }

  lemma FirstStep(d: Dict)
    ensures CodeStep(2, CODE_LIMIT, false, d, 4) == Clear(Cleared(2, true))
  {
    assert Pow2(2) == 4;
  }

  /** So from some length on they are decoded by the standard, and refused. */
  lemma ZerosAreRefused(data: seq<byte>)
    requires Zeros(data) && |data| >= 12284
    ensures (exists out: seq<byte> :: Decodes(2, data, out)) && ClearsFirst(2, data) && Overflows(2, data)
    ensures !Accepted(2, data)
  {
    hide RunTo, Unclear, ZeroDict, Pow2, Field, ClearsFirst;
    FirstCode(data);
    ZeroRun(data, 8189);
    assert Unclear(2, data, 8189) > Longest(2);
    var n := 8 * |data| + 1;
    ZeroRun(data, n);
    assert Decodes(2, data, RunTo(2, CODE_LIMIT, false, data, n).out);
  }

  /** The two reasons for refusing data that the standard decodes occur, each without the other. */
  lemma BothOccur() returns (uncleared: seq<byte>, lengthy: seq<byte>)
    ensures (exists out: seq<byte> :: Decodes(2, uncleared, out)) && !ClearsFirst(2, uncleared)
    ensures (exists out: seq<byte> :: Decodes(2, lengthy, out)) && ClearsFirst(2, lengthy) && Overflows(2, lengthy)
  {
    hide Decodes, ClearsFirst, Overflows;
    uncleared := UNCLEARED;
    UnclearedIsRefused();
    lengthy := [4] + seq(12283, i => 0);
    ZerosAreRefused(lengthy);
  }
}
