/** Two streams cut off inside their end-of-block code, which zero bits complete.  The inflater
    takes the first and refuses the second: it notices zeros past the end only if it had to ask
    for them while it was decoding symbols. */
module CutOff {
  import opened BitStream
  import opened Canonical
  import opened Common
  import opened Deflate
  import opened Refill
  import opened Inflate

  const SHORT: seq<byte> := [3]
  const LONG: seq<byte> := [99, 96, 96, 0]

  /** A symbol of the fixed code, found by its bits. */
  lemma FixedSymbol(input: seq<byte>, p: nat, i: nat)
    requires i < 288 && MsbField(input, p, FixedLength(i)) == Code(FixedLengths(), i)
    ensures NextSymbol(FixedLengths(), input, p) == Some(i) && FixedLengths()[i] == FixedLength(i)
  {
    hide FixedLengths, MsbField, Code;
    FixedAt(i);
    NextSymbolIs(FixedLengths(), input, p, i);
  }

  /** The bits at the end of an input whose last byte ends with zeros are zero, and so is what follows. */
  lemma ZerosAtEnd(input: seq<byte>, k: nat)
    requires |input| > 0 && 1 <= k <= 8 && ShiftRight(input[|input| - 1], k) == 0
    ensures Field(input, 8 * (|input| - 1) + k, 7) == 0
  {
    hide Field, ShiftRight, ShiftLeft;
    var p := 8 * (|input| - 1) + k;
    FieldOfByte(input, |input| - 1, k);
    FieldSplit(input, p, 8 - k, k - 1);
    FieldPastEnd(input, 8 * |input|, k - 1);
    ShiftLeftZero(8 - k);
    assert 8 - k + (k - 1) == 7;
  }

  lemma SevenZeros()
    ensures Reverse(0, 7) == 0
  {
  }

  /** Zeros at the end of the input are the end of a fixed block. */
  lemma EndOfBlock(input: seq<byte>, k: nat)
    requires |input| > 0 && 1 <= k <= 8 && ShiftRight(input[|input| - 1], k) == 0
    ensures var p := 8 * (|input| - 1) + k;
      NextSymbol(FixedLengths(), input, p) == Some(256) && FixedLengths()[256] == 7
  {
    hide Field, MsbField, FixedLengths, NextSymbol, ShiftRight, Reverse, Code;
    var p := 8 * (|input| - 1) + k;
    ZerosAtEnd(input, k);
    ReverseField(input, p, 7);
    SevenZeros();
    FixedCodes(256);
    FixedSymbol(input, p, 256);
  }

  /** The literal zero across a byte boundary. */
  lemma LiteralZero(input: seq<byte>, i: nat)
    requires ShiftRight(ByteAt(input, i), 3) == 12 && LowBits(ByteAt(input, i + 1), 3) == 0
    ensures NextSymbol(FixedLengths(), input, 8 * i + 3) == Some(0) && FixedLengths()[0] == 8
  {
    hide Field, MsbField, FixedLengths, NextSymbol, ByteAt, ShiftRight, LowBits;
    var p := 8 * i + 3;
    FieldOfByte(input, i, 3);
    FieldByte(input, i + 1);
    FieldCut(input, 8 * (i + 1), 3, 5);
    FieldSplit(input, p, 5, 3);
    ShiftLeftZero(5);
    assert p + 5 == 8 * (i + 1) && Field(input, p + 5, 3) == 0;
    ReverseField(input, p, 8);
    assert Reverse(12, 8) == 0x30;
    FixedCodes(0);
    FixedSymbol(input, p, 0);
  }

  /** A stream that begins with a final block of the fixed codes. */
  lemma FixedHeader(input: seq<byte>)
    requires LowBits(ByteAt(input, 0), 3) == 3
    ensures Bit(input, 0) == 1 && Field(input, 1, 2) == 1
  {
    hide Field, Bit, ByteAt;
    FieldByte(input, 0);
    FieldCut(input, 0, 3, 5);
    FieldCut(input, 0, 1, 2);
    FieldOne(input, 0);
    assert Field(input, 0, 3) == 3;
    assert LowBits(3, 1) == 1 && ShiftRight(3, 1) == 1;
  }

  /** What the decoder makes of such a stream is told by the symbols of its block. */
  lemma FixedStream(input: seq<byte>, n: nat, e: nat, out: seq<byte>)
    requires Bit(input, 0) == 1 && Field(input, 1, 2) == 1
    requires SymbolRun(FixedLengths(), FixedDistances(), input, 3, [], n) == Done(e, out)
    ensures BlockRun(input, 0, 1) == Done(e, out)
    ensures RunFetch(input, 0, 1) ==
      SymbolRunFetch(FixedLengths(), FixedDistances(), input, 3, [], Fetch(4, false), n)
  {
    hide FixedLengths, FixedDistances, SymbolRun, SymbolRunFetch, CompressedBlock, CompressedFetch, BlockStep,
      BlockFetch, Bit, Field;
    var lit, dist := FixedLengths(), FixedDistances();
    BlockRunStart(input, 0);
    BlockRunNext(input, 0, 0, 0, []);
    RunFetchNext(input, 0, 0, 0, [], Fetch(0, false));
    BlockStepIs(input, 0, [], true, 1);
    CompressedBlockIs(lit, dist, input, 3, [], n);
    FirstFetch();
    BlockFetchIs(input, 0, [], Fetch(0, false), 1, Fetch(4, false));
    CompressedFetchIs(lit, dist, input, 3, [], Fetch(4, false), n);
  }

  lemma FirstFetch()
    ensures Received(Received(Fetch(0, false), 0, 1), 1, 2) == Fetch(4, false)
  {
    assert TopUp(Fetch(4, false), 0) == Fetch(4, false);
    assert TopUp(Fetch(3, false), 0) == Fetch(4, false);
    assert TopUp(Fetch(2, false), 0) == Fetch(4, false);
    assert TopUp(Fetch(1, false), 0) == Fetch(4, false);
  }

  /** A literal and its place in the schedule. */
  lemma LiteralStep(input: seq<byte>, n: nat, q: nat, o: seq<byte>, f: Fetch)
    requires SymbolRun(FixedLengths(), FixedDistances(), input, 3, [], n) == More(q, o)
    requires SymbolRunFetch(FixedLengths(), FixedDistances(), input, 3, [], Fetch(4, false), n) == Some(f)
    requires NextSymbol(FixedLengths(), input, q) == Some(0) && FixedLengths()[0] == 8
    ensures SymbolRun(FixedLengths(), FixedDistances(), input, 3, [], n + 1) == More(q + 8, o + [0])
    ensures SymbolRunFetch(FixedLengths(), FixedDistances(), input, 3, [], Fetch(4, false), n + 1)
         == Ready(f, q, |input|)
  {
    hide FixedLengths, FixedDistances, SymbolRun, SymbolRunFetch, SymbolFetch, NextSymbol, Ready;
    var lit, dist := FixedLengths(), FixedDistances();
    SymbolRunNext(lit, dist, input, 3, [], n, q, o);
    SymbolFetchNext(lit, dist, input, 3, [], Fetch(4, false), n, q, o, f);
    SymbolFetchIs(lit, dist, input, q, f);
  }

  /** The end of the block and its place in the schedule. */
  lemma LastStep(input: seq<byte>, n: nat, q: nat, o: seq<byte>, f: Fetch)
    requires SymbolRun(FixedLengths(), FixedDistances(), input, 3, [], n) == More(q, o)
    requires SymbolRunFetch(FixedLengths(), FixedDistances(), input, 3, [], Fetch(4, false), n) == Some(f)
    requires NextSymbol(FixedLengths(), input, q) == Some(256) && FixedLengths()[256] == 7
    ensures SymbolRun(FixedLengths(), FixedDistances(), input, 3, [], n + 1) == Done(q + 7, o)
    ensures var g := Ready(f, q, |input|);
      SymbolRunFetch(FixedLengths(), FixedDistances(), input, 3, [], Fetch(4, false), n + 1)
      == if g.None? || Overrun(g.value, q + 7) then None else g
  {
    hide FixedLengths, FixedDistances, SymbolRun, SymbolRunFetch, SymbolFetch, NextSymbol, Ready, Overrun;
    var lit, dist := FixedLengths(), FixedDistances();
    SymbolRunNext(lit, dist, input, 3, [], n, q, o);
    SymbolFetchNext(lit, dist, input, 3, [], Fetch(4, false), n, q, o, f);
    SymbolFetchIs(lit, dist, input, q, f);
  }

  lemma ShortBits()
    ensures Bit(SHORT, 0) == 1 && Field(SHORT, 1, 2) == 1 && |SHORT| == 1
    ensures NextSymbol(FixedLengths(), SHORT, 3) == Some(256) && FixedLengths()[256] == 7
  {
    hide FixedLengths, NextSymbol, Bit, Field;
    assert LowBits(3, 3) == 3 && ShiftRight(3, 3) == 0;
    FixedHeader(SHORT);
    EndOfBlock(SHORT, 3);
  }

  /** A block without literals, ended by zeros that were fetched with the first bits. */
  lemma ShortRun(input: seq<byte>)
    requires NextSymbol(FixedLengths(), input, 3) == Some(256) && FixedLengths()[256] == 7
    ensures SymbolRun(FixedLengths(), FixedDistances(), input, 3, [], 1) == Done(10, [])
    ensures SymbolRunFetch(FixedLengths(), FixedDistances(), input, 3, [], Fetch(4, false), 1) == Some(Fetch(4, false))
  {
    hide FixedLengths, FixedDistances, SymbolRun, SymbolRunFetch, NextSymbol;
    var lit, dist, f := FixedLengths(), FixedDistances(), Fetch(4, false);
    SymbolRunStart(lit, dist, input, 3, []);
    SymbolFetchStart(lit, dist, input, 3, [], f);
    LastStep(input, 0, 3, [], f);
  }

  /** One byte, whose block ends two bits past it: it is taken, in spite of the remark in the
      source that this is caught. */
  lemma ShortIsTaken(room: nat)
    ensures Inflates(SHORT, 0, [], 10) && 10 > 8 * |SHORT| && Accepted(SHORT, false, room, [])
  {
    hide FixedLengths, FixedDistances, SymbolRun, SymbolRunFetch, NextSymbol, BlockRun, RunFetch, Bit, Field;
    ShortBits();
    ShortRun(SHORT);
    FixedStream(SHORT, 1, 10, []);
    assert TakenAs(SHORT, 0, [], 1, 10);
  }

  lemma LongSchedule(f: Fetch, g: Fetch)
    requires f == Fetch(4, false) && g == Fetch(4, true)
    ensures Ready(f, 3, 4) == Ready(f, 11, 4) == Some(f) && Ready(f, 19, 4) == Ready(g, 27, 4) == Some(g)
    ensures Overrun(g, 34)
  {
    hide TopUp;
  }

  /** A block of three literals, the last of which uses up the input: zeros are asked for. */
  lemma LongRun(input: seq<byte>)
    requires |input| == 4
    requires NextSymbol(FixedLengths(), input, 3) == Some(0) && FixedLengths()[0] == 8
    requires NextSymbol(FixedLengths(), input, 11) == Some(0) && NextSymbol(FixedLengths(), input, 19) == Some(0)
    requires NextSymbol(FixedLengths(), input, 27) == Some(256) && FixedLengths()[256] == 7
    ensures SymbolRun(FixedLengths(), FixedDistances(), input, 3, [], 4) == Done(34, [0, 0, 0])
    ensures SymbolRunFetch(FixedLengths(), FixedDistances(), input, 3, [], Fetch(4, false), 4).None?
  {
    hide *;
    var lit, dist, f, g := FixedLengths(), FixedDistances(), Fetch(4, false), Fetch(4, true);
    LongSchedule(f, g);
    SymbolRunStart(lit, dist, input, 3, []);
    SymbolFetchStart(lit, dist, input, 3, [], f);
    LiteralStep(input, 0, 3, [], f);
    LiteralStep(input, 1, 11, [0], f);
    LiteralStep(input, 2, 19, [0, 0], f);
    LastStep(input, 3, 27, [0, 0, 0], g);
  }

  /** Four bytes, whose block ends two bits past them: they are not taken. */
  lemma LongIsRefused(room: nat, out: seq<byte>)
    ensures Inflates(LONG, 0, [0, 0, 0], 34) && !Accepted(LONG, false, room, out)
  {
    hide FixedLengths, FixedDistances, SymbolRun, SymbolRunFetch, NextSymbol, BlockRun, RunFetch, Bit, Field, Inflates;
    LongBits();
    LongRun(LONG);
    FixedStream(LONG, 4, 34, [0, 0, 0]);
    EndsAs(LONG, 0, 1, 34, [0, 0, 0]);
    if Taken(LONG, 0, out) {
      var n: nat, e: nat :| TakenAs(LONG, 0, out, n, e);
      if n == 0 {
        BlockRunStart(LONG, 0);
      } else {
        RunGivenUp(LONG, 0, 1, n);
      }
    }
  }

  lemma LongBytes()
    ensures LowBits(99, 3) == 3 && ShiftRight(99, 3) == 12
    ensures LowBits(96, 3) == 0 && ShiftRight(96, 3) == 12
    ensures LowBits(0, 3) == 0 && ShiftRight(0, 3) == 0
  {
  }

  lemma LongBits()
    ensures Bit(LONG, 0) == 1 && Field(LONG, 1, 2) == 1 && |LONG| == 4
    ensures NextSymbol(FixedLengths(), LONG, 3) == Some(0) && FixedLengths()[0] == 8
    ensures NextSymbol(FixedLengths(), LONG, 11) == Some(0)
    ensures NextSymbol(FixedLengths(), LONG, 19) == Some(0)
    ensures NextSymbol(FixedLengths(), LONG, 27) == Some(256) && FixedLengths()[256] == 7
  {
    hide FixedLengths, NextSymbol, Bit, Field, LowBits, ShiftRight;
    LongBytes();
    FixedHeader(LONG);
    LiteralZero(LONG, 0);
    LiteralZero(LONG, 1);
    LiteralZero(LONG, 2);
    EndOfBlock(LONG, 3);
  }

  /** What the decoder does with the two. */
  method DecodeBoth(initialSize: nat, expandable: bool) returns (short: Option<seq<byte>>, long: Option<seq<byte>>)
    requires initialSize <= UINT_MAX && (expandable ==> initialSize > 0)
    ensures short == Some([]) && long == None
  {
    hide Accepted, Room;
    short := ZlibDecode(SHORT, initialSize, expandable, false);
    ShortIsTaken(Room(expandable, initialSize));
    long := ZlibDecode(LONG, initialSize, expandable, false);
    if long.Some? {
      LongIsRefused(Room(expandable, initialSize), long.value);
    }
  }
}
