/** The DEFLATE format (RFC 1951) as a reference decoder over an unbounded bit stream.
    Each function takes the bit position it starts from and the output so far. */
module Deflate {
  import opened BitStream
  import opened Canonical
  import opened Common

  const LENGTH_BASE: seq<nat> := [
    3, 4, 5, 6, 7, 8, 9, 10, 11, 13, 15, 17, 19, 23, 27, 31, 35, 43, 51, 59,
    67, 83, 99, 115, 131, 163, 195, 227, 258, 0, 0]
  const LENGTH_EXTRA: seq<nat> := [
    0, 0, 0, 0, 0, 0, 0, 0, 1, 1, 1, 1, 2, 2, 2, 2, 3, 3, 3, 3, 4, 4, 4, 4, 5, 5, 5, 5, 0, 0, 0]
  const DIST_BASE: seq<nat> := [
    1, 2, 3, 4, 5, 7, 9, 13, 17, 25, 33, 49, 65, 97, 129, 193, 257, 385, 513, 769, 1025, 1537,
    2049, 3073, 4097, 6145, 8193, 12289, 16385, 24577, 0, 0]
  const DIST_EXTRA: seq<nat> := [
    0, 0, 0, 0, 1, 1, 2, 2, 3, 3, 4, 4, 5, 5, 6, 6, 7, 7, 8, 8, 9, 9, 10, 10, 11, 11, 12, 12, 13, 13,
    0, 0]
  const CODE_ORDER: seq<nat> := [16, 17, 18, 0, 8, 7, 9, 6, 10, 5, 11, 4, 12, 3, 13, 2, 14, 1, 15]

  function LengthBase(l: nat): (b: nat)
    requires l < 29
    ensures 3 <= b <= 258
  {
    LENGTH_BASE[l]
  }

  function LengthExtra(l: nat): (b: nat)
    requires l < 29
    ensures b <= 5
  {
    LENGTH_EXTRA[l]
  }

  function DistBase(d: nat): (b: nat)
    requires d < 30
    ensures 1 <= b <= 24577
  {
    DIST_BASE[d]
  }

  function DistExtra(d: nat): (b: nat)
    requires d < 30
    ensures b <= 13
  {
    DIST_EXTRA[d]
  }

  function CodeOrder(i: nat): (c: nat)
    requires i < 19
    ensures c < 19
  {
    CODE_ORDER[i]
  }

  function FixedLength(i: nat): (l: nat)
    ensures 7 <= l <= 9
  {
    if i < 144 then 8 else if i < 256 then 9 else if i < 280 then 7 else 8
  }

  /** The code lengths of the fixed codes (section 3.2.6). */
  function FixedLengths(): (lens: seq<nat>)
    ensures |lens| == 288 && Lengths(lens)
  {
    seq(288, i requires 0 <= i < 288 => FixedLength(i))
  }

  function FixedDistances(): (lens: seq<nat>)
    ensures |lens| == 32 && Lengths(lens)
  {
    seq(32, i => 5)
  }

  /** How many of the first n fixed code lengths are l. */
  function FixedCount(n: nat, l: nat): nat
    requires n <= 288
  {
    if l == 7 then if n <= 256 then 0 else if n <= 280 then n - 256 else 24
    else if l == 8 then if n <= 144 then n else if n <= 280 then 144 else n - 136
    else if l == 9 then if n <= 144 then 0 else if n <= 256 then n - 144 else 112
    else 0
  }

  lemma {:induction false} FixedCountIs(n: nat, l: nat)
    requires n <= 288
    ensures CountTo(FixedLengths(), n, l) == FixedCount(n, l)
  {
    if n == 0 {
    } else {
      FixedCountIs(n - 1, l);
      assert FixedLengths()[n - 1] == FixedLength(n - 1);
    }
  }

  lemma {:induction false} FixedLevel(l: nat)
    ensures First(FixedLengths(), l) + Used(FixedLengths(), l)
         == if l < 7 then 0 else if l == 7 then 24 else if l == 8 then 200 else Pow2(l)
  {
    hide FixedLengths;
    if l == 0 {
    } else {
      FixedLevel(l - 1);
      FixedCountIs(288, l);
      assert Pow2(9) == 512;
    }
  }

  lemma {:induction false} FixedDistanceCount(n: nat, l: nat)
    requires n <= 32
    ensures CountTo(FixedDistances(), n, l) == if l == 5 then n else 0
  {
    if n == 0 {
    } else {
      FixedDistanceCount(n - 1, l);
    }
  }

  lemma {:induction false} FixedDistanceLevel(l: nat)
    ensures First(FixedDistances(), l) + Used(FixedDistances(), l) == if l < 5 then 0 else Pow2(l)
  {
    hide FixedDistances;
    if l == 0 {
    } else {
      FixedDistanceLevel(l - 1);
      FixedDistanceCount(32, l);
      assert Pow2(5) == 32;
    }
  }

  /** The fixed codes can be built. */
  lemma FixedFits()
    ensures Fits(FixedLengths()) && Fits(FixedDistances())
  {
    hide FixedLengths, FixedDistances, First, Used;
    forall l | 1 <= l <= MAX_LEN
      ensures LevelFits(FixedLengths(), l) && LevelFits(FixedDistances(), l)
    {
      FixedLevel(l);
      FixedDistanceLevel(l);
      assert l == 7 ==> Pow2(7) == 128;
      assert l == 8 ==> Pow2(8) == 256;
    }
  }

  /** The fixed codes are those tabulated in section 3.2.6. */
  lemma FixedCodes(i: nat)
    requires i < 288
    ensures Code(FixedLengths(), i) ==
      if i < 144 then 0x30 + i else if i < 256 then 0x190 + (i - 144)
      else if i < 280 then i - 256 else 0xC0 + (i - 280)
  {
    hide CountTo, FixedLengths;
    FixedAt(i);
    FixedCountIs(i, FixedLength(i));
    FixedCountIs(288, FixedLength(i));
    FixedLevel(FixedLength(i));
  }

  /** The distance codes are the numbers of five bits. */
  lemma FixedDistanceCodes(d: nat)
    requires d < 32
    ensures FixedDistances()[d] == 5 && Code(FixedDistances(), d) == d
  {
    hide CountTo, Used;
    FixedDistanceCount(d, 5);
    FixedDistanceLevel(4);
    NoneUsed();
  }

  lemma NoneUsed()
    ensures First(FixedDistances(), 5) == 2 * (First(FixedDistances(), 4) + Used(FixedDistances(), 4))
  {
    hide Used, FixedDistances;
    var five: nat := 5;
    assert First(FixedDistances(), five) == 2 * (First(FixedDistances(), five - 1) + Used(FixedDistances(), five - 1));
  }

  // ---------------------------------------------------------------------------------------
  // One symbol

  /** The bits at p start with the code of symbol i. */
  ghost predicate CodeAt(lens: seq<nat>, input: seq<byte>, p: nat, i: nat)
    requires i < |lens|
  {
    lens[i] > 0 && MsbField(input, p, lens[i]) == Code(lens, i)
  }

  /** The symbol whose code is at p, if there is one. */
  ghost function NextSymbol(lens: seq<nat>, input: seq<byte>, p: nat): (s: Option<nat>)
    ensures s.Some? ==> s.value < |lens| && CodeAt(lens, input, p, s.value)
    ensures s.None? ==> forall i | 0 <= i < |lens| :: !CodeAt(lens, input, p, i)
  {
    if i: nat :| i < |lens| && CodeAt(lens, input, p, i) then Some(i) else None
  }

  lemma CodeIsMatch(lens: seq<nat>, input: seq<byte>, p: nat, i: nat)
    requires Lengths(lens) && i < |lens|
    ensures CodeAt(lens, input, p, i) <==> Matches(lens, i, MsbField(input, p, 16))
  {
    hide MsbField, Code;
    MsbPrefix(input, p, lens[i], 16 - lens[i]);
    assert lens[i] + (16 - lens[i]) == 16;
  }

  /** At most one symbol is coded at p, so the stream is decoded in one way only. */
  lemma NextSymbolIs(lens: seq<nat>, input: seq<byte>, p: nat, i: nat)
    requires Lengths(lens) && i < |lens| && CodeAt(lens, input, p, i)
    ensures NextSymbol(lens, input, p) == Some(i)
  {
    var s := NextSymbol(lens, input, p);
    CodeIsMatch(lens, input, p, i);
    CodeIsMatch(lens, input, p, s.value);
    PrefixFree(lens, i, s.value, MsbField(input, p, 16));
  }

  // ---------------------------------------------------------------------------------------
  // Compressed blocks (section 3.2.3)

  /** out followed by n bytes, each equal to the byte d places before it. */
  function Repeated(out: seq<byte>, d: nat, n: nat): (r: seq<byte>)
    requires 1 <= d <= |out|
    ensures |r| == |out| + n
    decreases n
  {
    if n == 0 then out else Repeated(out + [out[|out| - d]], d, n - 1)
  }

  lemma RepeatedStep(out: seq<byte>, d: nat, n: nat, b: byte)
    requires 1 <= d <= |out| && n > 0 && b == out[|out| - d]
    ensures Repeated(out + [b], d, n - 1) == Repeated(out, d, n)
  {
  }

  /** What was there stays, and every byte after it is the one d places before. */
  lemma {:induction false} RepeatedIs(out: seq<byte>, d: nat, n: nat)
    requires 1 <= d <= |out|
    ensures Repeated(out, d, n)[..|out|] == out
    ensures forall i | |out| <= i < |out| + n :: Repeated(out, d, n)[i] == Repeated(out, d, n)[i - d]
    decreases n
  {
    if n == 0 {
    } else {
      var b := out[|out| - d];
      RepeatedIs(out + [b], d, n - 1);
      var r := Repeated(out + [b], d, n - 1);
      assert r[..|out| + 1] == out + [b];
      assert r[..|out|] == r[..|out| + 1][..|out|] == out;
      assert r[|out|] == r[..|out| + 1][|out|] == b && r[|out| - d] == r[..|out| + 1][|out| - d];
    }
  }

  lemma RepeatedNone(out: seq<byte>, d: nat)
    requires 1 <= d <= |out|
    ensures Repeated(out, d, 0) == out
  {
  }

  datatype Step = Bad | More(pos: nat, out: seq<byte>) | Done(pos: nat, out: seq<byte>)

  ghost function SymbolStep(lit: seq<nat>, dist: seq<nat>, input: seq<byte>, p: nat, out: seq<byte>): Step {
    match NextSymbol(lit, input, p)
    case None => Bad
    case Some(z) =>
      var q := p + lit[z];
      if z < 256 then More(q, out + [z])
      else if z == 256 then Done(q, out)
      else if z >= 286 then Bad
      else MatchStep(dist, input, z - 257, q, out)
  }

  datatype Match = Match(pos: nat, length: nat, back: nat)

  /** Length and distance of a match: extra length bits, a distance symbol, its extra bits. */
  ghost function NextMatch(dist: seq<nat>, input: seq<byte>, l: nat, q: nat): (r: Option<Match>)
    requires l < 29
    ensures r.Some? ==> r.value.pos >= q && r.value.back >= 1 && r.value.length >= 3
  {
    var len := LengthBase(l) + Field(input, q, LengthExtra(l));
    var r := q + LengthExtra(l);
    match NextSymbol(dist, input, r)
    case None => None
    case Some(d) =>
      if d >= 30 then None
      else
        var s := r + dist[d];
        Some(Match(s + DistExtra(d), len, DistBase(d) + Field(input, s, DistExtra(d))))
  }

  lemma NextMatchIs(dist: seq<nat>, input: seq<byte>, l: nat, q: nat, d: nat, r: nat, s: nat)
    requires l < 29 && d < |dist| && r == q + LengthExtra(l) && s == r + dist[d]
    requires NextSymbol(dist, input, r) == Some(d)
    ensures if d >= 30 then NextMatch(dist, input, l, q).None?
      else NextMatch(dist, input, l, q) == Some(Match(s + DistExtra(d),
             LengthBase(l) + Field(input, q, LengthExtra(l)), DistBase(d) + Field(input, s, DistExtra(d))))
  {
    hide LengthBase, LengthExtra, DistBase, DistExtra, NextSymbol, Field;
  }

  lemma NextMatchLate(dist: seq<nat>, input: seq<byte>, l: nat, q: nat, r: nat)
    requires l < 29 && r == q + LengthExtra(l)
    ensures NextMatch(dist, input, l, q).None? || NextMatch(dist, input, l, q).value.pos >= r
    ensures NextSymbol(dist, input, r).None? ==> NextMatch(dist, input, l, q).None?
  {
    hide LengthBase, LengthExtra, DistBase, DistExtra, NextSymbol, Field;
  }

  ghost function MatchStep(dist: seq<nat>, input: seq<byte>, l: nat, q: nat, out: seq<byte>): Step
    requires l < 29
  {
    match NextMatch(dist, input, l, q)
    case None => Bad
    case Some(m) => if m.back > |out| then Bad else More(m.pos, Repeated(out, m.back, m.length))
  }

  /** The state after n symbols of a compressed block. */
  ghost function SymbolRun(lit: seq<nat>, dist: seq<nat>, input: seq<byte>, p: nat, out: seq<byte>, n: nat): Step {
    if n == 0 then More(p, out)
    else
      match SymbolRun(lit, dist, input, p, out, n - 1)
      case More(q, o) => SymbolStep(lit, dist, input, q, o)
      case _ => Bad
  }

  // ---------------------------------------------------------------------------------------
  // Dynamic codes (section 3.2.7)

  function Filled(v: nat, n: nat): (s: seq<nat>)
    ensures |s| == n
    decreases n, v
  {
    if n == 0 then [] else Filled(v, n - 1) + [v]
  }

  /** The lengths of the code length code, the first k of them read from p. */
  function CodeLengths(input: seq<byte>, p: nat, k: nat): (lens: seq<nat>)
    requires k <= 19
    ensures |lens| == 19 && forall i | 0 <= i < 19 :: lens[i] < 8
    decreases k, p
  {
    if k == 0 then Filled19()
    else
      assert Pow2(3) == 8;
      CodeLengths(input, p, k - 1)[CodeOrder(k - 1) := Field(input, p + 3 * (k - 1), 3)]
  }

  lemma CodeLengthsNext(input: seq<byte>, p: nat, k: nat)
    requires k < 19
    ensures CodeLengths(input, p, k + 1)
         == CodeLengths(input, p, k)[CodeOrder(k) := Field(input, p + 3 * k, 3)]
  {
    hide Field, CodeOrder;
  }

  function Filled19(): (lens: seq<nat>)
    ensures |lens| == 19 && forall i | 0 <= i < 19 :: lens[i] == 0
  {
    [0, 0, 0, 0, 0, 0, 0, 0, 0, 0, 0, 0, 0, 0, 0, 0, 0, 0, 0]
  }

  /** What a code length symbol appends: its end position, the length and how often. */
  ghost function LengthItem(input: seq<byte>, c: nat, q: nat, got: seq<nat>): (r: Option<(nat, nat, nat)>)
    ensures r.Some? ==> r.value.2 >= 1
  {
    if c < 16 then Some((q, c, 1))
    else if c == 16 then
      if got == [] then None else Some((q + 2, got[|got| - 1], 3 + Field(input, q, 2)))
    else if c == 17 then Some((q + 3, 0, 3 + Field(input, q, 3)))
    else Some((q + 7, 0, 11 + Field(input, q, 7)))
  }

  /** Reads code lengths from p until there are total of them. */
  ghost function ReadLengths(clens: seq<nat>, input: seq<byte>, p: nat, got: seq<nat>, total: nat): Option<(nat, seq<nat>)>
    requires |got| <= total
    decreases total - |got|
  {
    if |got| == total then Some((p, got))
    else
      match NextSymbol(clens, input, p)
      case None => None
      case Some(c) =>
        match LengthItem(input, c, p + clens[c], got)
        case None => None
        case Some((q, v, n)) =>
          if |got| + n > total then None
          else ReadLengths(clens, input, q, got + Filled(v, n), total)
  }

  lemma {:induction false} FilledAt(v: nat, n: nat, i: nat)
    requires i < n
    ensures Filled(v, n)[i] == v
    decreases n
  {
    if i >= n - 1 {
    } else {
      FilledAt(v, n - 1, i);
    }
  }

  lemma ReadLengthsStep(clens: seq<nat>, input: seq<byte>, p: nat, got: seq<nat>, total: nat, c: nat)
    requires |got| < total && c < |clens| && NextSymbol(clens, input, p) == Some(c)
    ensures ReadLengths(clens, input, p, got, total) ==
      match LengthItem(input, c, p + clens[c], got)
      case None => None
      case Some((q, v, n)) =>
        if |got| + n > total then None
        else ReadLengths(clens, input, q, got + Filled(v, n), total)
  {
    hide NextSymbol, LengthItem, Field, Filled;
  }

  lemma ItemForward(input: seq<byte>, c: nat, q: nat, got: seq<nat>)
    ensures var r := LengthItem(input, c, q, got);
      r.Some? ==> r.value.0 >= q && r.value.2 >= 1
  {
    hide Field;
  }

  lemma {:induction false} ReadLengthsForward(clens: seq<nat>, input: seq<byte>, p: nat, got: seq<nat>, total: nat)
    requires |got| <= total
    ensures var r := ReadLengths(clens, input, p, got, total);
      r.Some? ==> r.value.0 >= p && |r.value.1| == total
    ensures |got| < total && NextSymbol(clens, input, p).None? ==> ReadLengths(clens, input, p, got, total).None?
    decreases total - |got|
  {
    hide NextSymbol, LengthItem, Filled;
    if |got| == total || !NextSymbol(clens, input, p).Some? {
    } else {
      var c := NextSymbol(clens, input, p).value;
      ItemForward(input, c, p + clens[c], got);
      match LengthItem(input, c, p + clens[c], got)
      case None =>
      case Some((q, v, n)) =>
        if |got| + n <= total {
          ReadLengthsForward(clens, input, q, got + Filled(v, n), total);
        }
    }
  }

  datatype Codes = Codes(pos: nat, lit: seq<nat>, dist: seq<nat>)

  ghost function DynamicCodes(input: seq<byte>, p: nat): Option<Codes> {
    var hlit := Field(input, p, 5) + 257;
    var hdist := Field(input, p + 5, 5) + 1;
    var hclen := Field(input, p + 10, 4) + 4;
    assert Pow2(4) == 16;
    var q := p + 14 + 3 * hclen;
    if hclen > 19 then None
    else
      var clens := CodeLengths(input, p + 14, hclen);
      if !Fits(clens) then None
      else
        match ReadLengths(clens, input, q, [], hlit + hdist)
        case None => None
        case Some((e, lens)) =>
          if |lens| == hlit + hdist && Fits(lens[..hlit]) && Fits(lens[hlit..])
          then Some(Codes(e, lens[..hlit], lens[hlit..]))
          else None
  }

  // ---------------------------------------------------------------------------------------
  // Blocks (section 3.2.3 and 3.2.4)

  function StoredBlock(input: seq<byte>, p: nat, out: seq<byte>): Step {
    var q := (p + 7) / 8;
    var len := ByteAt(input, q) + 256 * ByteAt(input, q + 1);
    var nlen := ByteAt(input, q + 2) + 256 * ByteAt(input, q + 3);
    if nlen != 0xFFFF - len || q + 4 + len > |input| then Bad
    else Done(8 * (q + 4 + len), out + input[q + 4..q + 4 + len])
  }

  ghost function CompressedBlock(lit: seq<nat>, dist: seq<nat>, input: seq<byte>, p: nat, out: seq<byte>): Step {
    if n: nat :| SymbolRun(lit, dist, input, p, out, n).Done?
    then SymbolRun(lit, dist, input, p, out, n)
    else Bad
  }

  ghost function BlockBody(kind: nat, input: seq<byte>, p: nat, out: seq<byte>): Step {
    if kind == 0 then StoredBlock(input, p, out)
    else if kind == 1 then CompressedBlock(FixedLengths(), FixedDistances(), input, p, out)
    else if kind == 2 then
      match DynamicCodes(input, p)
      case None => Bad
      case Some(c) => CompressedBlock(c.lit, c.dist, input, c.pos, out)
    else Bad
  }

  /** The state after a block: More if others follow, Done if it was marked final. */
  function Finish(block: Step, final: bool): Step {
    match block
    case Done(q, o) => if final then Done(q, o) else More(q, o)
    case _ => Bad
  }

  /** One block, its three header bits included. */
  ghost function BlockStep(input: seq<byte>, p: nat, out: seq<byte>): Step {
    Finish(BlockBody(Field(input, p + 1, 2), input, p + 3, out), Bit(input, p) == 1)
  }

  /** The state after n blocks. */
  ghost function BlockRun(input: seq<byte>, p: nat, n: nat): Step {
    if n == 0 then More(p, [])
    else
      match BlockRun(input, p, n - 1)
      case More(q, o) => BlockStep(input, q, o)
      case _ => Bad
  }

  /** The blocks from bit p on decode to out and end before bit e. */
  ghost predicate Inflates(input: seq<byte>, p: nat, out: seq<byte>, e: nat) {
    exists n: nat :: BlockRun(input, p, n) == Done(e, out)
  }

  // ---------------------------------------------------------------------------------------
  // Runs only move forward, and end in one place

  lemma SymbolStepForward(lit: seq<nat>, dist: seq<nat>, input: seq<byte>, p: nat, out: seq<byte>)
    ensures var s := SymbolStep(lit, dist, input, p, out);
      s.Bad? || (s.pos > p && |s.out| >= |out|)
  {
    hide Field, CodeAt;
    match NextSymbol(lit, input, p)
    case None =>
    case Some(z) => assert CodeAt(lit, input, p, z); SymbolLength(lit, input, p, z);
  }

  lemma SymbolLength(lens: seq<nat>, input: seq<byte>, p: nat, i: nat)
    requires i < |lens| && CodeAt(lens, input, p, i)
    ensures lens[i] > 0
  {
  }

  lemma {:induction false} SymbolRunForward(
    lit: seq<nat>, dist: seq<nat>, input: seq<byte>, p: nat, out: seq<byte>, m: nat, n: nat)
    requires m < n && !SymbolRun(lit, dist, input, p, out, n).Bad?
    ensures SymbolRun(lit, dist, input, p, out, m).More?
    ensures var r := SymbolRun(lit, dist, input, p, out, m);
      var s := SymbolStep(lit, dist, input, r.pos, r.out);
      !s.Bad?
      && s.pos <= SymbolRun(lit, dist, input, p, out, n).pos
      && |s.out| <= |SymbolRun(lit, dist, input, p, out, n).out|
  {
    hide SymbolStep;
    if m + 1 >= n {
    } else {
      SymbolRunForward(lit, dist, input, p, out, m, n - 1);
      var r := SymbolRun(lit, dist, input, p, out, n - 1);
      SymbolStepForward(lit, dist, input, r.pos, r.out);
    }
  }

  /** A block that ends after n symbols ends nowhere else. */
  lemma CompressedBlockIs(lit: seq<nat>, dist: seq<nat>, input: seq<byte>, p: nat, out: seq<byte>, n: nat)
    requires SymbolRun(lit, dist, input, p, out, n).Done?
    ensures CompressedBlock(lit, dist, input, p, out) == SymbolRun(lit, dist, input, p, out, n)
  {
    hide SymbolRun;
    var m: nat :| SymbolRun(lit, dist, input, p, out, m).Done?
      && CompressedBlock(lit, dist, input, p, out) == SymbolRun(lit, dist, input, p, out, m);
    if m < n {
      SymbolRunForward(lit, dist, input, p, out, m, n);
    } else if n < m {
      SymbolRunForward(lit, dist, input, p, out, n, m);
    }
  }

  /** One symbol more of a run. */
  lemma SymbolRunNext(lit: seq<nat>, dist: seq<nat>, input: seq<byte>, p: nat, out: seq<byte>, n: nat, q: nat, o: seq<byte>)
    requires SymbolRun(lit, dist, input, p, out, n) == More(q, o)
    ensures SymbolRun(lit, dist, input, p, out, n + 1) == SymbolStep(lit, dist, input, q, o)
  {
    hide SymbolStep;
  }

  /** If a block can be decoded and n of its symbols are, then so can the next one be, and
      no later than where the block ends. */
  lemma CompressedBlockGoesOn(lit: seq<nat>, dist: seq<nat>, input: seq<byte>, p: nat, out: seq<byte>,
    n: nat, q: nat, o: seq<byte>)
    requires SymbolRun(lit, dist, input, p, out, n) == More(q, o)
    ensures var b := CompressedBlock(lit, dist, input, p, out);
      var s := SymbolStep(lit, dist, input, q, o);
      b.Bad? || (b.Done? && !s.Bad? && q < s.pos <= b.pos && |s.out| <= |b.out|)
  {
    hide SymbolStep, SymbolRun;
    var b := CompressedBlock(lit, dist, input, p, out);
    if !b.Bad? {
      var m: nat :| SymbolRun(lit, dist, input, p, out, m).Done? && b == SymbolRun(lit, dist, input, p, out, m);
      if m < n {
        SymbolRunForward(lit, dist, input, p, out, m, n);
      } else {
        SymbolRunForward(lit, dist, input, p, out, n, m);
      }
      SymbolStepForward(lit, dist, input, q, o);
    }
  }

  /** No block starts past the end of the input: the zero bits there would make it a stored
      block without a header. */
  lemma NoBlockPastEnd(input: seq<byte>, p: nat, out: seq<byte>)
    requires 8 * |input| <= p
    ensures BlockStep(input, p, out).Bad?
  {
    hide Field;
    FieldPastEnd(input, p + 1, 2);
  }

  lemma CompressedBlockForward(lit: seq<nat>, dist: seq<nat>, input: seq<byte>, p: nat, out: seq<byte>)
    ensures var b := CompressedBlock(lit, dist, input, p, out);
      b.Bad? || (b.Done? && b.pos > p && |b.out| >= |out|)
  {
    hide CompressedBlock, SymbolStep;
    assert SymbolRun(lit, dist, input, p, out, 0) == More(p, out);
    CompressedBlockGoesOn(lit, dist, input, p, out, 0, p, out);
    SymbolStepForward(lit, dist, input, p, out);
  }

  lemma DynamicCodesForward(input: seq<byte>, p: nat)
    ensures DynamicCodes(input, p).Some? ==> DynamicCodes(input, p).value.pos > p
  {
    hide Field, CodeLengths, ReadLengths, Fits;
    var hclen := Field(input, p + 10, 4) + 4;
    if hclen <= 19 {
      ReadLengthsForward(CodeLengths(input, p + 14, hclen), input, p + 14 + 3 * hclen, [],
        Field(input, p, 5) + 257 + (Field(input, p + 5, 5) + 1));
    }
  }

  lemma BlockBodyForward(kind: nat, input: seq<byte>, p: nat, out: seq<byte>)
    ensures var b := BlockBody(kind, input, p, out);
      b.Bad? || (b.Done? && b.pos > p && |b.out| >= |out|)
  {
    hide CompressedBlock, DynamicCodes, FixedLengths, FixedDistances;
    if kind == 1 {
      CompressedBlockForward(FixedLengths(), FixedDistances(), input, p, out);
    } else if kind == 2 {
      DynamicCodesForward(input, p);
      if DynamicCodes(input, p).Some? {
        var c := DynamicCodes(input, p).value;
        CompressedBlockForward(c.lit, c.dist, input, c.pos, out);
      }
    }
  }

  lemma BlockStepForward(input: seq<byte>, p: nat, out: seq<byte>)
    ensures var b := BlockStep(input, p, out);
      b.Bad? || (b.pos > p && |b.out| >= |out|)
  {
    hide BlockBody, Field;
    BlockBodyForward(Field(input, p + 1, 2), input, p + 3, out);
  }

  lemma {:induction false} BlockRunForward(input: seq<byte>, p: nat, m: nat, n: nat)
    requires m < n && !BlockRun(input, p, n).Bad?
    ensures BlockRun(input, p, m).More?
    ensures var r := BlockRun(input, p, m);
      var s := BlockStep(input, r.pos, r.out);
      !s.Bad? && s.pos <= BlockRun(input, p, n).pos && |s.out| <= |BlockRun(input, p, n).out|
  {
    hide BlockStep;
    if m + 1 >= n {
    } else {
      BlockRunForward(input, p, m, n - 1);
      var r := BlockRun(input, p, n - 1);
      BlockStepForward(input, r.pos, r.out);
    }
  }

  /** What the stream decodes to is determined: one output and one end at most. */
  lemma InflatesOnce(input: seq<byte>, p: nat, out: seq<byte>, e: nat, out': seq<byte>, e': nat)
    requires Inflates(input, p, out, e) && Inflates(input, p, out', e')
    ensures out == out' && e == e'
  {
    hide BlockRun;
    var n: nat :| BlockRun(input, p, n) == Done(e, out);
    var m: nat :| BlockRun(input, p, m) == Done(e', out');
    if m < n {
      BlockRunForward(input, p, m, n);
    } else if n < m {
      BlockRunForward(input, p, n, m);
    }
  }

  lemma BlockRunNext(input: seq<byte>, p: nat, n: nat, q: nat, o: seq<byte>)
    requires BlockRun(input, p, n) == More(q, o)
    ensures BlockRun(input, p, n + 1) == BlockStep(input, q, o)
  {
    hide BlockStep;
  }

  /** If the stream can be decoded and n of its blocks are, then so can the next one be. */
  lemma InflatesGoesOn(input: seq<byte>, p: nat, n: nat, q: nat, o: seq<byte>, out: seq<byte>, e: nat)
    requires BlockRun(input, p, n) == More(q, o) && Inflates(input, p, out, e)
    ensures var s := BlockStep(input, q, o);
      !s.Bad? && s.pos <= e && |s.out| <= |out|
  {
    hide BlockRun, BlockStep;
    var m: nat :| BlockRun(input, p, m) == Done(e, out);
    if m < n {
      BlockRunForward(input, p, m, n);
    } else {
      BlockRunForward(input, p, n, m);
    }
  }

  lemma BlockStepIs(input: seq<byte>, p: nat, out: seq<byte>, final: bool, kind: nat)
    requires final == (Bit(input, p) == 1) && kind == Field(input, p + 1, 2)
    ensures kind == 0 ==> BlockStep(input, p, out) == Finish(StoredBlock(input, p + 3, out), final)
    ensures kind == 1 ==>
      BlockStep(input, p, out) == Finish(CompressedBlock(FixedLengths(), FixedDistances(), input, p + 3, out), final)
    ensures kind == 2 && DynamicCodes(input, p + 3).Some? ==>
      var c := DynamicCodes(input, p + 3).value;
      BlockStep(input, p, out) == Finish(CompressedBlock(c.lit, c.dist, input, c.pos, out), final)
    ensures kind == 2 && DynamicCodes(input, p + 3).None? ==> BlockStep(input, p, out).Bad?
    ensures kind == 3 ==> BlockStep(input, p, out).Bad?
  {
    hide Field, Bit, StoredBlock, CompressedBlock, DynamicCodes, FixedLengths, FixedDistances;
  }

  lemma FixedAt(i: nat)
    requires i < 288
    ensures FixedLengths()[i] == FixedLength(i)
  {
  }

  lemma SymbolRunStart(lit: seq<nat>, dist: seq<nat>, input: seq<byte>, p: nat, out: seq<byte>)
    ensures SymbolRun(lit, dist, input, p, out, 0) == More(p, out)
  {
  }
}
