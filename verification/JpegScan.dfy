/** Reading an entropy-coded segment of JPEG: 32 bits are buffered, filled up byte by byte, and symbols
    and coefficients are taken from them. */
module JpegScan {
  import opened BitStream
  import opened Common
  import opened JpegCode
  import opened JpegDecode
  import opened JpegHuffman
  import opened JpegSegment
  import opened MsbBits

  // ---------------------------------------------------------------------------------------
  // What is read, bit by bit

  /** The symbol whose code is at bit p of the segment, and the length of the code. */
  ghost function SymbolIn(count: seq<nat>, values: seq<byte>, seg: seq<byte>, p: nat): (r: Option<(byte, nat)>)
    requires |count| == 16 && |values| == 256
    ensures r.Some? ==> 1 <= r.value.1 <= 16
  {
    var w := Digits(seg, p, 16);
    var l := Level(count, w, 16, 1);
    if l == 17 then None
    else
      var i := SymbolAt(count, w, 16, l);
      if 0 <= i < 256 then Some((values[i], l)) else None
  }

  /** The table of short codes cannot say what is at bit p. */
  ghost predicate BlindIn(count: seq<nat>, seg: seq<byte>, p: nat)
    requires |count| == 16
  {
    Blind(count, Digits(seg, p, 16))
  }

  /** What becomes of one step: no code, a code that stands for zeros or the end of the block, or
      a run of zeros and a value. */
  datatype Ac = Failed | Special(rs: nat) | Value(run: nat, value: int)

  /** A step of the AC coefficients at bit p and where it ends (section F.2.2.2 of T.81): a symbol, and as
      many bits of a value as it says. */
  ghost function AcIn(count: seq<nat>, values: seq<byte>, seg: seq<byte>, p: nat): Option<(Ac, nat)>
    requires |count| == 16 && |values| == 256
  {
    match SymbolIn(count, values, seg, p)
    case None => None
    case Some((rs, l)) =>
      var n := rs % 16;
      if n == 0 then Some((Special(rs), p + l))
      else Some((Value(rs / 16, Extend(Digits(seg, p + l, n), n)), p + l + n))
  }

  // ---------------------------------------------------------------------------------------
  // When bytes are fetched

  /** How many bytes of the segment were fetched, zeros after it included, and whether the marker at its
      end was met. */
  datatype Fetch = Fetch(bytes: nat, stopped: bool)

  /** Bytes are fetched until more than 24 bits are held after the p that are used.  Where a marker ends the
      segment of length bytes, fetching stops there; the next time zeros are fetched. */
  function Grown(f: Fetch, p: nat, length: nat, marked: bool): (r: Fetch)
    ensures r.bytes >= f.bytes && (f.stopped ==> r.stopped)
    decreases 24 - (8 * f.bytes - p)
  {
    if 8 * f.bytes - p > 24 then f
    else if marked && !f.stopped && f.bytes == length then Fetch(length, true)
    else Grown(Fetch(f.bytes + 1, f.stopped), p, length, marked)
  }

  /** Bytes are fetched if fewer than n bits are held. */
  function Needed(f: Fetch, p: nat, n: nat, length: nat, marked: bool): (r: Fetch)
    ensures r.bytes >= f.bytes && (f.stopped ==> r.stopped)
  {
    if 8 * f.bytes - p < n then Grown(f, p, length, marked) else f
  }

  lemma GrownStep(f: Fetch, p: nat, length: nat, marked: bool)
    ensures 8 * f.bytes - p > 24 ==> Grown(f, p, length, marked) == f
    ensures 8 * f.bytes - p <= 24 ==> (Grown(f, p, length, marked) ==
      if marked && !f.stopped && f.bytes == length then Fetch(length, true)
      else Grown(Fetch(f.bytes + 1, f.stopped), p, length, marked))
  {
  }

  /** Fetching goes past a marker only after it was met. */
  predicate InOrder(f: Fetch, length: nat, marked: bool) {
    if f.stopped then marked && f.bytes >= length else marked ==> f.bytes <= length
  }

  /** So up to the end of the segment there are always bits enough, and after it, too, unless a marker ends it. */
  lemma {:induction false} GrownEnough(f: Fetch, p: nat, length: nat, marked: bool)
    requires InOrder(f, length, marked)
    ensures var g := Grown(f, p, length, marked);
      InOrder(g, length, marked) && (8 * g.bytes - p > 24 || g == Fetch(length, true))
    decreases 24 - (8 * f.bytes - p)
  {
    if 8 * f.bytes - p > 24 || (marked && !f.stopped && f.bytes == length) {
    } else {
      GrownEnough(Fetch(f.bytes + 1, f.stopped), p, length, marked);
    }
  }

  lemma NeededEnough(f: Fetch, p: nat, n: nat, length: nat, marked: bool, e: nat)
    requires InOrder(f, length, marked) && p <= e <= p + n && n <= 25 && (e <= 8 * length || !marked)
    ensures var g := Needed(f, p, n, length, marked);
      InOrder(g, length, marked) && e - p <= 8 * g.bytes - p
  {
    GrownEnough(f, p, length, marked);
  }

  // ---------------------------------------------------------------------------------------
  // What the decoder reads

  /** What the two tables make of sixteen bits: the number of a symbol and the length of its code.  A symbol
      that the table of short codes cannot express is looked for among the long codes. */
  ghost function Told(count: seq<nat>, w: nat): (r: Option<(nat, nat)>)
    requires |count| == 16
    ensures r.Some? ==> r.value.0 < 256 && 1 <= r.value.1 <= 16
  {
    var k := if Blind(count, w) then Level(count, w, 16, 10) else Level(count, w, 16, 1);
    if k == 17 then None
    else
      var i := SymbolAt(count, w, 16, k);
      if 0 <= i < 256 then Some((i, k)) else None
  }

  /** Where a reader is: after p bits, with the bytes fetched. */
  datatype At = At(p: nat, f: Fetch)

  ghost function ReadSymbol(count: seq<nat>, values: seq<byte>, seg: seq<byte>, marked: bool, at: At): Option<(byte, At)>
    requires |count| == 16 && |values| == 256
  {
    var f := Needed(at.f, at.p, 16, |seg|, marked);
    match Told(count, Digits(seg, at.p, 16))
    case None => None
    case Some((i, l)) => if l > 8 * f.bytes - at.p then None else Some((values[i], At(at.p + l, f)))
  }

  /** A value of n bits; without them it is zero, and none are used. */
  function ReadValue(seg: seq<byte>, marked: bool, at: At, n: nat): (int, At)
    requires n > 0
  {
    var f := Needed(at.f, at.p, n, |seg|, marked);
    if n > 8 * f.bytes - at.p then (0, At(at.p, f)) else (Extend(Digits(seg, at.p, n), n), At(at.p + n, f))
  }

  /** A step of the AC coefficients.  Bytes may be fetched once for an entry of the combined table, but
      twice before a symbol. */
  ghost function ReadAc(fast: seq<byte>, size: seq<nat>, count: seq<nat>, values: seq<byte>, seg: seq<byte>,
    marked: bool, at: At): Option<(Ac, At)>
    requires |fast| == 512 && |size| == 257 && |count| == 16 && |values| == 256
  {
    var f := Needed(at.f, at.p, 16, |seg|, marked);
    NineBits(seg, at.p);
    var entry := AcEntry(fast, size, values, Digits(seg, at.p, 9));
    if entry != 0 then
      if entry % 16 > 8 * f.bytes - at.p then None
      else Some((Value((entry / 16) % 16, entry / 256), At(at.p + entry % 16, f)))
    else AcOfSymbol(ReadSymbol(count, values, seg, marked, At(at.p, f)), seg, marked)
  }

  function AcOfSymbol(s: Option<(byte, At)>, seg: seq<byte>, marked: bool): Option<(Ac, At)> {
    match s
    case None => None
    case Some((rs, at)) =>
      if rs % 16 == 0 then Some((Special(rs), at))
      else
        var (v, end) := ReadValue(seg, marked, at, rs % 16);
        Some((Value(rs / 16, v), end))
  }

  lemma NineBits(seg: seq<byte>, p: nat)
    ensures Digits(seg, p, 9) < 512
  {
    DigitsRange(seg, p, 9);
    SixteenBits();
  }

  // ---------------------------------------------------------------------------------------
  // The buffer and the bits it stands for

  /** The buffer holds the first k of the bits from p on, at its top. */
  ghost predicate Holds(buffer: nat, seg: seq<byte>, p: nat, k: int) {
    0 <= k <= 32 && buffer == ShiftLeft(Digits(seg, p, k), 32 - k)
  }

  lemma {:induction false} RightOfLeft(x: nat, a: nat, b: nat)
    ensures ShiftRight(ShiftLeft(x, a + b), a) == ShiftLeft(x, b)
    decreases a
  {
    if a == 0 {
    } else {
      RightOfLeft(x, a - 1, b);
      assert ShiftLeft(x, a + b) == 2 * ShiftLeft(x, a - 1 + b);
      assert 2 * ShiftLeft(x, a - 1 + b) / 2 == ShiftLeft(x, a - 1 + b);
    }
  }

  lemma HoldsRange(buffer: nat, seg: seq<byte>, p: nat, k: int)
    requires Holds(buffer, seg, p, k)
    ensures buffer < WORD
  {
    hide ShiftLeft, Digits, Pow2;
    DigitsRange(seg, p, k);
    ShiftLeftMono(Pow2(k), Digits(seg, p, k), 32 - k);
    ShiftPow2(k, 32 - k);
    assert k + (32 - k) == 32;
    ThirtyTwo();
  }

  lemma {:induction false} DigitsRange(row: seq<byte>, p: nat, n: nat)
    ensures Digits(row, p, n) < Pow2(n)
  {
    if n == 0 {
    } else {
      DigitsRange(row, p, n - 1);
    }
  }

  /** The highest bits of the buffer are the next ones, if so many are held or the rest is zeros. */
  lemma TopIs(buffer: nat, seg: seq<byte>, p: nat, k: int, n: nat)
    requires Holds(buffer, seg, p, k) && n <= 32 && (n <= k || 8 * |seg| <= p + k)
    ensures Top(buffer, n) == Digits(seg, p, n)
  {
    hide ShiftLeft, ShiftRight, Digits;
    if n <= k {
      LeftThenRight(Digits(seg, p, k), 32 - k, k - n);
      assert 32 - k + (k - n) == 32 - n;
      DigitsCut(seg, p, n, k - n);
      assert n + (k - n) == k;
    } else {
      RightOfLeft(Digits(seg, p, k), 32 - n, n - k);
      assert 32 - n + (n - k) == 32 - k;
      DigitsSplit(seg, p, k, n - k);
      DigitsPastEnd(seg, p + k, n - k);
      assert k + (n - k) == n;
    }
  }

  /** Shifting n bits out leaves the bits after them. */
  lemma ShlHolds(buffer: nat, seg: seq<byte>, p: nat, k: int, n: nat)
    requires Holds(buffer, seg, p, k) && n <= k
    ensures Holds(Shl(buffer, n), seg, p + n, k - n)
  {
    hide ShiftLeft, LowBits, Digits;
    var d := Digits(seg, p, k);
    ShiftLeftTwice(d, 32 - k, n);
    LowOfLeft(d, 32 - k + n, 32);
    assert 32 - (32 - k + n) == k - n && 32 - k + n == 32 - (k - n);
    DigitsCut(seg, p, n, k - n);
    assert n + (k - n) == k;
  }

  /** The bits after the first l of a window. */
  lemma TopAfter(buffer: nat, seg: seq<byte>, p: nat, k: int, l: nat, n: nat)
    requires Holds(buffer, seg, p, k) && l + n <= 32 && (l + n <= k || 8 * |seg| <= p + k)
    ensures Top(Shl(buffer, l), n) == Digits(seg, p + l, n)
  {
    hide ShiftLeft, ShiftRight, LowBits, Digits;
    ShiftedTop(buffer, 32, l, n);
    assert 32 - l - n == 32 - (l + n);
    TopIs(buffer, seg, p, k, l + n);
    DigitsCut(seg, p, l, n);
  }

  /** Entering a byte below the bits that are held. */
  lemma EnterByte(buffer: nat, seg: seq<byte>, p: nat, k: int, i: nat)
    requires Holds(buffer, seg, p, k) && k <= 24 && p + k == 8 * i
    ensures Holds(buffer + ShiftLeft(ByteAt(seg, i), 24 - k), seg, p, k + 8)
  {
    hide ShiftLeft, Digits, ByteAt;
    var d, b: nat := Digits(seg, p, k), ByteAt(seg, i);
    DigitsSplit(seg, p, k, 8);
    DigitsInByte(seg, i, 8);
    Unshifted(b);
    ShiftLeftAdd(ShiftLeft(d, 8), b, 24 - k);
    ShiftLeftTwice(d, 8, 24 - k);
    assert 8 + (24 - k) == 32 - k && 32 - (k + 8) == 24 - k;
  }

  lemma NothingHeld(seg: seq<byte>)
    ensures Holds(0, seg, 0, 0)
  {
    ShiftLeftZero(32);
  }

  lemma SignBit(buffer: nat)
    requires buffer < WORD
    ensures ShiftRight(buffer, 31) < 2
  {
    hide ShiftRight;
    TopRange(buffer, 1);
    assert Pow2(1) == 2;
  }

  lemma ExtendIs(k: nat, n: nat)
    requires n > 0
    ensures Extend(k, n) == k + if k < Pow2(n - 1) then 1 - Pow2(n) else 0
  {
  }

  class Jpeg {
    const input: seq<byte>
    var pos: nat
    var marker: byte
    var nomore: bool

    // The bits that are buffered, highest first, and how many of them there are.
    var codeBuffer: nat
    var codeBits: int

    // The data bytes of the segment, how many of them were fetched, zeros after them included, and how
    // many bits were used.
    ghost const seg: seq<byte>
    ghost const marked: bool
    ghost var fetched: nat
    ghost var bitpos: nat

    /** The bytes still to be fetched are those of the segment, or zeros. */
    ghost predicate Source()
      reads `pos, `nomore, `fetched
    {
      && pos <= |input|
      && (nomore ==> marked && fetched >= |seg|)
      && (!nomore && fetched <= |seg| ==> seg[fetched..] == Segment(input, pos) && marked == Marked(input, pos))
      && (!nomore && fetched > |seg| ==> pos == |input| && !marked)
    }

    /** How far the segment was fetched, and where the reader is. */
    ghost function Now(): Fetch
      reads `fetched, `nomore
    {
      Fetch(fetched, nomore)
    }

    ghost function Here(): At
      reads `fetched, `nomore, `bitpos
    {
      At(bitpos, Now())
    }

    /** The buffer holds the next bits of the segment. */
    ghost predicate Reservoir()
      reads `pos, `nomore, `fetched, `codeBuffer, `codeBits, `bitpos
    {
      && Source() && Holds(codeBuffer, seg, bitpos, codeBits)
      && bitpos + codeBits == 8 * fetched
    }

    constructor (data: seq<byte>, start: nat)
      requires start <= |data|
      ensures Reservoir() && Here() == At(0, Fetch(0, false))
      ensures seg == Segment(data, start) && marked == Marked(data, start)
    {
      input, pos, marker, nomore := data, start, 0xff, false;
      codeBuffer, codeBits := 0, 0;
      seg, marked, fetched, bitpos := Segment(data, start), Marked(data, start), 0, 0;
      NothingHeld(Segment(data, start));
    }

    method Get8() returns (b: byte)
      requires pos <= |input|
      modifies `pos
      ensures if old(pos) < |input| then b == input[old(pos)] && pos == old(pos) + 1 else b == 0 && pos == old(pos)
    {
      if pos < |input| {
        b := input[pos];
        pos := pos + 1;
      } else {
        b := 0;
      }
    }

    /** What follows a byte of ones, fill bytes left out. */
    method Get8AfterOnes() returns (c: byte)
      requires pos <= |input|
      modifies `pos
      ensures var q := SkipFill(input, old(pos));
        if q < |input| then c == input[q] && pos == q + 1 else c == 0 && pos == q
    {
      c := Get8();
      ghost var q := old(pos);
      while c == ONES
        invariant pos <= |input| && q <= |input| && SkipFill(input, q) == SkipFill(input, old(pos))
        invariant if q < |input| then c == input[q] && pos == q + 1 else c == 0 && pos == q
        decreases |input| - q
      {
        q := q + 1;
        c := Get8();
      }
    }

    /** The next byte of the segment, or a marker, at which it ends. */
    method NextByte() returns (ok: bool, b: byte)
      requires Source()
      modifies `pos, `marker, `nomore, `fetched
      ensures Source()
      ensures ok == !(marked && !old(nomore) && old(fetched) == |seg|)
      ensures if ok then b == ByteAt(seg, old(fetched)) && Now() == Fetch(old(fetched) + 1, old(nomore))
        else Now() == Fetch(|seg|, true)
    {
      hide Segment, SkipFill, JpegSegment.Marked;
      b := 0;
      ghost var p := pos;
      if !nomore {
        b := Get8();
        SegmentEmpty(input);
        if p < |input| {
          SegmentNext(input, p);
        }
      }
      if b == ONES {
        var c := Get8AfterOnes();
        if c != 0 {
          marker := c;
          nomore := true;
          return false, 0;
        }
      }
      fetched := fetched + 1;
      ok := true;
    }

    /** Fills the buffer up to more than 24 bits, or to the marker at the end of the segment. */
    method Grow()
      requires Reservoir() && codeBits <= 24
      modifies `pos, `marker, `nomore, `fetched, `codeBuffer, `codeBits
      ensures Reservoir() && Now() == Grown(old(Now()), bitpos, |seg|, marked)
    {
      hide Holds, Source, Grown;
      while true
        invariant Reservoir() && codeBits <= 24
        invariant Grown(Now(), bitpos, |seg|, marked) == Grown(old(Now()), bitpos, |seg|, marked)
        decreases 24 - codeBits
      {
        HeldBits();
        GrownStep(Now(), bitpos, |seg|, marked);
        ghost var i := fetched;
        var ok, b := NextByte();
        if !ok {
          return;
        }
        EnterByte(codeBuffer, seg, bitpos, codeBits, i);
        codeBuffer := codeBuffer + ShiftLeft(b, 24 - codeBits);
        codeBits := codeBits + 8;
        if codeBits > 24 {
          GrownStep(Now(), bitpos, |seg|, marked);
          return;
        }
      }
    }

    lemma HeldBits()
      requires Reservoir()
      ensures 0 <= codeBits <= 32 && codeBuffer < WORD && codeBits == 8 * fetched - bitpos
    {
      HoldsRange(codeBuffer, seg, bitpos, codeBits);
    }

    /** Fills the buffer unless it holds n bits. */
    method Need(n: nat)
      requires Reservoir() && n <= 16
      modifies `pos, `marker, `nomore, `fetched, `codeBuffer, `codeBits
      ensures Reservoir() && Now() == Needed(old(Now()), bitpos, n, |seg|, marked)
      ensures codeBits >= n || (nomore && fetched == |seg|)
    {
      hide Holds, Source, Grown;
      HeldBits();
      if codeBits < n {
        InOrderNow();
        GrownEnough(Now(), bitpos, |seg|, marked);
        Grow();
        HeldBits();
      }
    }

    lemma InOrderNow()
      requires Source()
      ensures InOrder(Now(), |seg|, marked)
    {
    }

    /** Looks up a symbol in the buffer. */
    method LookUp(h: Huffman, ghost count: seq<nat>) returns (r: int)
      requires Describes(h, count) && codeBuffer < WORD
      modifies `codeBuffer, `codeBits
      ensures codeBuffer < WORD
      ensures |count| == 16 && h.Shape()
      ensures var t := Told(count, Window(old(codeBuffer)));
        if t.Some? && t.value.1 <= old(codeBits) then
          r == h.values[t.value.0] && Took(old(codeBuffer), old(codeBits), t.value.1)
        else r == -1
    {
      hide Level, SymbolAt, Total, Size, Edge, CodeOf, FastOf, ShiftRight, ShiftLeft, LowBits, Pow2, Blind, Told;
      ghost var w := Window(codeBuffer);
      FastWindow(count, codeBuffer);
      ToldIs(count, w);
      TopRange(codeBuffer, 9);
      SixteenBits();
      var c := Top(codeBuffer, 9);
      var k: nat := h.fast[c];
      if k < 255 {
        var s := h.size[k];
        if s > codeBits {
          return -1;
        }
        ShlRange(codeBuffer, s);
        codeBuffer := Shl(codeBuffer, s);
        codeBits := codeBits - s;
        return h.values[k];
      }
      k := SearchLevel(h, count);
      if k == 17 {
        codeBits := codeBits - 16;
        return -1;
      }
      if k > codeBits {
        return -1;
      }
      r := SlowSymbol(h, count, k);
    }

    /** So many bits were taken off the buffer. */
    ghost predicate Took(buffer: nat, bits: int, n: nat)
      reads `codeBuffer, `codeBits
    {
      codeBits == bits - n && codeBuffer == Shl(buffer, n)
    }

    /** Looks for the length of a code of more than nine bits. */
    method SearchLevel(h: Huffman, ghost count: seq<nat>) returns (k: nat)
      requires Describes(h, count) && codeBuffer < WORD
      ensures |count| == 16 && 10 <= k == Level(count, Window(codeBuffer), 16, 10)
    {
      hide ShiftRight, ShiftLeft, Pow2, Level, Edge, Total, CodeOf, Size, FastOf;
      var temp := Window(codeBuffer);
      TopRange(codeBuffer, 16);
      SixteenBits();
      k := 10;
      while temp >= h.maxcode[k]
        invariant 10 <= k <= 17 && Level(count, temp, 16, 10) == Level(count, temp, 16, k)
        decreases 17 - k
      {
        LevelNext(count, temp, k);
        k := k + 1;
      }
      LevelNext(count, temp, k);
    }

    /** Reads the symbol of a code of k bits. */
    method SlowSymbol(h: Huffman, ghost count: seq<nat>, k: nat) returns (r: int)
      requires Describes(h, count) && codeBuffer < WORD && 10 <= k <= 16 && k <= codeBits
      modifies `codeBuffer, `codeBits
      ensures codeBuffer < WORD && |count| == 16 && r >= -1
      ensures var i := SymbolAt(count, Window(old(codeBuffer)), 16, k);
        if 0 <= i < 256 then
          r == h.values[i] && codeBuffer == Shl(old(codeBuffer), k) && codeBits == old(codeBits) - k
        else r == -1
    {
      hide ShiftRight, ShiftLeft, LowBits, Pow2, Edge, Total, CodeOf, Size, FastOf;
      TopRange(codeBuffer, k);
      ShiftRightTwice(codeBuffer, 16, 16 - k);
      LowBitsSmall(Top(codeBuffer, k), k);
      var c := LowBits(Top(codeBuffer, k), k) + h.delta[k];
      if c < 0 || c >= 256 {
        return -1;
      }
      ShlRange(codeBuffer, k);
      codeBits := codeBits - k;
      codeBuffer := Shl(codeBuffer, k);
      r := h.values[c];
    }

    /** Decodes a symbol. */
    method HuffDecode(h: Huffman, ghost count: seq<nat>) returns (r: int)
      requires Reservoir() && Describes(h, count)
      modifies `pos, `marker, `nomore, `fetched, `codeBuffer, `codeBits, `bitpos
      ensures h.Shape() && |count| == 16
      ensures var s := ReadSymbol(count, h.values[..], seg, marked, old(Here()));
        if r >= 0 then Reservoir() && s == Some((r, Here())) else s.None?
    {
      hide Holds, Source, Digits, Told, Shl, Describes, Needed;
      Need(16);
      HeldBits();
      ghost var p, bits, buffer := bitpos, codeBits, codeBuffer;
      WindowIs();
      r := LookUp(h, count);
      if r >= 0 {
        ShlHolds(buffer, seg, p, bits, bits - codeBits);
        bitpos := p + (bits - codeBits);
      }
    }

    /** Takes n bits as a signed value; without them the value is zero. */
    method ExtendReceive(n: nat) returns (v: int)
      requires Reservoir() && 0 < n <= 16
      modifies `pos, `marker, `nomore, `fetched, `codeBuffer, `codeBits, `bitpos
      ensures Reservoir() && (v, Here()) == ReadValue(seg, marked, old(Here()), n)
    {
      hide Holds, Source, Digits, ShiftRight, ShiftLeft, LowBits, Pow2, Rotate, ClearLow, Extend, Top, Shl, Needed;
      Need(n);
      HeldBits();
      if codeBits < n {
        return 0;
      }
      ghost var p, bits := bitpos, codeBits;
      TopIs(codeBuffer, seg, p, bits, n);
      ShlHolds(codeBuffer, seg, p, bits, n);
      var sign := ShiftRight(codeBuffer, 31);
      SignIs(codeBuffer, n);
      SignBit(codeBuffer);
      RotateIs(codeBuffer, n);
      var k := Rotate(codeBuffer, n);
      codeBuffer := ClearLow(k, n);
      k := LowBits(k, n);
      codeBits := codeBits - n;
      bitpos := bitpos + n;
      v := k + (if sign == 0 then 1 - Pow2(n) else 0);
      ExtendIs(k, n);
    }

    /** Reads one AC coefficient, by the combined table where it has an entry. */
    method DecodeAc(h: Huffman, fastAc: array<int>, ghost count: seq<nat>) returns (r: Ac)
      requires Reservoir() && Describes(h, count) && AcTable(fastAc, h)
      modifies `pos, `marker, `nomore, `fetched, `codeBuffer, `codeBits, `bitpos
      ensures h.Shape() && |count| == 16
      ensures var s := ReadAc(h.fast[..], h.size[..], count, h.values[..], seg, marked, old(Here()));
        if r.Failed? then s.None? else Reservoir() && s == Some((r, Here()))
    {
      hide Holds, Source, Digits, Shl, Describes, AcTable, AcEntry, Needed, ReadSymbol, ReadValue;
      DescribesShape(h, count);
      Need(16);
      HeldBits();
      NineBits(seg, bitpos);
      TopIs(codeBuffer, seg, bitpos, codeBits, 9);
      var c := Top(codeBuffer, 9);
      EntryIs(fastAc, h, c);
      var entry := fastAc[c];
      if entry != 0 {
        var run, s := (entry / 16) % 16, entry % 16;
        if s > codeBits {
          return Failed;
        }
        ShlHolds(codeBuffer, seg, bitpos, codeBits, s);
        codeBuffer := Shl(codeBuffer, s);
        codeBits := codeBits - s;
        bitpos := bitpos + s;
        return Value(run, entry / 256);
      }
      var rs := HuffDecode(h, count);
      if rs < 0 {
        return Failed;
      }
      var s, run := rs % 16, rs / 16;
      if s == 0 {
        return Special(rs);
      }
      var v := ExtendReceive(s);
      r := Value(run, v);
    }

    lemma WindowIs()
      requires Reservoir() && (codeBits >= 16 || (nomore && fetched == |seg|))
      ensures Window(codeBuffer) == Digits(seg, bitpos, 16)
    {
      hide Digits, ShiftRight;
      TopIs(codeBuffer, seg, bitpos, codeBits, 16);
    }
  }

  lemma DescribesShape(h: Huffman, count: seq<nat>)
    requires Describes(h, count)
    ensures h.Shape() && |count| == 16 && Accepts(count)
  {
  }

  lemma EntryIs(fastAc: array<int>, h: Huffman, c: nat)
    requires AcTable(fastAc, h) && c < 512
    ensures h.Shape() && fastAc.Length == 512
    ensures fastAc[c] == AcEntry(h.fast[..], h.size[..], h.values[..], c)
  {
    hide AcEntry;
  }

  /** How the two tables come to it: the short codes first, and only then the long ones. */
  lemma ToldIs(count: seq<nat>, w: nat)
    requires Accepts(count)
    ensures |count| == 16
    ensures var l := Level(count, w, 16, 1);
      !Blind(count, w) ==> Told(count, w) == if l == 17 then None else Some((SymbolAt(count, w, 16, l), l))
    ensures var k := Level(count, w, 16, 10);
      Blind(count, w) ==> (Told(count, w) ==
        if k == 17 || !(0 <= SymbolAt(count, w, 16, k) < 256) then None else Some((SymbolAt(count, w, 16, k), k)))
  {
    hide Level, SymbolAt, Total, Size, Edge, Blind;
    var l := Level(count, w, 16, 1);
    AcceptedSize(count);
    if l <= 16 {
      AtLevel(count, w, 16, l);
      TotalMono(count, l, 16);
    }
  }

  // ---------------------------------------------------------------------------------------
  // Within the segment the decoder reads what the standard has

  /** Unless the table of short codes is blind for it, a symbol is the one that is coded. */
  lemma ToldIsSymbol(count: seq<nat>, values: seq<byte>, seg: seq<byte>, p: nat)
    requires Accepts(count) && |values| == 256
    ensures |count| == 16
    ensures var t := Told(count, Digits(seg, p, 16));
      !BlindIn(count, seg, p) ==>
        SymbolIn(count, values, seg, p) == if t.None? then None else Some((values[t.value.0], t.value.1))
    ensures var t := Told(count, Digits(seg, p, 16));
      BlindIn(count, seg, p) ==> t.None? || t.value.1 >= 10
  {
    hide Level, SymbolAt, Digits, Told, Blind;
    DigitsRange(seg, p, 16);
    SixteenBits();
    ToldIs(count, Digits(seg, p, 16));
  }

  lemma SymbolWithin(count: seq<nat>, values: seq<byte>, seg: seq<byte>, marked: bool, at: At)
    requires Accepts(count) && |values| == 256 && InOrder(at.f, |seg|, marked)
    ensures |count| == 16
    ensures var s := SymbolIn(count, values, seg, at.p);
      !BlindIn(count, seg, at.p) && (s.None? || at.p + s.value.1 <= 8 * |seg| || !marked) ==> (
        var r := ReadSymbol(count, values, seg, marked, at);
        if s.None? then r.None?
        else r.Some? && r.value.0 == s.value.0 && r.value.1.p == at.p + s.value.1 && InOrder(r.value.1.f, |seg|, marked))
  {
    hide Told, SymbolIn, BlindIn, Digits, Needed;
    ToldIsSymbol(count, values, seg, at.p);
    var s := SymbolIn(count, values, seg, at.p);
    if s.Some? && (at.p + s.value.1 <= 8 * |seg| || !marked) {
      NeededEnough(at.f, at.p, 16, |seg|, marked, at.p + s.value.1);
    }
  }

  lemma ValueWithin(seg: seq<byte>, marked: bool, at: At, n: nat)
    requires InOrder(at.f, |seg|, marked) && 0 < n <= 16 && (at.p + n <= 8 * |seg| || !marked)
    ensures var (v, end) := ReadValue(seg, marked, at, n);
      v == Extend(Digits(seg, at.p, n), n) && end.p == at.p + n && InOrder(end.f, |seg|, marked)
  {
    hide Digits, Extend, Needed;
    NeededEnough(at.f, at.p, n, |seg|, marked, at.p + n);
  }

  /** An entry of the combined table is the step that is coded at the position. */
  lemma FastEntryIs(h: Huffman, count: seq<nat>, seg: seq<byte>, p: nat)
    requires Describes(h, count)
    ensures h.Shape() && |count| == 16 && Digits(seg, p, 9) < 512
    ensures var entry := AcEntry(h.fast[..], h.size[..], h.values[..], Digits(seg, p, 9));
      entry != 0 ==>
        !BlindIn(count, seg, p) && entry % 16 <= 9
        && AcIn(count, h.values[..], seg, p) == Some((Value((entry / 16) % 16, entry / 256), p + entry % 16))
  {
    hide Digits, Level, SymbolAt, Total, Size, Edge, CodeOf, FastOf, ShiftRight, ShiftLeft, LowBits, Pow2, AcEntry, Extend,
      Shl;
    NineBits(seg, p);
    var buffer := Digits(seg, p, 32);
    HoldsAll(seg, p);
    HoldsRange(buffer, seg, p, 32);
    TopIs(buffer, seg, p, 32, 9);
    TopIs(buffer, seg, p, 32, 16);
    if AcEntry(h.fast[..], h.size[..], h.values[..], Digits(seg, p, 9)) != 0 {
      FastAcIsSlow(h.fast[..], h.size[..], h.values[..], buffer);
      FastWindow(count, buffer);
      var f := FastAt(h.fast[..], buffer);
      var rs: nat, l := h.values[f], h.size[f];
      TopAfter(buffer, seg, p, 32, l, rs % 16);
    }
  }

  lemma HoldsAll(seg: seq<byte>, p: nat)
    ensures Holds(Digits(seg, p, 32), seg, p, 32)
  {
    hide Digits;
  }

  /** One step, by the combined table or without it: what section F.2.2.2 of T.81 has at the position, if
      that is within the segment or no marker ends it. */
  lemma AcWithin(h: Huffman, count: seq<nat>, seg: seq<byte>, marked: bool, at: At)
    requires Describes(h, count) && InOrder(at.f, |seg|, marked)
    ensures h.Shape() && |count| == 16
    ensures var s := AcIn(count, h.values[..], seg, at.p);
      !BlindIn(count, seg, at.p) && (s.None? || s.value.1 <= 8 * |seg| || !marked) ==> (
        var r := ReadAc(h.fast[..], h.size[..], count, h.values[..], seg, marked, at);
        if s.None? then r.None?
        else r.Some? && r.value.0 == s.value.0 && r.value.1.p == s.value.1 && InOrder(r.value.1.f, |seg|, marked))
  {
    hide Describes, AcEntry, SymbolIn, ReadSymbol, ReadValue, Digits, Extend, Needed, BlindIn;
    DescribesShape(h, count);
    var values := h.values[..];
    var s := AcIn(count, values, seg, at.p);
    FastEntryIs(h, count, seg, at.p);
    if !BlindIn(count, seg, at.p) && (s.None? || s.value.1 <= 8 * |seg| || !marked) {
      var f := Needed(at.f, at.p, 16, |seg|, marked);
      if s.Some? {
        NeededEnough(at.f, at.p, 16, |seg|, marked, if s.value.1 <= at.p + 16 then s.value.1 else at.p + 16);
      } else {
        NeededOrder(at.f, at.p, 16, |seg|, marked);
      }
      SymbolWithin(count, values, seg, marked, At(at.p, f));
      var sym := SymbolIn(count, values, seg, at.p);
      if sym.Some? && sym.value.0 % 16 != 0 {
        var r := ReadSymbol(count, values, seg, marked, At(at.p, f));
        ValueWithin(seg, marked, r.value.1, sym.value.0 % 16);
      }
    }
  }

  lemma NeededOrder(f: Fetch, p: nat, n: nat, length: nat, marked: bool)
    requires InOrder(f, length, marked)
    ensures InOrder(Needed(f, p, n, length, marked), length, marked)
  {
    GrownEnough(f, p, length, marked);
  }
}
