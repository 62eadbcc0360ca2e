/** The inflater: a bit reservoir over an input buffer, two Huffman decoders and an output
    buffer that grows by doubling. */
module Inflate {
  import opened BitStream
  import opened Canonical
  import opened Common
  import opened Deflate
  import opened Refill
  import H = ZHuffman

  const UINT_MAX: nat := 0xFFFF_FFFF

  /** How large a buffer of the given size can become by doubling. */
  function MaxGrown(capacity: nat): (m: nat)
    requires capacity <= UINT_MAX
    ensures capacity <= m <= UINT_MAX
    decreases UINT_MAX - capacity
  {
    if capacity == 0 || capacity > UINT_MAX / 2 then capacity else MaxGrown(2 * capacity)
  }

  /** It is a power of two times as large, below 2^32, and doubling it once more is not. */
  lemma {:induction false} MaxGrownIs(capacity: nat)
    requires 0 < capacity <= UINT_MAX
    ensures exists k: nat :: MaxGrown(capacity) == ShiftLeft(capacity, k)
    ensures MaxGrown(capacity) < Pow2(32) <= 2 * MaxGrown(capacity)
    decreases UINT_MAX - capacity
  {
    WordSizes();
    if capacity > UINT_MAX / 2 {
      assert ShiftLeft(capacity, 0) == capacity;
    } else {
      MaxGrownIs(2 * capacity);
      var k: nat :| MaxGrown(2 * capacity) == ShiftLeft(2 * capacity, k);
      ShiftLeftDouble(capacity, k);
      assert MaxGrown(capacity) == ShiftLeft(capacity, k + 1);
    }
  }

  /** How much output there is room for. */
  function Room(expandable: bool, capacity: nat): (m: nat)
    requires capacity <= UINT_MAX
    ensures capacity <= m <= UINT_MAX
  {
    if expandable then MaxGrown(capacity) else capacity
  }

  /** The two header bytes of a zlib stream (section 2.2 of RFC 1950), with something after
      them. */
  predicate ZlibHeader(input: seq<byte>) {
    && |input| > 2
    && (input[0] as nat * 256 + input[1]) % 31 == 0
    && input[1] / 32 % 2 == 0
    && input[0] % 16 == 8
  }

  /** Field by field: method 8 in the four lowest bits, no preset dictionary, and a check sum of the two bytes. */
  lemma ZlibHeaderFields(input: seq<byte>)
    ensures ZlibHeader(input) <==>
      |input| > 2 && Field(input, 0, 4) == 8 && Bit(input, 13) == 0
      && (256 * Field(input, 0, 8) + Field(input, 8, 8)) % 31 == 0
  {
    hide Field, Bit, ShiftRight, LowBits;
    if |input| > 2 {
      FieldByte(input, 0);
      FieldByte(input, 1);
      FieldCut(input, 0, 4, 4);
      FourLow(input[0]);
      BitOfByte(input, 1, 5);
      FiveDown(input[1]);
      assert 8 * 1 + 5 == 13 && ByteAt(input, 0) == input[0] && ByteAt(input, 1) == input[1];
    }
  }

  lemma FourLow(v: nat)
    ensures LowBits(v, 4) == v % 16
  {
    var four: nat := 4;
    assert LowBits(v, four) == v % 2 + 2 * LowBits(v / 2, four - 1);
    assert LowBits(v / 2, four - 1) == v / 2 % 2 + 2 * LowBits(v / 2 / 2, four - 2);
    assert LowBits(v / 2 / 2, four - 2) == v / 2 / 2 % 2 + 2 * LowBits(v / 2 / 2 / 2, four - 3);
    assert LowBits(v / 2 / 2 / 2, four - 3) == v / 2 / 2 / 2 % 2 + 2 * LowBits(v / 2 / 2 / 2 / 2, four - 4);
  }

  lemma FiveDown(v: nat)
    ensures ShiftRight(v, 5) == v / 32
  {
    var five: nat := 5;
    assert ShiftRight(v, five) == ShiftRight(v / 2, five - 1);
    assert ShiftRight(v / 2, five - 1) == ShiftRight(v / 4, five - 2);
    assert ShiftRight(v / 4, five - 2) == ShiftRight(v / 8, five - 3);
    assert ShiftRight(v / 8, five - 3) == ShiftRight(v / 16, five - 4);
    assert ShiftRight(v / 16, five - 4) == v / 32;
  }

  function StreamStart(header: bool): nat {
    if header then 16 else 0
  }

  /** Whatever the decoder would take from bit p on is too long. */
  ghost predicate NothingTaken(input: seq<byte>, p: nat, room: nat) {
    forall out: seq<byte> :: Taken(input, p, out) ==> |out| > room
  }

  lemma BlockRunStart(input: seq<byte>, p: nat)
    ensures BlockRun(input, p, 0) == More(p, []) && RunFetch(input, p, 0) == Some(Fetch(p / 8, false))
  {
  }

  lemma StreamEnds(input: seq<byte>, p: nat, n: nat, e: nat, out: seq<byte>)
    requires BlockRun(input, p, n) == Done(e, out) && RunFetch(input, p, n).Some?
    ensures Taken(input, p, out) && Inflates(input, p, out, e)
  {
    hide RunFetch;
    assert TakenAs(input, p, out, n, e);
  }

  lemma StreamGoesOn(input: seq<byte>, p: nat, n: nat, q: nat, o: seq<byte>, g: Fetch, room: nat)
    requires BlockRun(input, p, n) == More(q, o) && RunFetch(input, p, n) == Some(g)
    ensures Misses(BlockStep(input, q, o), BlockFetch(input, q, o, g), room) ==> NothingTaken(input, p, room)
  {
    hide BlockStep, BlockRun, BlockFetch, RunFetch, Taken;
    forall out: seq<byte> | Taken(input, p, out)
      ensures Misses(BlockStep(input, q, o), BlockFetch(input, q, o, g), room) ==> |out| > room
    {
      StreamGivenUp(input, p, n, q, o, g, out);
    }
  }

  /** A dynamic block whose codes are of no use is of no use. */
  lemma CodesThenBlock(input: seq<byte>, p: nat, out: seq<byte>)
    ensures DynamicCodes(input, p).Some? ==>
      var c := DynamicCodes(input, p).value;
      var b := CompressedBlock(c.lit, c.dist, input, c.pos, out);
      b.Bad? || (b.Done? && b.pos > c.pos)
  {
    hide CompressedBlock, DynamicCodes;
    if DynamicCodes(input, p).Some? {
      var c := DynamicCodes(input, p).value;
      CompressedBlockForward(c.lit, c.dist, input, c.pos, out);
    }
  }

  /** The result s is of no use: there is none, the decoder gives up before it, or it is too long. */
  predicate Misses(s: Step, f: Option<Fetch>, room: nat) {
    s.Bad? || f.None? || |s.out| > room
  }

  /** A block misses as soon as one of its symbols does. */
  lemma BlockGoesOn(lit: seq<nat>, dist: seq<nat>, input: seq<byte>, p: nat, out: seq<byte>, f: Fetch, n: nat,
    q: nat, o: seq<byte>, g: Fetch, room: nat)
    requires SymbolRun(lit, dist, input, p, out, n) == More(q, o)
    requires SymbolRunFetch(lit, dist, input, p, out, f, n) == Some(g)
    ensures Misses(SymbolStep(lit, dist, input, q, o), SymbolFetch(lit, dist, input, q, g), room) ==>
      Misses(CompressedBlock(lit, dist, input, p, out), CompressedFetch(lit, dist, input, p, out, f), room)
  {
    hide SymbolRun, SymbolStep, CompressedBlock, SymbolFetch, SymbolRunFetch, CompressedFetch;
    CompressedBlockGoesOn(lit, dist, input, p, out, n, q, o);
    BlockGivenUp(lit, dist, input, p, out, f, n, q, o, g);
  }

  predicate MatchMisses(m: Option<Match>, f: Option<Fetch>) {
    m.None? || f.None?
  }

  class Inflater {
    const input: seq<byte>
    var zbuffer: nat
    var numBits: int
    var hitZeofOnce: bool
    var codeBuffer: nat

    var buf: array<byte>
    var zout: nat
    const zExpandable: bool

    const zLength: H.ZHuffman
    const zDistance: H.ZHuffman

    // The number of bits consumed, and of zero bytes read past the end of the input.
    ghost var bitpos: nat
    ghost var pad: nat

    /** The reservoir holds the next numBits bits of the zero-extended input. */
    ghost predicate Reservoir()
      reads `zbuffer, `numBits, `hitZeofOnce, `codeBuffer, `bitpos, `pad
    {
      && zbuffer <= |input|
      && 0 <= numBits <= 32
      && codeBuffer == Field(input, bitpos, numBits)
      && bitpos + numBits == 8 * (zbuffer + pad) + (if hitZeofOnce then 16 else 0)
      && (pad > 0 || hitZeofOnce ==> zbuffer == |input|)
    }

    /** How far the input was fetched. */
    ghost function Now(): Fetch
      reads `zbuffer, `pad, `hitZeofOnce
    {
      Fetch(zbuffer + pad, hitZeofOnce)
    }

    lemma HeldNow()
      ensures Reservoir() ==> Held(Now(), bitpos) == numBits >= 0
    {
      hide Field;
    }

    lemma HeldField()
      requires Reservoir()
      ensures codeBuffer == Field(input, bitpos, numBits)
    {
      hide Field;
    }

    ghost predicate Valid()
      reads this
    {
      && Reservoir()
      && zLength.Shape() && zDistance.Shape() && zLength.Repr !! zDistance.Repr
      && this !in zLength.Repr && this !in zDistance.Repr
      && (buf as object) !in zLength.Repr && (buf as object) !in zDistance.Repr
      && zout <= buf.Length <= UINT_MAX && (zExpandable ==> buf.Length > 0)
    }

    ghost function Contents(): seq<byte>
      requires zout <= buf.Length
      reads this, buf
    {
      buf[..zout]
    }

    ghost function Capacity(): nat
      requires buf.Length <= UINT_MAX
      reads this
    {
      Room(zExpandable, buf.Length)
    }

    constructor (data: seq<byte>, capacity: nat, expandable: bool)
      requires capacity <= UINT_MAX && (expandable ==> capacity > 0)
      ensures Valid() && fresh(buf) && fresh(zLength.Repr) && fresh(zDistance.Repr)
      ensures input == data && zExpandable == expandable && buf.Length == capacity
      ensures Contents() == [] && zout == 0 && zbuffer == 0 && bitpos == 0 && pad == 0
    {
      input, zExpandable := data, expandable;
      zbuffer, numBits, hitZeofOnce, codeBuffer := 0, 0, false, 0;
      bitpos, pad := 0, 0;
      buf := new byte[capacity];
      zout := 0;
      zLength := new H.ZHuffman();
      zDistance := new H.ZHuffman();
    }

    // -------------------------------------------------------------------------------------
    // The bit reservoir

    method ZGet8() returns (b: byte)
      requires zbuffer <= |input| && (pad > 0 ==> zbuffer == |input|)
      modifies this`zbuffer, this`pad
      ensures zbuffer <= |input| && (pad > 0 ==> zbuffer == |input|)
      ensures old(zbuffer) == |input| ==> zbuffer == |input|
      ensures zbuffer + pad == old(zbuffer + pad) + 1
      ensures b == ByteAt(input, old(zbuffer + pad))
    {
      if zbuffer >= |input| {
        pad := pad + 1;
        b := 0;
      } else {
        b := input[zbuffer];
        zbuffer := zbuffer + 1;
      }
    }

    /** Tops the reservoir up to more than 24 bits; the guard in the loop never fires. */
    method FillBits()
      requires Reservoir() && numBits <= 24
      modifies this`zbuffer, this`numBits, this`codeBuffer, this`pad
      ensures Reservoir() && 25 <= numBits && codeBuffer <= UINT_MAX && Now() == TopUp(old(Now()), bitpos)
    {
      hide Field, TopUp, Pow2, ShiftLeft;
      while numBits <= 24
        invariant Reservoir() && TopUp(Now(), bitpos) == TopUp(old(Now()), bitpos)
        decreases 32 - numBits
      {
        if codeBuffer >= Pow2(numBits) {
          assert false;
        }
        TopUpStep(Now(), bitpos);
        ghost var at := zbuffer + pad + if hitZeofOnce then 2 else 0;
        var b := ZGet8();
        assert b == ByteAt(input, at);
        FieldByte(input, at);
        FieldSplit(input, bitpos, numBits, 8);
        codeBuffer := codeBuffer + ShiftLeft(b, numBits);
        numBits := numBits + 8;
      }
      TopUpStep(Now(), bitpos);
      Pow2Mono(numBits, 32);
      WordSizes();
    }

    /** Drops n bits that the reservoir holds. */
    method Drop(n: nat)
      requires Reservoir() && n <= numBits
      modifies this`numBits, this`codeBuffer, this`bitpos
      ensures Reservoir() && bitpos == old(bitpos) + n && numBits == old(numBits) - n
    {
      hide Field;
      FieldCut(input, bitpos, n, numBits - n);
      assert n + (numBits - n) == numBits;
      codeBuffer := ShiftRight(codeBuffer, n);
      numBits := numBits - n;
      bitpos := bitpos + n;
    }

    method ZReceive(n: nat) returns (k: nat)
      requires Reservoir() && n <= 24
      modifies this`zbuffer, this`numBits, this`codeBuffer, this`pad, this`bitpos
      ensures Reservoir() && bitpos == old(bitpos) + n && k == Field(input, old(bitpos), n)
      ensures old(numBits) >= n ==> numBits == old(numBits) - n
      ensures Now() == Received(old(Now()), old(bitpos), n)
    {
      hide Field;
      if numBits < n {
        FillBits();
      }
      FieldCut(input, bitpos, n, numBits - n);
      assert n + (numBits - n) == numBits;
      k := LowBits(codeBuffer, n);
      Drop(n);
    }

    // -------------------------------------------------------------------------------------
    // Huffman decoding

    /** Sees to it that sixteen bits are held, zeros past the end if need be, but only once. */
    method MakeReady() returns (ok: bool)
      requires Reservoir()
      modifies this`zbuffer, this`numBits, this`codeBuffer, this`pad, this`hitZeofOnce
      ensures Reservoir() && (ok ==> numBits >= 16)
      ensures Ready(old(Now()), bitpos, |input|) == if ok then Some(Now()) else None
    {
      hide Field, TopUp;
      if numBits < 16 {
        if zbuffer >= |input| {
          if !hitZeofOnce {
            PadField(input, bitpos, numBits, 16);
            hitZeofOnce := true;
            numBits := numBits + 16;
          } else {
            return false;
          }
        } else {
          FillBits();
        }
      }
      ok := true;
    }

    /** Decodes one symbol.  It fails just when no code is there or the input has run out before. */
    method Decode(z: H.ZHuffman, ghost lens: seq<nat>) returns (r: int)
      requires Reservoir() && z.Represents(lens) && this !in z.Repr
      modifies this`zbuffer, this`numBits, this`codeBuffer, this`pad, this`bitpos, this`hitZeofOnce
      ensures Reservoir()
      ensures r == -1 || 0 <= r < |lens|
      ensures r >= 0 ==> NextSymbol(lens, input, old(bitpos)) == Some(r) && bitpos == old(bitpos) + lens[r]
      ensures r >= 0 ==> Ready(old(Now()), old(bitpos), |input|) == Some(Now())
      ensures r == -1 ==>
        NextSymbol(lens, input, old(bitpos)).None? || Ready(old(Now()), old(bitpos), |input|).None?
    {
      hide Field, MsbField, Reverse, CodeAt, H.FastEntry, Matches, Code, Fits, Limit, Ready;
      var ok := MakeReady();
      if !ok {
        return -1;
      }
      Window(input, bitpos, numBits);
      H.FastLookup(lens, codeBuffer);
      FastSlot(z, lens, codeBuffer);
      var b := z.fast[LowBits(codeBuffer, H.FAST_BITS)];
      if b != 0 {
        var s := b / 512;
        r := b % 512;
        SymbolFound(lens, input, bitpos, r);
        Drop(s);
      } else {
        r := DecodeSlowpath(z, lens);
      }
    }

    method DecodeSlowpath(z: H.ZHuffman, ghost lens: seq<nat>) returns (r: int)
      requires Reservoir() && numBits >= 16 && z.Represents(lens) && this !in z.Repr
      requires forall i | 0 <= i < |lens| && Matches(lens, i, Reverse(codeBuffer, 16)) :: lens[i] > H.FAST_BITS
      modifies this`numBits, this`codeBuffer, this`bitpos
      ensures Reservoir()
      ensures r == -1 || 0 <= r < |lens|
      ensures r >= 0 ==> NextSymbol(lens, input, old(bitpos)) == Some(r) && bitpos == old(bitpos) + lens[r]
      ensures r == -1 ==> NextSymbol(lens, input, old(bitpos)).None?
    {
      hide Reservoir, Field, MsbField, Reverse, CodeAt, Matches, Code, Fits, Limit, Slot, Lengths, First, Shorter,
        NextSymbol, ShiftRight, LowBits, H.ZHuffman.Represents, H.ZHuffman.Shape;
      HeldField();
      var k := H.BitReverse(codeBuffer, 16);
      Window(input, bitpos, numBits);
      WordSizes();
      var s := H.FAST_BITS + 1;
      SlowLevel(z, lens, s);
      while k >= z.maxcode[s]
        invariant H.FAST_BITS < s <= 16
        invariant z.maxcode.Length == 17 && z.maxcode[s] == (if s == 16 then 0x10000 else Limit(lens, s))
        invariant forall i | 0 <= i < |lens| && Matches(lens, i, k) :: lens[i] >= s
        decreases 16 - s
        modifies {}
      {
        H.SlowNext(lens, k, s);
        s := s + 1;
        SlowLevel(z, lens, s);
      }
      if s >= 16 {
        NoSymbol(lens, input, bitpos, k);
        return -1;
      }
      H.SlowSearch(lens, k, s);
      ghost var i := LevelMatch(lens, s, k);
      SlowLevel(z, lens, s);
      SlowSlot(z, lens, i);
      var b := ShiftRight(k, 16 - s) - z.firstcode[s] + z.firstsymbol[s];
      if b >= H.SYMBOLS {
        assert false;
      }
      if z.size[b] != s {
        assert false;
      }
      SymbolFound(lens, input, bitpos, i);
      Drop(s);
      r := z.value[b];
    }

    // -------------------------------------------------------------------------------------
    // The output buffer

    /** Makes room for n more bytes by doubling; what was written stays. */
    method Expand(n: nat) returns (ok: bool)
      requires Valid() && zout + n > buf.Length
      modifies this`buf
      ensures Valid() && (buf == old(buf) || fresh(buf)) && Contents() == old(Contents())
      ensures Capacity() == old(Capacity())
      ensures ok ==> fresh(buf) && zout + n <= buf.Length
      ensures !ok ==> buf == old(buf) && zout + n > Capacity()
    {
      hide Reservoir, H.ZHuffman.Shape;
      if !zExpandable {
        return false;
      }
      if UINT_MAX - zout < n {
        return false;
      }
      var limit := buf.Length;
      while zout + n > limit
        invariant buf.Length <= limit <= UINT_MAX && limit > 0 && MaxGrown(limit) == MaxGrown(buf.Length)
        decreases UINT_MAX - limit
        modifies {}
      {
        if limit > UINT_MAX / 2 {
          return false;
        }
        limit := limit * 2;
      }
      var q := new byte[limit];
      forall i | 0 <= i < buf.Length {
        q[i] := buf[i];
      }
      buf := q;
      return true;
    }

    method PutByte(b: byte)
      requires Valid() && zout < buf.Length
      modifies this`zout, buf
      ensures Valid() && Contents() == old(Contents()) + [b]
    {
      hide Reservoir, H.ZHuffman.Shape;
      buf[zout] := b;
      zout := zout + 1;
    }

    method PutLiteral(b: byte) returns (ok: bool)
      requires Valid()
      modifies this`buf, this`zout, buf
      ensures Valid() && (buf == old(buf) || fresh(buf)) && Capacity() == old(Capacity())
      ensures ok ==> Contents() == old(Contents()) + [b]
      ensures !ok ==> zout == old(zout) && zout + 1 > Capacity()
    {
      hide Reservoir, H.ZHuffman.Shape, MaxGrown;
      if zout >= buf.Length {
        ok := Expand(1);
        if !ok {
          return;
        }
      }
      PutByte(b);
      ok := true;
    }

    /** Copies len bytes from dist places back, byte by byte: the two may overlap. */
    method CopyMatch(dist: nat, length: nat)
      requires Valid() && 1 <= dist <= zout && zout + length <= buf.Length
      modifies this`zout, buf
      ensures Valid() && Contents() == Repeated(old(Contents()), dist, length)
    {
      hide Reservoir, H.ZHuffman.Shape, Repeated;
      var len := length;
      ghost var target := Repeated(Contents(), dist, len);
      if dist == 1 {
        var v := buf[zout - dist];
        while len > 0
          invariant Valid() && 1 <= zout && zout + len <= buf.Length && buf[zout - 1] == v
          invariant Repeated(Contents(), dist, len) == target
        {
          RepeatedStep(Contents(), dist, len, v);
          PutByte(v);
          assert Contents()[zout - 1] == v;
          len := len - 1;
        }
      } else {
        var p := zout - dist;
        while len > 0
          invariant Valid() && 0 <= p && p + dist == zout && zout + len <= buf.Length
          invariant Repeated(Contents(), dist, len) == target
        {
          RepeatedStep(Contents(), dist, len, buf[p]);
          PutByte(buf[p]);
          p := p + 1;
          len := len - 1;
        }
      }
      RepeatedNone(Contents(), dist);
    }

    // -------------------------------------------------------------------------------------
    // Blocks

    /** Extra length bits, a distance symbol and its extra bits. */
    method DecodePair(l: nat, ghost dist: seq<nat>) returns (ok: bool, len: nat, back: nat)
      requires Reservoir() && l < 29 && zDistance.Represents(dist) && this !in zDistance.Repr
      modifies this`zbuffer, this`numBits, this`codeBuffer, this`pad, this`bitpos, this`hitZeofOnce
      ensures Reservoir()
      ensures ok ==> NextMatch(dist, input, l, old(bitpos)) == Some(Match(bitpos, len, back))
      ensures ok ==> MatchFetch(dist, input, l, old(bitpos), old(Now())) == Some(Now())
      ensures !ok ==> MatchMisses(NextMatch(dist, input, l, old(bitpos)),
                                  MatchFetch(dist, input, l, old(bitpos), old(Now())))
    {
      hide Reservoir, Field, NextSymbol, NextMatch, LengthBase, LengthExtra, DistBase, DistExtra, H.ZHuffman.Represents,
        MatchFetch, Ready, Received;
      len, back := LengthBase(l), 0;
      FieldNone(input, bitpos);
      HeldNow();
      NothingReceived(Now(), bitpos);
      MatchFetchIs(dist, input, l, bitpos, Now());
      if LengthExtra(l) > 0 {
        var k := ZReceive(LengthExtra(l));
        len := len + k;
      }
      ghost var r := bitpos;
      var d := Decode(zDistance, dist);
      NextMatchLate(dist, input, l, old(bitpos), r);
      if d >= 0 {
        NextMatchIs(dist, input, l, old(bitpos), d, r, bitpos);
      }
      if d < 0 || d >= 30 {
        return false, len, back;
      }
      back := DistBase(d);
      FieldNone(input, bitpos);
      HeldNow();
      NothingReceived(Now(), bitpos);
      if DistExtra(d) > 0 {
        var k := ZReceive(DistExtra(d));
        back := back + k;
      }
      ok := true;
    }

    /** The rest of a length symbol: read the pair, then copy. */
    method DecodeMatch(l: nat, ghost dist: seq<nat>) returns (ok: bool)
      requires Valid() && l < 29 && zDistance.Represents(dist)
      modifies this, buf
      ensures Valid() && (buf == old(buf) || fresh(buf)) && Capacity() == old(Capacity())
      ensures ok ==> MatchStep(dist, input, l, old(bitpos), old(Contents())) == More(bitpos, Contents())
      ensures ok ==> zout > old(zout)
      ensures ok ==> MatchFetch(dist, input, l, old(bitpos), old(Now())) == Some(Now())
      ensures !ok ==> Misses(MatchStep(dist, input, l, old(bitpos), old(Contents())),
                             MatchFetch(dist, input, l, old(bitpos), old(Now())), Capacity())
    {
      hide NextMatch, MatchFetch, Field, LengthBase, MaxGrown, H.ZHuffman.Represents, Repeated;
      var good, len, back := DecodePair(l, dist);
      if !good {
        return false;
      }
      if zout < back {
        return false;
      }
      if len > buf.Length - zout {
        ok := Expand(len);
        if !ok {
          return;
        }
      }
      CopyMatch(back, len);
      ok := true;
    }

    /** One symbol of a compressed block: a literal, a match, or the end of the block. */
    method TakeSymbol(ghost lit: seq<nat>, ghost dist: seq<nat>) returns (ok: bool, last: bool)
      requires Valid() && zLength.Represents(lit) && zDistance.Represents(dist)
      modifies this, buf
      ensures Valid() && (buf == old(buf) || fresh(buf)) && Capacity() == old(Capacity())
      ensures ok ==> SymbolStep(lit, dist, input, old(bitpos), old(Contents()))
                     == if last then Done(bitpos, Contents()) else More(bitpos, Contents())
      ensures ok ==> SymbolFetch(lit, dist, input, old(bitpos), old(Now())) == Some(Now())
      ensures ok && !last ==> zout > old(zout)
      ensures !ok ==> Misses(SymbolStep(lit, dist, input, old(bitpos), old(Contents())),
                             SymbolFetch(lit, dist, input, old(bitpos), old(Now())), Capacity())
    {
      hide Reservoir, MatchStep, H.ZHuffman.Represents, H.ZHuffman.Shape, Field, NextSymbol, SymbolFetch, MatchFetch,
        Ready, MaxGrown;
      ghost var q, g := bitpos, Now();
      last := false;
      var z := Decode(zLength, lit);
      SymbolFetchIs(lit, dist, input, q, g);
      if z < 256 {
        if z < 0 {
          return false, last;
        }
        ok := PutLiteral(z);
      } else if z == 256 {
        HeldNow();
        return !(hitZeofOnce && numBits < 16), true;
      } else if z >= 286 {
        return false, last;
      } else {
        ok := DecodeMatch(z - 257, dist);
      }
    }

    /** Decodes a compressed block. */
    method ParseHuffmanBlock(ghost lit: seq<nat>, ghost dist: seq<nat>) returns (ok: bool)
      requires Valid() && zLength.Represents(lit) && zDistance.Represents(dist)
      modifies this, buf
      ensures Valid() && (buf == old(buf) || fresh(buf)) && Capacity() == old(Capacity())
      ensures ok ==> CompressedBlock(lit, dist, input, old(bitpos), old(Contents())) == Done(bitpos, Contents())
      ensures ok ==> CompressedFetch(lit, dist, input, old(bitpos), old(Contents()), old(Now())) == Some(Now())
      ensures !ok ==> Misses(CompressedBlock(lit, dist, input, old(bitpos), old(Contents())),
                             CompressedFetch(lit, dist, input, old(bitpos), old(Contents()), old(Now())), Capacity())
    {
      hide Reservoir, SymbolRun, SymbolStep, CompressedBlock, H.ZHuffman.Represents, H.ZHuffman.Shape, Misses,
        SymbolFetch, SymbolRunFetch, CompressedFetch, MaxGrown;
      ghost var n, p, out, f := 0, bitpos, Contents(), Now();
      SymbolRunStart(lit, dist, input, p, out);
      SymbolFetchStart(lit, dist, input, p, out, f);
      while true
        invariant Valid() && (buf == old(buf) || fresh(buf)) && Capacity() == old(Capacity())
        invariant SymbolRun(lit, dist, input, p, out, n) == More(bitpos, Contents())
        invariant SymbolRunFetch(lit, dist, input, p, out, f, n) == Some(Now())
        decreases UINT_MAX - zout
      {
        ghost var q, o, g := bitpos, Contents(), Now();
        SymbolRunNext(lit, dist, input, p, out, n, q, o);
        SymbolFetchNext(lit, dist, input, p, out, f, n, q, o, g);
        BlockGoesOn(lit, dist, input, p, out, f, n, q, o, g, Capacity());
        var last;
        ok, last := TakeSymbol(lit, dist);
        if !ok {
          return;
        }
        n := n + 1;
        if last {
          CompressedBlockIs(lit, dist, input, p, out, n);
          CompressedFetchIs(lit, dist, input, p, out, f, n);
          return;
        }
      }
    }

    /** Reads the code lengths of the code length code. */
    method ReadCodeLengths(hclen: nat) returns (sizes: seq<nat>)
      requires Reservoir() && hclen <= 19
      modifies this`zbuffer, this`numBits, this`codeBuffer, this`pad, this`bitpos
      ensures Reservoir() && bitpos == old(bitpos) + 3 * hclen
      ensures sizes == CodeLengths(input, old(bitpos), hclen)
      ensures Now() == LengthsOfLengthsFetch(old(bitpos), old(Now()), hclen)
    {
      hide Reservoir, Field, CodeLengths, CodeOrder, Received, LengthsOfLengthsFetch;
      var codelengthSizes := new nat[19](_ => 0);
      ghost var p, f := bitpos, Now();
      NoCodeLengths(input, p, f);
      for i := 0 to hclen
        invariant Reservoir() && bitpos == p + 3 * i
        invariant codelengthSizes[..] == CodeLengths(input, p, i)
        invariant Now() == LengthsOfLengthsFetch(p, f, i)
      {
        var s := ZReceive(3);
        CodeLengthsNext(input, p, i);
        LengthsOfLengthsNext(p, f, i);
        codelengthSizes[CodeOrder(i)] := s;
      }
      sizes := codelengthSizes[..];
    }

    /** A repeat item: how often to append which length. */
    method ReadRepeat(c: nat, lencodes: array<nat>, n: nat) returns (ok: bool, fill: nat, count: nat)
      requires Reservoir() && 16 <= c <= 18 && n <= lencodes.Length
      modifies this`zbuffer, this`numBits, this`codeBuffer, this`pad, this`bitpos
      ensures Reservoir() && count <= 138
      ensures LengthItem(input, c, old(bitpos), lencodes[..n]) == if ok then Some((bitpos, fill, count)) else None
      ensures ok ==> fill == 0 || (n > 0 && fill == lencodes[n - 1])
      ensures Now() == ItemFetch(c, old(bitpos), old(Now()))
    {
      hide Field;
      assert Pow2(2) == 4 && Pow2(3) == 8 && Pow2(7) == 128;
      fill := 0;
      if c == 16 {
        var k := ZReceive(2);
        count := k + 3;
        if n == 0 {
          return false, fill, count;
        }
        fill := lencodes[n - 1];
      } else if c == 17 {
        var k := ZReceive(3);
        count := k + 3;
      } else if c == 18 {
        var k := ZReceive(7);
        count := k + 11;
      }
      ok := true;
    }

    /** Appends a code length a number of times. */
    static method FillIn(lencodes: array<nat>, n: nat, fill: nat, count: nat)
      requires n + count <= lencodes.Length && Lengths(lencodes[..n]) && fill <= MAX_LEN
      modifies lencodes
      ensures lencodes[..n + count] == old(lencodes[..n]) + Filled(fill, count) && Lengths(lencodes[..n + count])
    {
      hide Filled;
      forall i | n <= i < n + count {
        lencodes[i] := fill;
      }
      AppendFilled(old(lencodes[..n]), fill, count, lencodes[..n + count]);
    }

    /** Does what a code length symbol says: appends it, or repeats a length. */
    method TakeItem(c: nat, lencodes: array<nat>, n: nat, total: nat) returns (ok: bool, m: nat)
      requires Reservoir() && c < 19 && n < total <= 320 && lencodes.Length == 455 && Lengths(lencodes[..n])
      modifies this`zbuffer, this`numBits, this`codeBuffer, this`pad, this`bitpos, lencodes
      ensures Reservoir()
      ensures var item := LengthItem(input, c, old(bitpos), old(lencodes[..n]));
        if ok then
          && item.Some? && item.value.0 == bitpos && n < m == n + item.value.2 <= total
          && lencodes[..m] == old(lencodes[..n]) + Filled(item.value.1, item.value.2) && Lengths(lencodes[..m])
        else m == n && (item.None? || n + item.value.2 > total)
      ensures ok ==> Now() == ItemFetch(c, old(bitpos), old(Now()))
    {
      hide Reservoir, Field, LengthItem, ItemFetch, Filled;
      LengthItemPlain(input, c, bitpos, lencodes[..n], Now());
      if c < 16 {
        FillIn(lencodes, n, c, 1);
        return true, n + 1;
      }
      var good, fill, count := ReadRepeat(c, lencodes, n);
      if !good {
        return false, n;
      }
      if total - n < count {
        return false, n;
      }
      FillIn(lencodes, n, fill, count);
      return true, n + count;
    }

    /** Reads the code lengths of both codes, run-length encoded. */
    method ReadAllLengths(z: H.ZHuffman, ghost clens: seq<nat>, total: nat) returns (ok: bool, lens: seq<nat>)
      requires Reservoir() && z.Represents(clens) && this !in z.Repr && |clens| == 19 && total <= 320
      modifies this`zbuffer, this`numBits, this`codeBuffer, this`pad, this`bitpos, this`hitZeofOnce
      ensures Reservoir()
      ensures ok ==> ReadLengths(clens, input, old(bitpos), [], total) == Some((bitpos, lens)) && Lengths(lens)
      ensures ok ==> ReadLengthsFetch(clens, input, old(bitpos), [], total, old(Now())) == Some(Now())
      ensures !ok ==> LengthsMiss(ReadLengths(clens, input, old(bitpos), [], total),
                                  ReadLengthsFetch(clens, input, old(bitpos), [], total, old(Now())))
    {
      hide Reservoir, Field, NextSymbol, ReadLengths, LengthItem, Filled, H.ZHuffman.Represents, H.ZHuffman.Shape,
        ReadLengthsFetch, Ready, ItemFetch;
      var lencodes := new nat[455];
      var n := 0;
      ghost var r := ReadLengths(clens, input, bitpos, [], total);
      ghost var rf := ReadLengthsFetch(clens, input, bitpos, [], total, Now());
      assert lencodes[..0] == [];
      while n < total
        invariant Reservoir() && n <= total && Lengths(lencodes[..n])
        invariant ReadLengths(clens, input, bitpos, lencodes[..n], total) == r
        invariant ReadLengthsFetch(clens, input, bitpos, lencodes[..n], total, Now()) == rf
      {
        ghost var p, got, f := bitpos, lencodes[..n], Now();
        ReadLengthsForward(clens, input, p, got, total);
        var c := Decode(z, clens);
        ReadLengthsFetchStep(clens, input, p, got, total, f);
        if c < 0 || c >= 19 {
          return false, [];
        }
        ReadLengthsStep(clens, input, p, got, total, c);
        ok, n := TakeItem(c, lencodes, n, total);
        if !ok {
          return false, [];
        }
      }
      ReadLengthsDone(clens, input, bitpos, lencodes[..n], total, Now());
      return true, lencodes[..n];
    }

    /** Reads how many code lengths there are of each kind. */
    method ReadCounts() returns (hlit: nat, hdist: nat, hclen: nat)
      requires Reservoir()
      modifies this`zbuffer, this`numBits, this`codeBuffer, this`pad, this`bitpos
      ensures Reservoir() && bitpos == old(bitpos) + 14
      ensures hlit == Field(input, old(bitpos), 5) + 257 && hlit <= H.SYMBOLS
      ensures hdist == Field(input, old(bitpos) + 5, 5) + 1 && hdist <= 32
      ensures hclen == Field(input, old(bitpos) + 10, 4) + 4 && hclen <= 19
      ensures Now() == Received(Received(Received(old(Now()), old(bitpos), 5), old(bitpos) + 5, 5), old(bitpos) + 10, 4)
    {
      hide Reservoir, Field, Received;
      assert Pow2(4) == 16 && Pow2(5) == 32;
      hlit := ZReceive(5);
      hlit := hlit + 257;
      hdist := ZReceive(5);
      hdist := hdist + 1;
      hclen := ZReceive(4);
      hclen := hclen + 4;
    }

    /** Reads the code lengths of a dynamic block. */
    method ReadDynamic() returns (ok: bool, lit: seq<nat>, dist: seq<nat>)
      requires Reservoir()
      modifies this`zbuffer, this`numBits, this`codeBuffer, this`pad, this`bitpos, this`hitZeofOnce
      ensures Reservoir()
      ensures ok ==> |lit| <= H.SYMBOLS && |dist| <= H.SYMBOLS && Lengths(lit) && Lengths(dist)
      ensures ok ==> DynamicCodes(input, old(bitpos))
                     == if Fits(lit) && Fits(dist) then Some(Codes(bitpos, lit, dist)) else None
      ensures ok ==> DynamicFetch(input, old(bitpos), old(Now())) == Some(Now())
      ensures !ok ==> CodesMiss(DynamicCodes(input, old(bitpos)), DynamicFetch(input, old(bitpos), old(Now())))
    {
      hide Reservoir, Field, ReadLengths, CodeLengths, Fits, DynamicCodes, H.ZHuffman.Represents, H.ZHuffman.Shape,
        DynamicFetch, ReadLengthsFetch, LengthsOfLengthsFetch, Received;
      ghost var p, f := bitpos, Now();
      lit, dist := [], [];
      var hlit, hdist, hclen := ReadCounts();
      var clens := ReadCodeLengths(hclen);
      DynamicCodesIs(input, p, hlit, hdist, hclen, clens);
      DynamicFetchIs(input, p, f, hlit + hdist, hclen, Now());
      var zCodelength := new H.ZHuffman();
      ok := zCodelength.Build(clens);
      if !ok {
        return;
      }
      ReadLengthsForward(clens, input, bitpos, [], hlit + hdist);
      var lens;
      ok, lens := ReadAllLengths(zCodelength, clens, hlit + hdist);
      if ok {
        lit, dist := lens[..hlit], lens[hlit..];
      }
    }

    /** Reads the two codes of a dynamic block and builds their tables. */
    method ComputeHuffmanCodes() returns (ok: bool, ghost lit: seq<nat>, ghost dist: seq<nat>)
      requires Valid()
      modifies this`zbuffer, this`numBits, this`codeBuffer, this`pad, this`bitpos, this`hitZeofOnce
      modifies zLength.Repr, zDistance.Repr
      ensures Valid()
      ensures ok ==> DynamicCodes(input, old(bitpos)) == Some(Codes(bitpos, lit, dist))
      ensures ok ==> zLength.Represents(lit) && zDistance.Represents(dist)
      ensures ok ==> DynamicFetch(input, old(bitpos), old(Now())) == Some(Now())
      ensures !ok ==> CodesMiss(DynamicCodes(input, old(bitpos)), DynamicFetch(input, old(bitpos), old(Now())))
    {
      hide Field, Fits, DynamicCodes, DynamicFetch, H.ZHuffman.Represents, H.ZHuffman.Shape;
      var lengths, distances;
      ok, lengths, distances := ReadDynamic();
      lit, dist := lengths, distances;
      if ok {
        ok := BuildBoth(lengths, distances);
      }
    }

    method BuildBoth(lit: seq<nat>, dist: seq<nat>) returns (ok: bool)
      requires Valid() && |lit| <= H.SYMBOLS && |dist| <= H.SYMBOLS && Lengths(lit) && Lengths(dist)
      modifies zLength.Repr, zDistance.Repr
      ensures Valid() && (ok <==> Fits(lit) && Fits(dist))
      ensures ok ==> zLength.Represents(lit) && zDistance.Represents(dist)
    {
      hide Field, Fits, H.ZHuffman.Represents, H.ZHuffman.Shape;
      ok := zLength.Build(lit);
      if ok {
        ok := zDistance.Build(dist);
      }
    }

    /** Drops bits up to the next byte boundary, which is at byte q. */
    method AlignToByte(ghost q: nat)
      requires Reservoir() && q == (bitpos + 7) / 8
      modifies this`zbuffer, this`numBits, this`codeBuffer, this`pad, this`bitpos
      ensures Reservoir() && numBits % 8 == 0 && bitpos == 8 * q
    {
      hide Field, Received;
      Align(bitpos, numBits, zbuffer + pad + if hitZeofOnce then 2 else 0);
      if numBits % 8 != 0 {
        var _ := ZReceive(numBits % 8);
      }
    }

    /** Drains the whole bytes of the reservoir into the header, which has room for all of
        them. */
    method DrainHeader(header: array<byte>, ghost q: nat) returns (k: nat)
      requires Reservoir() && numBits % 8 == 0 && bitpos == 8 * q && header.Length == 4
      modifies this`numBits, this`codeBuffer, this`bitpos, header
      ensures Reservoir() && numBits == 0 && bitpos == 8 * (q + k)
      ensures k <= 4 && forall i | 0 <= i < k :: header[i] == ByteAt(input, q + i)
    {
      hide Field, ByteAt;
      k := 0;
      ghost var held := numBits / 8;
      assert Pow2(8) == 256;
      while numBits > 0
        invariant Reservoir() && k <= held <= 4
        invariant numBits == 8 * (held - k) && bitpos == 8 * (q + k)
        invariant forall i | 0 <= i < k :: header[i] == ByteAt(input, q + i)
      {
        FieldCut(input, bitpos, 8, numBits - 8);
        assert 8 + (numBits - 8) == numBits;
        FieldByte(input, q + k);
        header[k] := LowBits(codeBuffer, 8);
        Drop(8);
        k := k + 1;
      }
      if numBits < 0 {
        assert false;
      }
    }

    /** The header is what the reservoir holds and then bytes of the input. */
    method ReadHeader(header: array<byte>, ghost q: nat)
      requires Reservoir() && numBits % 8 == 0 && bitpos == 8 * q && header.Length == 4
      modifies this`zbuffer, this`numBits, this`codeBuffer, this`pad, this`bitpos, header
      ensures Reservoir() && numBits == 0 && bitpos == 8 * (q + 4)
      ensures forall i | 0 <= i < 4 :: header[i] == ByteAt(input, q + i)
    {
      hide Field;
      var k := DrainHeader(header, q);
      while k < 4
        invariant Reservoir() && numBits == 0 && k <= 4 && bitpos == 8 * (q + k)
        invariant forall i | 0 <= i < k :: header[i] == ByteAt(input, q + i)
      {
        var b := ZGet8();
        header[k] := b;
        k := k + 1;
        bitpos := bitpos + 8;
        FieldNone(input, bitpos);
      }
    }

    /** Copies len bytes of input to the output. */
    method PutBytes(len: nat)
      requires Valid() && numBits == 0 && zbuffer + len <= |input| && zout + len <= buf.Length
      modifies this`zbuffer, this`bitpos, this`zout, buf
      ensures Valid() && bitpos == old(bitpos) + 8 * len && zbuffer == old(zbuffer) + len
      ensures Contents() == old(Contents()) + input[old(zbuffer)..old(zbuffer) + len]
    {
      hide Field;
      forall i | 0 <= i < len {
        buf[zout + i] := input[zbuffer + i];
      }
      zbuffer := zbuffer + len;
      zout := zout + len;
      FieldNone(input, bitpos);
      bitpos := bitpos + 8 * len;
      FieldNone(input, bitpos);
    }

    /** Reads and checks the header of a stored block. */
    method StoredHeader() returns (ok: bool, len: nat)
      requires Reservoir()
      modifies this`zbuffer, this`numBits, this`codeBuffer, this`pad, this`bitpos
      ensures Reservoir()
      ensures ok ==> numBits == 0 && zbuffer + len <= |input| && bitpos == 8 * zbuffer && Now() == Fetch(zbuffer, false)
      ensures forall out: seq<byte> :: (StoredBlock(input, old(bitpos), out) ==
          (if ok then Done(bitpos + 8 * len, out + input[zbuffer..zbuffer + len]) else Bad))
    {
      hide Field, ByteAt, StoredBlock;
      ghost var q := (bitpos + 7) / 8;
      AlignToByte(q);
      var header := new byte[4];
      ReadHeader(header, q);
      len := Word(header[0], header[1]);
      var nlen := Word(header[2], header[3]);
      PaddedHeader(input, q, zbuffer, pad, hitZeofOnce);
      StoredBlockIs(input, old(bitpos), q, len, nlen);
      ok := nlen == 0xFFFF - len && zbuffer + len <= |input|;
    }

    /** Copies a stored block. */
    method ParseUncompressedBlock() returns (ok: bool)
      requires Valid()
      modifies this, buf
      ensures Valid() && (buf == old(buf) || fresh(buf)) && Capacity() == old(Capacity())
      ensures ok ==> StoredBlock(input, old(bitpos), old(Contents())) == Done(bitpos, Contents())
      ensures ok ==> Now() == Fetch(bitpos / 8, false)
      ensures !ok ==> Misses(StoredBlock(input, old(bitpos), old(Contents())), Some(old(Now())), Capacity())
    {
      hide Field, StoredBlock, H.ZHuffman.Shape;
      var len;
      ok, len := StoredHeader();
      if !ok {
        return;
      }
      if zout + len > buf.Length {
        ok := Expand(len);
        if !ok {
          return;
        }
      }
      PutBytes(len);
      ok := true;
    }

    // -------------------------------------------------------------------------------------
    // The stream

    method ParseZlibHeader() returns (ok: bool)
      requires Valid() && zbuffer == 0 && pad == 0
      modifies this`zbuffer, this`pad
      ensures zbuffer <= |input| && (pad > 0 ==> zbuffer == |input|)
      ensures ok <==> ZlibHeader(input)
      ensures ok ==> zbuffer == 2 && pad == 0
    {
      var cmf := ZGet8();
      var cm := cmf % 16;
      var flg := ZGet8();
      if zbuffer >= |input| {
        return false;
      }
      if (cmf as nat * 256 + flg) % 31 != 0 {
        return false;
      }
      if flg / 32 % 2 == 1 {
        return false;
      }
      if cm != 8 {
        return false;
      }
      return true;
    }

    /** One block. */
    method ParseBlock() returns (ok: bool, final: bool)
      requires Valid()
      modifies this, buf, zLength.Repr, zDistance.Repr
      ensures Valid() && (buf == old(buf) || fresh(buf)) && Capacity() == old(Capacity())
      ensures ok ==> BlockStep(input, old(bitpos), old(Contents()))
                     == if final then Done(bitpos, Contents()) else More(bitpos, Contents())
      ensures ok ==> BlockFetch(input, old(bitpos), old(Contents()), old(Now())) == Some(Now())
      ensures !ok ==> Misses(BlockStep(input, old(bitpos), old(Contents())),
                             BlockFetch(input, old(bitpos), old(Contents()), old(Now())), Capacity())
      ensures ok ==> bitpos > old(bitpos) && old(bitpos) < 8 * |input|
    {
      hide Field, Bit, BlockStep, CompressedBlock, StoredBlock, DynamicCodes, FixedLengths, FixedDistances,
        BlockFetch, CompressedFetch, DynamicFetch, Received, H.ZHuffman.Represents, H.ZHuffman.Shape;
      ghost var p, out, g := bitpos, Contents(), Now();
      if p >= 8 * |input| {
        NoBlockPastEnd(input, p, out);
      }
      FieldOne(input, p);
      assert Pow2(2) == 4;
      var f := ZReceive(1);
      final := f == 1;
      var kind := ZReceive(2);
      BlockStepIs(input, p, out, final, kind);
      BlockFetchIs(input, p, out, g, kind, Now());
      BlockStepForward(input, p, out);
      if kind == 0 {
        ok := ParseUncompressedBlock();
      } else if kind == 3 {
        ok := false;
      } else {
        ghost var lit, dist := FixedLengths(), FixedDistances();
        if kind == 1 {
          FixedFits();
          ok := BuildBoth(FixedLengths(), FixedDistances());
        } else {
          CodesThenBlock(input, p + 3, out);
          ok, lit, dist := ComputeHuffmanCodes();
        }
        if !ok {
          return;
        }
        ok := ParseHuffmanBlock(lit, dist);
      }
    }

    /** Decodes the stream.  It succeeds just when the header is right and the blocks are ones it
        takes within the room for output. */
    method ParseZlib(parseHeader: bool) returns (ok: bool)
      requires Valid() && zbuffer == 0 && pad == 0 && zout == 0
      modifies this, buf, zLength.Repr, zDistance.Repr
      ensures buf.Length <= UINT_MAX && Capacity() == old(Capacity())
      ensures ok ==> Valid() && (parseHeader ==> ZlibHeader(input))
      ensures ok ==> Inflates(input, StreamStart(parseHeader), Contents(), bitpos)
      ensures ok ==> Taken(input, StreamStart(parseHeader), Contents())
      ensures !ok ==>
        (parseHeader && !ZlibHeader(input)) || NothingTaken(input, StreamStart(parseHeader), Capacity())
    {
      hide Field, BlockStep, BlockRun, BlockFetch, RunFetch, Taken, Inflates, H.ZHuffman.Represents, H.ZHuffman.Shape;
      if parseHeader {
        ok := ParseZlibHeader();
        if !ok {
          return;
        }
      }
      numBits := 0;
      codeBuffer := 0;
      hitZeofOnce := false;
      bitpos := StreamStart(parseHeader);
      FieldNone(input, bitpos);
      ghost var n, p := 0, bitpos;
      BlockRunStart(input, p);
      while true
        invariant Valid() && (buf == old(buf) || fresh(buf)) && Capacity() == old(Capacity())
        invariant BlockRun(input, p, n) == More(bitpos, Contents()) && RunFetch(input, p, n) == Some(Now())
        decreases 8 * |input| - bitpos
      {
        BlockRunNext(input, p, n, bitpos, Contents());
        RunFetchNext(input, p, n, bitpos, Contents(), Now());
        StreamGoesOn(input, p, n, bitpos, Contents(), Now(), Capacity());
        var good, final := ParseBlock();
        if !good {
          return false;
        }
        n := n + 1;
        if final {
          StreamEnds(input, p, n, bitpos, Contents());
          return true;
        }
      }
    }
  }

  lemma NoCodeLengths(input: seq<byte>, p: nat, f: Fetch)
    ensures |CodeLengths(input, p, 0)| == 19 && forall i | 0 <= i < 19 :: CodeLengths(input, p, 0)[i] == 0
    ensures LengthsOfLengthsFetch(p, f, 0) == f
  {
  }

  lemma LengthsOfLengthsNext(p: nat, f: Fetch, k: nat)
    ensures LengthsOfLengthsFetch(p, f, k + 1) == Received(LengthsOfLengthsFetch(p, f, k), p + 3 * k, 3)
  {
    hide Received;
  }

  predicate LengthsMiss(r: Option<(nat, seq<nat>)>, f: Option<Fetch>) {
    r.None? || f.None?
  }

  lemma LengthItemPlain(input: seq<byte>, c: nat, q: nat, got: seq<nat>, f: Fetch)
    ensures c < 16 ==> LengthItem(input, c, q, got) == Some((q, c, 1)) && ItemFetch(c, q, f) == f
  {
  }

  lemma AppendFilled(got: seq<nat>, v: nat, n: nat, all: seq<nat>)
    requires Lengths(got) && v <= MAX_LEN
    requires |all| == |got| + n && all[..|got|] == got
    requires forall i | |got| <= i < |all| :: all[i] == v
    ensures all == got + Filled(v, n) && Lengths(all)
  {
    forall i | 0 <= i < n
      ensures Filled(v, n)[i] == v
    {
      FilledAt(v, n, i);
    }
  }

  lemma ReadLengthsDone(clens: seq<nat>, input: seq<byte>, p: nat, got: seq<nat>, total: nat, f: Fetch)
    requires |got| == total
    ensures ReadLengths(clens, input, p, got, total) == Some((p, got))
    ensures ReadLengthsFetch(clens, input, p, got, total, f) == Some(f)
  {
  }

  predicate CodesMiss(c: Option<Codes>, f: Option<Fetch>) {
    c.None? || f.None?
  }

  lemma DynamicCodesIs(input: seq<byte>, p: nat, hlit: nat, hdist: nat, hclen: nat, clens: seq<nat>)
    requires hlit == Field(input, p, 5) + 257 && hdist == Field(input, p + 5, 5) + 1
    requires hclen == Field(input, p + 10, 4) + 4 && hclen <= 19
    requires clens == CodeLengths(input, p + 14, hclen)
    ensures var r := ReadLengths(clens, input, p + 14 + 3 * hclen, [], hlit + hdist);
      DynamicCodes(input, p) ==
        if !Fits(clens) || r.None? then None
        else
          var lens := r.value.1;
          if |lens| == hlit + hdist && Fits(lens[..hlit]) && Fits(lens[hlit..])
          then Some(Codes(r.value.0, lens[..hlit], lens[hlit..]))
          else None
  {
    hide Field, ReadLengths, CodeLengths, Fits;
  }

  /** A stored header that reaches past the end of the input is refused: its last byte is
      then a zero past the end, so the length is too large for what is left, which is none. */
  lemma PaddedHeader(input: seq<byte>, q: nat, zbuffer: nat, pad: nat, hit: bool)
    requires q + 4 == zbuffer + pad + (if hit then 2 else 0) && zbuffer <= |input|
    requires pad > 0 || hit ==> zbuffer == |input|
    ensures var len := Word(ByteAt(input, q), ByteAt(input, q + 1));
      var nlen := Word(ByteAt(input, q + 2), ByteAt(input, q + 3));
      nlen == 0xFFFF - len ==>
        if zbuffer + len <= |input| then q + 4 == zbuffer else q + 4 + len > |input|
  {
  }

  lemma StoredBlockIs(input: seq<byte>, p: nat, q: nat, len: nat, nlen: nat)
    requires q == (p + 7) / 8
    requires len == Word(ByteAt(input, q), ByteAt(input, q + 1))
    requires nlen == Word(ByteAt(input, q + 2), ByteAt(input, q + 3))
    ensures forall out: seq<byte> :: (StoredBlock(input, p, out) ==
      (if nlen != 0xFFFF - len || q + 4 + len > |input| then Bad
       else Done(8 * (q + 4 + len), out + input[q + 4..q + 4 + len])))
  {
  }

  function Word(lo: byte, hi: byte): nat {
    hi * 256 + lo
  }

  lemma Align(p: nat, n: nat, t: nat)
    requires p + n == 8 * t
    ensures p + n % 8 == 8 * ((p + 7) / 8) && (n - n % 8) % 8 == 0
  {
  }

  /** The decoder takes out from the data, and there is room for it. */
  ghost predicate Accepted(data: seq<byte>, header: bool, room: nat, out: seq<byte>) {
    (header ==> ZlibHeader(data)) && Taken(data, StreamStart(header), out) && |out| <= room
  }

  /** Decodes a zlib or raw stream into a new buffer. */
  method ZlibDecode(data: seq<byte>, initialSize: nat, expandable: bool, parseHeader: bool)
    returns (r: Option<seq<byte>>)
    requires initialSize <= UINT_MAX && (expandable ==> initialSize > 0)
    ensures forall out: seq<byte> ::
      r == Some(out) <==> Accepted(data, parseHeader, Room(expandable, initialSize), out)
  {
    hide Inflates, Taken, ZlibHeader, MaxGrown;
    var a := new Inflater(data, initialSize, expandable);
    var ok := a.ParseZlib(parseHeader);
    r := None;
    if ok {
      r := Some(a.buf[..a.zout]);
      TakenOnce(data, StreamStart(parseHeader), r.value);
    }
  }

  /** Whatever is taken is what the format says the zero-extended data hold. */
  lemma AcceptedInflates(data: seq<byte>, header: bool, room: nat, out: seq<byte>)
    requires Accepted(data, header, room, out)
    ensures exists e: nat :: Inflates(data, StreamStart(header), out, e)
  {
    hide BlockRun, RunFetch, Inflates;
    var n: nat, e: nat :| TakenAs(data, StreamStart(header), out, n, e);
    EndsAs(data, StreamStart(header), n, e, out);
  }

  /** Whatever is encoded within the data is taken, if there is room for it. */
  lemma WithinIsAccepted(data: seq<byte>, header: bool, room: nat, out: seq<byte>, e: nat)
    requires header ==> ZlibHeader(data)
    requires Inflates(data, StreamStart(header), out, e) && e <= 8 * |data| && |out| <= room
    ensures Accepted(data, header, room, out)
  {
    hide Inflates, Taken;
    WithinIsTaken(data, StreamStart(header), out, e);
  }

  lemma PadField(input: seq<byte>, p: nat, n: nat, m: nat)
    requires 8 * |input| <= p + n
    ensures Field(input, p, n + m) == Field(input, p, n)
  {
    FieldSplit(input, p, n, m);
    FieldPastEnd(input, p + n, m);
    ShiftLeftZero(n);
  }

  /** The top of the reservoir, reversed, is the window the code tables are made for. */
  lemma Window(input: seq<byte>, p: nat, n: nat)
    requires n >= 16
    ensures Reverse(Field(input, p, n), 16) == MsbField(input, p, 16)
  {
    hide Field, MsbField, Reverse, LowBits;
    FieldCut(input, p, 16, n - 16);
    assert 16 + (n - 16) == n;
    ReverseField(input, p, 16);
    ReverseLow(Field(input, p, n), 16, 16);
  }

  lemma FastSlot(z: H.ZHuffman, lens: seq<nat>, w: nat)
    requires z.Represents(lens)
    ensures LowBits(w, H.FAST_BITS) < z.fast.Length
    ensures z.fast[LowBits(w, H.FAST_BITS)] == H.FastEntry(lens, |lens|, LowBits(w, H.FAST_BITS))
  {
    assert Pow2(9) == H.FAST_SIZE;
    var j := LowBits(w, H.FAST_BITS);
    assert z.fast[..][j] == H.FastSeq(lens, |lens|)[j];
  }

  /** What the tables say of one length. */
  lemma SlowLevel(z: H.ZHuffman, lens: seq<nat>, s: nat)
    requires z.Represents(lens) && 1 <= s <= 16
    ensures Lengths(lens) && z.maxcode.Length == 17 && z.firstcode.Length == z.firstsymbol.Length == 16
    ensures z.maxcode[s] == if s == 16 then 0x10000 else Limit(lens, s)
    ensures s < 16 ==> z.firstcode[s] == First(lens, s) && z.firstsymbol[s] == Shorter(lens, s)
  {
    hide Limit, First, Shorter, Fits;
  }

  /** What the tables say of one symbol. */
  lemma SlowSlot(z: H.ZHuffman, lens: seq<nat>, i: nat)
    requires z.Represents(lens) && i < |lens| && lens[i] > 0
    ensures z.size.Length == z.value.Length == H.SYMBOLS && Slot(lens, i) < H.SYMBOLS
    ensures z.size[Slot(lens, i)] == lens[i] && z.value[Slot(lens, i)] == i
  {
    hide Slot, Fits;
  }

  lemma SymbolFound(lens: seq<nat>, input: seq<byte>, p: nat, i: nat)
    requires Lengths(lens) && i < |lens| && Matches(lens, i, MsbField(input, p, 16))
    ensures NextSymbol(lens, input, p) == Some(i) && lens[i] > 0
  {
    CodeIsMatch(lens, input, p, i);
    NextSymbolIs(lens, input, p, i);
  }

  lemma NoSymbol(lens: seq<nat>, input: seq<byte>, p: nat, k: nat)
    requires Lengths(lens) && k == MsbField(input, p, 16)
    requires forall i | 0 <= i < |lens| && Matches(lens, i, k) :: lens[i] >= 16
    ensures NextSymbol(lens, input, p).None?
  {
    hide MsbField, Code;
    forall i | 0 <= i < |lens|
      ensures !CodeAt(lens, input, p, i)
    {
      CodeIsMatch(lens, input, p, i);
    }
  }
}
