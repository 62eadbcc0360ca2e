/** The other direction: whatever bits are decoded are bits that an encoder writes for the text.  So the
    streams that are decoded are those that are encoded, and no others. */
module DeflateAccepted {
  import opened BitLists
  import opened BitStream
  import opened Canonical
  import opened Common
  import opened Deflate
  import opened DeflateEncode
  import opened DeflateTables
  import opened Inflate
  import opened MsbBits
  import opened Refill

  // ---------------------------------------------------------------------------------------
  // Symbols and tokens

  lemma SymbolFound(lens: seq<nat>, input: seq<byte>, p: nat, i: nat)
    requires NextSymbol(lens, input, p) == Some(i)
    ensures Coded(lens, i) && Carries(input, p, SymbolBits(lens, i)) && |SymbolBits(lens, i)| == lens[i]
  {
    hide MsbField, Code, Carries;
    assert CodeAt(lens, input, p, i);
    MsbFieldCarries(input, p, lens[i]);
  }

  lemma MatchParts(dist: seq<nat>, input: seq<byte>, l: nat, q: nat)
    returns (d: nat, v: nat, w: nat)
    requires l < 29 && NextMatch(dist, input, l, q).Some?
    ensures var r := q + LengthExtra(l);
      && NextSymbol(dist, input, r) == Some(d) && d < |dist| && d < 30
      && v == Field(input, q, LengthExtra(l)) && w == Field(input, r + dist[d], DistExtra(d))
      && NextMatch(dist, input, l, q).value == Match(r + dist[d] + DistExtra(d), LengthBase(l) + v, DistBase(d) + w)
  {
    hide NextMatch, NextSymbol, Field, LengthBase, LengthExtra, DistBase, DistExtra;
    var r := q + LengthExtra(l);
    NextMatchLate(dist, input, l, q, r);
    d := NextSymbol(dist, input, r).value;
    NextMatchIs(dist, input, l, q, d, r, r + dist[d]);
    v := Field(input, q, LengthExtra(l));
    w := Field(input, r + dist[d], DistExtra(d));
  }

  lemma CopyFound(lit: seq<nat>, dist: seq<nat>, input: seq<byte>, p: nat, out: seq<byte>, z: nat, q: nat, o: seq<byte>)
    returns (t: Token)
    requires NextSymbol(lit, input, p) == Some(z) && 257 <= z < 286 && z < |lit|
    requires MatchStep(dist, input, z - 257, p + lit[z], out) == More(q, o)
    ensures t.Ok(|out|) && TokenCoded(lit, dist, t) && o == Append(out, t)
    ensures Carries(input, p, TokenBits(lit, dist, t)) && q == p + |TokenBits(lit, dist, t)|
  {
    hide NextMatch, NextSymbol, Field, LengthBase, LengthExtra, DistBase, DistExtra, SymbolBits, Carries, LengthName,
      DistName, Repeated, Pow2, LowFirst;
    var l := z - 257;
    var d, v, w := MatchParts(dist, input, l, p + lit[z]);
    NameOfLength(l, v);
    NameOfDistance(d, w);
    var n, back, spare := LengthBase(l) + v, DistBase(d) + w, l == 27 && v == 31;
    t := Copy(n, back, spare);
    SymbolFound(lit, input, p, z);
    var r := p + lit[z] + LengthExtra(l);
    SymbolFound(dist, input, r, d);
    FieldCarries(input, p + lit[z], LengthExtra(l));
    FieldCarries(input, r + dist[d], DistExtra(d));
    CarriesBoth(input, p, SymbolBits(lit, z), LowFirst(v, LengthExtra(l)));
    CarriesBoth(input, r, SymbolBits(dist, d), LowFirst(w, DistExtra(d)));
    CarriesBoth(input, p, LengthBits(lit, n, spare), DistBits(dist, back));
  }

  /** Every step but the last of a block reads a token. */
  lemma TokenFound(lit: seq<nat>, dist: seq<nat>, input: seq<byte>, p: nat, out: seq<byte>, q: nat, o: seq<byte>)
    returns (t: Token)
    requires SymbolStep(lit, dist, input, p, out) == More(q, o)
    ensures t.Ok(|out|) && TokenCoded(lit, dist, t) && o == Append(out, t)
    ensures Carries(input, p, TokenBits(lit, dist, t)) && q == p + |TokenBits(lit, dist, t)|
  {
    hide NextSymbol, MatchStep, SymbolBits, LengthBits, DistBits, Carries, NameOf, DistName, Repeated;
    var z := NextSymbol(lit, input, p).value;
    if z < 256 {
      t := Literal(z);
      SymbolFound(lit, input, p, z);
    } else {
      t := CopyFound(lit, dist, input, p, out, z, q, o);
    }
  }

  lemma {:induction false} TokensFound(lit: seq<nat>, dist: seq<nat>, input: seq<byte>, p: nat, out: seq<byte>, n: nat,
    q: nat, o: seq<byte>) returns (tokens: seq<Token>)
    requires SymbolRun(lit, dist, input, p, out, n) == More(q, o)
    ensures TokensOk(|out|, tokens) && TokensCoded(lit, dist, tokens) && o == Text(out, tokens)
    ensures Carries(input, p, TokensBits(lit, dist, tokens)) && q == p + |TokensBits(lit, dist, tokens)|
  {
    hide SymbolStep, TokenCoded, TokenBits, Append, Carries;
    if n == 0 {
      tokens := [];
      CarriesNothing(input, p);
    } else {
      var s := SymbolRun(lit, dist, input, p, out, n - 1);
      var before := TokensFound(lit, dist, input, p, out, n - 1, s.pos, s.out);
      var t := TokenFound(lit, dist, input, s.pos, s.out, q, o);
      tokens := before + [t];
      assert tokens[..|tokens| - 1] == before;
      CarriesBoth(input, p, TokensBits(lit, dist, before), TokenBits(lit, dist, t));
    }
  }

  /** A compressed block that is decoded is one for some tokens. */
  lemma BodyFound(lit: seq<nat>, dist: seq<nat>, input: seq<byte>, p: nat, out: seq<byte>, q: nat, o: seq<byte>)
    returns (tokens: seq<Token>)
    requires CompressedBlock(lit, dist, input, p, out) == Done(q, o)
    ensures TokensOk(|out|, tokens) && TokensCoded(lit, dist, tokens) && Coded(lit, 256) && o == Text(out, tokens)
    ensures Carries(input, p, BodyBits(lit, dist, tokens)) && q == p + |BodyBits(lit, dist, tokens)|
  {
    hide NextSymbol, TokensOk, TokensCoded, TokensBits, Text, Carries, SymbolBits, SymbolRun, SymbolStep;
    var n: nat :| SymbolRun(lit, dist, input, p, out, n).Done?
      && CompressedBlock(lit, dist, input, p, out) == SymbolRun(lit, dist, input, p, out, n);
    var s := LastStep(lit, dist, input, p, out, n);
    tokens := TokensFound(lit, dist, input, p, out, n - 1, s.pos, s.out);
    EndFound(lit, dist, input, s.pos, s.out);
    CarriesBoth(input, p, TokensBits(lit, dist, tokens), SymbolBits(lit, 256));
  }

  lemma LastStep(lit: seq<nat>, dist: seq<nat>, input: seq<byte>, p: nat, out: seq<byte>, n: nat) returns (s: Step)
    requires SymbolRun(lit, dist, input, p, out, n).Done?
    ensures n > 0 && s.More? && s == SymbolRun(lit, dist, input, p, out, n - 1)
    ensures SymbolRun(lit, dist, input, p, out, n) == SymbolStep(lit, dist, input, s.pos, s.out)
  {
    hide SymbolStep;
    s := SymbolRun(lit, dist, input, p, out, n - 1);
  }

  lemma EndFound(lit: seq<nat>, dist: seq<nat>, input: seq<byte>, p: nat, out: seq<byte>)
    requires SymbolStep(lit, dist, input, p, out).Done?
    ensures Coded(lit, 256) && Carries(input, p, SymbolBits(lit, 256))
    ensures SymbolStep(lit, dist, input, p, out) == Done(p + |SymbolBits(lit, 256)|, out)
  {
    hide NextSymbol, MatchStep, SymbolBits, Carries;
    MatchEnds(lit, dist, input, p, out);
    SymbolFound(lit, input, p, 256);
  }

  lemma MatchEnds(lit: seq<nat>, dist: seq<nat>, input: seq<byte>, p: nat, out: seq<byte>)
    requires SymbolStep(lit, dist, input, p, out).Done?
    ensures NextSymbol(lit, input, p) == Some(256)
  {
    hide NextMatch, Repeated, LengthBase, LengthExtra;
  }

  // ---------------------------------------------------------------------------------------
  // The head of a dynamic block

  predicate Short(lens: seq<nat>) {
    forall i | 0 <= i < |lens| :: lens[i] <= 15
  }

  lemma ExtraFound(input: seq<byte>, q: nat, c: nat) returns (item: Item)
    requires c < 19
    ensures item.Symbol() == c && item.Ok(false) && (item.Ok(true) <==> c != 16) && Carries(input, q, item.Extra())
    ensures c < 16 ==> item == Plain(c)
    ensures c == 16 ==> item == Again(3 + Field(input, q, 2))
    ensures c == 17 ==> item == Zeros(3 + Field(input, q, 3))
    ensures c == 18 ==> item == ManyZeros(11 + Field(input, q, 7))
    ensures |item.Extra()| == if c < 16 then 0 else if c == 16 then 2 else if c == 17 then 3 else 7
  {
    hide Carries, Field, LowFirst, Pow2;
    SmallPowers();
    LargePowers();
    if c < 16 {
      item := Plain(c);
      CarriesNothing(input, q);
    } else if c == 16 {
      item := Again(3 + Field(input, q, 2));
      FieldCarries(input, q, 2);
    } else if c == 17 {
      item := Zeros(3 + Field(input, q, 3));
      FieldCarries(input, q, 3);
    } else {
      item := ManyZeros(11 + Field(input, q, 7));
      FieldCarries(input, q, 7);
    }
  }

  lemma ItemFound(clens: seq<nat>, input: seq<byte>, p: nat, got: seq<nat>, c: nat) returns (item: Item)
    requires |clens| == 19 && NextSymbol(clens, input, p) == Some(c) && LengthItem(input, c, p + clens[c], got).Some?
    ensures item.Ok(got == []) && item.Ok(false) && Coded(clens, item.Symbol()) && Carries(input, p, ItemBits(clens, item))
    ensures var i := LengthItem(input, c, p + clens[c], got).value;
      && i.0 == p + |ItemBits(clens, item)| && AppendItem(got, item) == got + Filled(i.1, i.2)
    ensures Short(got) ==> Short(AppendItem(got, item))
  {
    hide Carries, NextSymbol, SymbolBits, Field, Filled, Item.Extra;
    SymbolFound(clens, input, p, c);
    var q := p + clens[c];
    item := ExtraFound(input, q, c);
    CarriesBoth(input, p, SymbolBits(clens, c), item.Extra());
    OneFilled(c);
    var i := LengthItem(input, c, q, got).value;
    ShortFilled(i.1, i.2);
  }

  lemma ShortFilled(v: nat, n: nat)
    ensures v <= 15 ==> Short(Filled(v, n))
  {
    hide Filled;
    forall i | 0 <= i < n
      ensures Filled(v, n)[i] == v
    {
      FilledAt(v, n, i);
    }
  }

  /** Code lengths that are read are those that some items stand for. */
  lemma {:induction false} ItemsFound(clens: seq<nat>, input: seq<byte>, p: nat, got: seq<nat>, total: nat)
    returns (items: seq<Item>)
    requires |clens| == 19 && |got| <= total && ReadLengths(clens, input, p, got, total).Some? && Short(got)
    ensures ItemsOk(clens, got == [], items) && Carries(input, p, ItemsBits(clens, got == [], items))
    ensures ReadLengths(clens, input, p, got, total).value
      == (p + |ItemsBits(clens, got == [], items)|, ListOf(clens, got, items))
    ensures Short(ListOf(clens, got, items))
    decreases total - |got|
  {
    hide Carries, NextSymbol, ItemBits, LengthItem, AppendItem, Filled, ReadLengths, Short;
    ReadLengthsForward(clens, input, p, got, total);
    if |got| == total {
      ReadLengthsDone(clens, input, p, got, total, Fetch(0, false));
      items := [];
      CarriesNothing(input, p);
    } else {
      var c := NextSymbol(clens, input, p).value;
      ReadLengthsStep(clens, input, p, got, total, c);
      var item := ItemFound(clens, input, p, got, c);
      var next := AppendItem(got, item);
      var rest := ItemsFound(clens, input, p + |ItemBits(clens, item)|, next, total);
      items := [item] + rest;
      assert items[1..] == rest && items[0] == item;
      CarriesBoth(input, p, ItemBits(clens, item), ItemsBits(clens, false, rest));
    }
  }

  lemma {:induction false} CodeLengthsFound(input: seq<byte>, p: nat, k: nat)
    requires k <= 19
    ensures forall i | 0 <= i < k :: CodeLengths(input, p, k)[Order(i)] == Field(input, p + 3 * i, 3)
    ensures forall i | k <= i < 19 :: CodeLengths(input, p, k)[Order(i)] == 0
  {
    hide Field, Order, CodeLengths;
    if k == 0 {
      NoCodeLengths(input, p, Fetch(0, false));
    } else {
      CodeLengthsFound(input, p, k - 1);
      CodeLengthsNext(input, p, k - 1);
      OrderLaw(k - 1);
      forall i | 0 <= i < 19 && i != k - 1
        ensures Order(i) != Order(k - 1)
      {
        if Order(i) == Order(k - 1) {
          OrderOnce(i, k - 1);
        }
      }
    }
  }

  lemma {:induction false} CodeLengthsCarried(clens: seq<nat>, input: seq<byte>, p: nat, k: nat)
    requires |clens| == 19 && k <= 19 && forall i | 0 <= i < k :: clens[Order(i)] == Field(input, p + 3 * i, 3)
    ensures Carries(input, p, CodeLengthBits(clens, k))
  {
    hide Carries, Field, Order;
    if k == 0 {
      CarriesNothing(input, p);
    } else {
      CodeLengthsCarried(clens, input, p, k - 1);
      FieldCarries(input, p + 3 * (k - 1), 3);
      CarriesBoth(input, p, CodeLengthBits(clens, k - 1), LowFirst(clens[Order(k - 1)], 3));
    }
  }

  lemma FewEnough(input: seq<byte>, p: nat)
    requires DynamicCodes(input, p).Some?
    ensures Field(input, p + 10, 4) + 4 <= 19
  {
    hide Field, CodeLengths, ReadLengths, Fits;
  }

  lemma CountsCarried(input: seq<byte>, p: nat)
    ensures Carries(input, p, LowFirst(Field(input, p, 5), 5) + LowFirst(Field(input, p + 5, 5), 5)
      + LowFirst(Field(input, p + 10, 4), 4))
    ensures Field(input, p, 5) < 32 && Field(input, p + 5, 5) < 32
  {
    hide Carries, Field, LowFirst;
    SmallPowers();
    FieldCarries(input, p, 5);
    FieldCarries(input, p + 5, 5);
    FieldCarries(input, p + 10, 4);
    var a, b := LowFirst(Field(input, p, 5), 5), LowFirst(Field(input, p + 5, 5), 5);
    CarriesBoth(input, p, a, b);
    CarriesBoth(input, p, a + b, LowFirst(Field(input, p + 10, 4), 4));
  }

  lemma ShortParts(lens: seq<nat>, n: nat)
    requires Short(lens) && n <= |lens|
    ensures Lengths(lens[..n]) && Lengths(lens[n..])
  {
  }

  /** Codes that are read are codes that were sent. */
  lemma HeadFound(input: seq<byte>, p: nat) returns (h: Head)
    requires DynamicCodes(input, p).Some?
    ensures h.Ok() && Carries(input, p, h.Bits())
    ensures DynamicCodes(input, p).value == Codes(p + |h.Bits()|, h.lit, h.dist)
  {
    hide Carries, Field, Fits, Lengths, ItemsOk, ListOf, ItemsBits, CodeLengthBits, CodeLengths, ReadLengths, DynamicCodes,
      Order, LowFirst, Short;
    FewEnough(input, p);
    var hlit, hdist, hclen := Field(input, p, 5) + 257, Field(input, p + 5, 5) + 1, Field(input, p + 10, 4) + 4;
    var clens := CodeLengths(input, p + 14, hclen);
    DynamicCodesIs(input, p, hlit, hdist, hclen, clens);
    NoneLong();
    var items := ItemsFound(clens, input, p + 14 + 3 * hclen, [], hlit + hdist);
    var all := ListOf(clens, [], items);
    ShortParts(all, hlit);
    CountsCarried(input, p);
    h := Head(all[..hlit], all[hlit..], clens, hclen, items);
    assert h.lit + h.dist == all;
    CodeLengthsFound(input, p + 14, hclen);
    CodeLengthsCarried(clens, input, p + 14, hclen);
    CarriesBoth(input, p, h.Counts(), CodeLengthBits(clens, hclen));
    CarriesBoth(input, p, h.Counts() + CodeLengthBits(clens, hclen), ItemsBits(clens, true, items));
  }

  lemma NoneLong()
    ensures Short([])
  {
  }

  // ---------------------------------------------------------------------------------------
  // Blocks

  lemma WordCarried(input: seq<byte>, q: nat)
    ensures Carries(input, 8 * q, LowFirst(ByteAt(input, q) + 256 * ByteAt(input, q + 1), 16))
  {
    hide Carries, Field, ByteAt, Pow2, ShiftLeft, LowFirst;
    FieldCarries(input, 8 * q, 16);
    FieldSplit(input, 8 * q, 8, 8);
    FieldByte(input, q);
    FieldByte(input, q + 1);
    FewLeft(ByteAt(input, q + 1));
  }

  lemma {:induction false} BytesCarried(input: seq<byte>, q: nat, n: nat)
    requires q + n <= |input|
    ensures Carries(input, 8 * q, BytesBits(input[q..q + n]))
  {
    hide Carries, LowFirst;
    if n == 0 {
      CarriesNothing(input, 8 * q);
    } else {
      BytesCarried(input, q, n - 1);
      FieldCarries(input, 8 * (q + n - 1), 8);
      FieldByte(input, q + n - 1);
      var data := input[q..q + n];
      assert data[..n - 1] == input[q..q + n - 1] && data[n - 1] == input[q + n - 1];
      CarriesBoth(input, 8 * q, BytesBits(data[..n - 1]), LowFirst(data[n - 1], 8));
    }
  }

  lemma StoredFound(input: seq<byte>, p: nat, out: seq<byte>) returns (pad: nat, data: seq<byte>)
    requires StoredBlock(input, p, out).Done?
    ensures |data| <= 0xFFFF && Carries(input, p, StoredBits(p, pad, data))
    ensures StoredBlock(input, p, out) == Done(p + |StoredBits(p, pad, data)|, out + data)
  {
    hide Carries, ByteAt, BytesBits, LowFirst, Field;
    var q := (p + 7) / 8;
    var len := ByteAt(input, q) + 256 * ByteAt(input, q + 1);
    pad, data := Field(input, p, Gap(p)), input[q + 4..q + 4 + len];
    FieldCarries(input, p, Gap(p));
    WordCarried(input, q);
    WordCarried(input, q + 2);
    BytesCarried(input, q + 4, len);
    var a, b := LowFirst(pad, Gap(p)), LowFirst(len, 16);
    CarriesBoth(input, p, a, b);
    CarriesBoth(input, p, a + b, LowFirst(0xFFFF - len, 16));
    CarriesBoth(input, p, a + b + LowFirst(0xFFFF - len, 16), BytesBits(data));
  }

  lemma RestFound(kind: nat, input: seq<byte>, p: nat, out: seq<byte>) returns (b: Block)
    requires BlockBody(kind, input, p, out).Done?
    ensures b.Kind() == kind && b.Ok(|out|) && Carries(input, p, RestBits(p, |out|, b))
    ensures BlockBody(kind, input, p, out) == Done(p + |RestBits(p, |out|, b)|, BlockText(out, b))
  {
    hide Carries, StoredBits, BodyBits, FixedLengths, FixedDistances, Text, TokensOk, TokensCoded, CompressedBlock,
      DynamicCodes, StoredBlock, Head.Bits, Head.Ok;
    var s := BlockBody(kind, input, p, out);
    if kind == 0 {
      var pad, data := StoredFound(input, p, out);
      b := Stored(pad, data);
    } else if kind == 1 {
      var tokens := BodyFound(FixedLengths(), FixedDistances(), input, p, out, s.pos, s.out);
      b := Fixed(tokens);
    } else {
      var c := DynamicCodes(input, p).value;
      var h := HeadFound(input, p);
      var tokens := BodyFound(c.lit, c.dist, input, c.pos, out, s.pos, s.out);
      b := Dynamic(h, tokens);
      CarriesBoth(input, p, h.Bits(), BodyBits(c.lit, c.dist, tokens));
    }
  }

  /** A block that is decoded is one that is written. */
  lemma BlockFound(input: seq<byte>, p: nat, out: seq<byte>) returns (b: Block, last: bool)
    requires !BlockStep(input, p, out).Bad?
    ensures b.Ok(|out|) && Carries(input, p, BlockBits(p, |out|, b, last))
    ensures var e := p + |BlockBits(p, |out|, b, last)|;
      BlockStep(input, p, out) == if last then Done(e, BlockText(out, b)) else More(e, BlockText(out, b))
  {
    hide Carries, RestBits, Field, Bit, BlockBody, BlockText, Block.Ok, LowFirst;
    b := RestFound(Field(input, p + 1, 2), input, p + 3, out);
    last := Bit(input, p) == 1;
    CarriesOne(input, p, if last then 1 else 0);
    FieldCarries(input, p + 1, 2);
    var flag: seq<bit> := [if last then 1 else 0];
    CarriesBoth(input, p, flag, LowFirst(b.Kind(), 2));
    CarriesBoth(input, p, flag + LowFirst(b.Kind(), 2), RestBits(p + 3, |out|, b));
  }

  // ---------------------------------------------------------------------------------------
  // Streams

  /** What the first k blocks are depends on these blocks alone. */
  lemma {:induction false} StreamPrefix(p: nat, blocks: seq<Block>, others: seq<Block>, k: nat)
    requires k < |blocks| && k < |others| && blocks[..k] == others[..k] && StreamOk(blocks, k)
    ensures StreamSize(others, k) == StreamSize(blocks, k) && StreamOk(others, k)
    ensures StreamBits(p, others, k) == StreamBits(p, blocks, k) && StreamText(others, k) == StreamText(blocks, k)
  {
    hide Block.Ok, Block.Size, BlockBits, BlockText;
    if k == 0 {
    } else {
      assert blocks[..k - 1] == blocks[..k][..k - 1] && others[..k - 1] == others[..k][..k - 1];
      assert blocks[k - 1] == blocks[..k][k - 1] == others[..k][k - 1] == others[k - 1];
      StreamPrefix(p, blocks, others, k - 1);
    }
  }

  /** From bit p to bit e there are the first n blocks, which stand for a text. */
  predicate Written(input: seq<byte>, p: nat, blocks: seq<Block>, n: nat, text: seq<byte>, e: nat) {
    && n <= |blocks| && StreamOk(blocks, n) && Carries(input, p, StreamBits(p, blocks, n))
    && text == StreamText(blocks, n) && e == p + |StreamBits(p, blocks, n)|
  }

  lemma NoBlocks(input: seq<byte>, p: nat, blocks: seq<Block>)
    ensures Written(input, p, blocks, 0, [], p)
  {
  }

  lemma OneMore(input: seq<byte>, p: nat, blocks: seq<Block>, n: nat, text: seq<byte>, q: nat)
    requires n < |blocks| && Written(input, p, blocks, n, text, q)
    requires blocks[n].Ok(|text|) && Carries(input, q, BlockBits(q, |text|, blocks[n], n + 1 == |blocks|))
    ensures Written(input, p, blocks, n + 1, BlockText(text, blocks[n]),
      q + |BlockBits(q, |text|, blocks[n], n + 1 == |blocks|)|)
  {
    hide Carries, BlockBits, BlockText, Block.Ok, Block.Size;
    CarriesBoth(input, p, StreamBits(p, blocks, n), BlockBits(q, |text|, blocks[n], n + 1 == |blocks|));
  }

  /** Blocks that are decoded, with any block after them. */
  lemma {:induction false} BlocksFound(input: seq<byte>, p: nat, n: nat, next: Block) returns (blocks: seq<Block>)
    requires BlockRun(input, p, n).More?
    ensures |blocks| == n + 1 && blocks[n] == next
    ensures Written(input, p, blocks, n, BlockRun(input, p, n).out, BlockRun(input, p, n).pos)
  {
    hide Carries, BlockStep, BlockBits, BlockText, Block.Ok, Block.Size, StreamBits, StreamText, StreamOk, StreamSize;
    if n == 0 {
      blocks := [next];
      NoBlocks(input, p, blocks);
    } else {
      var s := BlockRun(input, p, n - 1);
      var b, last := BlockFound(input, s.pos, s.out);
      var before := BlocksFound(input, p, n - 1, b);
      blocks := before + [next];
      assert before[..n - 1] == blocks[..n - 1];
      StreamPrefix(p, before, blocks, n - 1);
      OneMore(input, p, blocks, n - 1, s.out, s.pos);
    }
  }

  /** From bit p to bit e there is a stream of blocks that stands for a text. */
  ghost predicate Encoded(input: seq<byte>, p: nat, text: seq<byte>, e: nat) {
    exists blocks: seq<Block> :: EncodedAs(input, p, text, e, blocks)
  }

  predicate EncodedAs(input: seq<byte>, p: nat, text: seq<byte>, e: nat, blocks: seq<Block>) {
    blocks != [] && Written(input, p, blocks, |blocks|, text, e)
  }

  /** Whatever is decoded was encoded. */
  lemma StreamFound(input: seq<byte>, p: nat, text: seq<byte>, e: nat)
    requires Inflates(input, p, text, e)
    ensures Encoded(input, p, text, e)
  {
    hide Carries, BlockStep, BlockBits, BlockText, Block.Ok, Block.Size, Written, BlockRun;
    var n: nat :| BlockRun(input, p, n) == Done(e, text);
    var s := LastBlock(input, p, n);
    var b, last := BlockFound(input, s.pos, s.out);
    var blocks := BlocksFound(input, p, n - 1, b);
    OneMore(input, p, blocks, n - 1, s.out, s.pos);
    assert EncodedAs(input, p, text, e, blocks);
  }

  lemma LastBlock(input: seq<byte>, p: nat, n: nat) returns (s: Step)
    requires BlockRun(input, p, n).Done?
    ensures n > 0 && s.More? && s == BlockRun(input, p, n - 1) && BlockRun(input, p, n) == BlockStep(input, s.pos, s.out)
  {
    hide BlockStep;
    s := BlockRun(input, p, n - 1);
  }

  /** Within the input, what is decoded and what is encoded is the same. */
  lemma DecodedIffEncoded(input: seq<byte>, p: nat, text: seq<byte>, e: nat)
    requires e <= 8 * |input|
    ensures Inflates(input, p, text, e) <==> Encoded(input, p, text, e)
  {
    hide Carries, StreamBits, StreamText, StreamOk, Inflates;
    if Inflates(input, p, text, e) {
      StreamFound(input, p, text, e);
    }
    if Encoded(input, p, text, e) {
      var blocks: seq<Block> :| EncodedAs(input, p, text, e, blocks);
      StreamRead(input, p, blocks);
    }
  }

  /** What the decoder accepts was encoded, behind a header that is right, and has room. */
  lemma AcceptedWasEncoded(data: seq<byte>, header: bool, room: nat, out: seq<byte>)
    requires Accepted(data, header, room, out)
    ensures header ==> ZlibHeader(data)
    ensures |out| <= room && exists e: nat :: Encoded(data, StreamStart(header), out, e)
  {
    hide Encoded, Inflates, ZlibHeader, Taken;
    AcceptedInflates(data, header, room, out);
    var e: nat :| Inflates(data, StreamStart(header), out, e);
    StreamFound(data, StreamStart(header), out, e);
  }

  /** What was encoded within the data, behind such a header, is accepted if it has room. */
  lemma EncodedIsAccepted(data: seq<byte>, header: bool, room: nat, out: seq<byte>, e: nat)
    requires header ==> ZlibHeader(data)
    requires Encoded(data, StreamStart(header), out, e) && e <= 8 * |data| && |out| <= room
    ensures Accepted(data, header, room, out)
  {
    hide Encoded, Inflates, ZlibHeader, Taken;
    DecodedIffEncoded(data, StreamStart(header), out, e);
    WithinIsAccepted(data, header, room, out, e);
  }
}
