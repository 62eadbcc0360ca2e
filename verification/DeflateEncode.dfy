/** The DEFLATE format from the side of the encoder: texts as literals and copies, code lengths with
    repetitions, blocks, and the bits that stand for them.  Whatever is encoded in this way is decoded. */
module DeflateEncode {
  import opened BitLists
  import opened BitStream
  import opened Canonical
  import opened Common
  import opened Deflate
  import opened DeflateTables
  import opened Inflate
  import opened MsbBits
  import opened Refill

  // ---------------------------------------------------------------------------------------
  // Symbols

  /** The code of a symbol, its first bit first. */
  function SymbolBits(lens: seq<nat>, i: nat): (s: seq<bit>)
    requires i < |lens|
  {
    HighFirst(Code(lens, i), lens[i])
  }

  predicate Coded(lens: seq<nat>, i: nat) {
    i < |lens| && lens[i] > 0
  }

  predicate Usable(lens: seq<nat>) {
    Lengths(lens) && Fits(lens)
  }

  /** A symbol that is written is read. */
  lemma SymbolRead(lens: seq<nat>, input: seq<byte>, p: nat, i: nat)
    requires Usable(lens) && Coded(lens, i) && Carries(input, p, SymbolBits(lens, i))
    ensures NextSymbol(lens, input, p) == Some(i) && |SymbolBits(lens, i)| == lens[i]
  {
    hide Code, Carries, MsbField, NextSymbol, Fits, Lengths;
    CodeFits(lens, i);
    MsbFieldCarried(input, p, Code(lens, i), lens[i]);
    NextSymbolIs(lens, input, p, i);
  }

  // ---------------------------------------------------------------------------------------
  // Literals and copies

  /** A byte, or a repetition of what comes so far back.  The longest length can also be said by the symbol before
      its own, for which spare stands. */
  datatype Token = Literal(value: byte) | Copy(length: nat, back: nat, spare: bool) {
    predicate Ok(n: nat) {
      Copy? ==> 3 <= length <= 258 && 1 <= back <= 32768 && back <= n
    }

    function Size(): nat {
      if Literal? then 1 else length
    }
  }

  /** The text with what the token stands for. */
  function Append(out: seq<byte>, t: Token): (r: seq<byte>)
    requires t.Ok(|out|)
    ensures |r| == |out| + t.Size()
  {
    match t
    case Literal(b) => out + [b]
    case Copy(n, d, _) => Repeated(out, d, n)
  }

  /** The symbol for a length, how many extra bits follow it and which number they are. */
  function NameOf(n: nat, spare: bool): (r: (nat, nat, nat))
    requires 3 <= n <= 258
    ensures 257 <= r.0 <= 285
  {
    if spare && n == 258 then (284, 5, 31) else LengthName(n)
  }

  lemma NamedAs(n: nat, spare: bool)
    requires 3 <= n <= 258
    ensures var (z, extra, v) := NameOf(n, spare);
      v < Pow2(extra) && LengthExtra(z - 257) == extra && LengthBase(z - 257) + v == n
  {
    hide LengthBase, LengthExtra, LengthName;
    LengthNamed(n);
    LengthAt(5, 7);
    SmallPowers();
  }

  predicate TokenCoded(lit: seq<nat>, dist: seq<nat>, t: Token) {
    t.Ok(32768) &&
    match t
    case Literal(b) => Coded(lit, b)
    case Copy(n, d, spare) => Coded(lit, NameOf(n, spare).0) && Coded(dist, DistName(d).0)
  }

  function TokenBits(lit: seq<nat>, dist: seq<nat>, t: Token): seq<bit>
    requires TokenCoded(lit, dist, t)
  {
    match t
    case Literal(b) => SymbolBits(lit, b)
    case Copy(n, d, spare) => LengthBits(lit, n, spare) + DistBits(dist, d)
  }

  function LengthBits(lit: seq<nat>, n: nat, spare: bool): seq<bit>
    requires 3 <= n <= 258 && Coded(lit, NameOf(n, spare).0)
  {
    var (z, extra, v) := NameOf(n, spare);
    SymbolBits(lit, z) + LowFirst(v, extra)
  }

  function DistBits(dist: seq<nat>, d: nat): seq<bit>
    requires 1 <= d <= 32768 && Coded(dist, DistName(d).0)
  {
    var (z, extra, v) := DistName(d);
    SymbolBits(dist, z) + LowFirst(v, extra)
  }

  lemma LengthRead(lit: seq<nat>, input: seq<byte>, p: nat, n: nat, spare: bool)
    requires 3 <= n <= 258 && Usable(lit) && Coded(lit, NameOf(n, spare).0)
    requires Carries(input, p, LengthBits(lit, n, spare))
    ensures var (z, extra, v) := NameOf(n, spare);
      var q := p + lit[z];
      && NextSymbol(lit, input, p) == Some(z)
      && extra == LengthExtra(z - 257) && LengthBase(z - 257) + Field(input, q, extra) == n
      && |LengthBits(lit, n, spare)| == lit[z] + extra
  {
    hide SymbolBits, Carries, Field, NextSymbol, LengthBase, LengthExtra, Usable, NameOf, Pow2;
    var (z, extra, v) := NameOf(n, spare);
    NamedAs(n, spare);
    CarriesParts(input, p, SymbolBits(lit, z), LowFirst(v, extra));
    SymbolRead(lit, input, p, z);
    FieldCarried(input, p + lit[z], v, extra);
  }

  lemma DistRead(dist: seq<nat>, input: seq<byte>, p: nat, d: nat)
    requires 1 <= d <= 32768 && Usable(dist) && Coded(dist, DistName(d).0) && Carries(input, p, DistBits(dist, d))
    ensures var (z, extra, v) := DistName(d);
      var q := p + dist[z];
      && NextSymbol(dist, input, p) == Some(z)
      && extra == DistExtra(z) && DistBase(z) + Field(input, q, extra) == d
      && |DistBits(dist, d)| == dist[z] + extra
  {
    hide SymbolBits, Carries, Field, NextSymbol, DistBase, DistExtra, Usable, DistName, Pow2;
    var (z, extra, v) := DistName(d);
    DistNamed(d);
    CarriesParts(input, p, SymbolBits(dist, z), LowFirst(v, extra));
    SymbolRead(dist, input, p, z);
    FieldCarried(input, p + dist[z], v, extra);
  }

  lemma CopyRead(lit: seq<nat>, dist: seq<nat>, input: seq<byte>, p: nat, out: seq<byte>, n: nat, d: nat,
    spare: bool)
    requires Usable(lit) && Usable(dist) && 3 <= n <= 258 && 1 <= d <= 32768 && d <= |out|
    requires Coded(lit, NameOf(n, spare).0) && Coded(dist, DistName(d).0)
    requires Carries(input, p, LengthBits(lit, n, spare) + DistBits(dist, d))
    ensures SymbolStep(lit, dist, input, p, out)
         == More(p + |LengthBits(lit, n, spare)| + |DistBits(dist, d)|, Repeated(out, d, n))
  {
    hide LengthBits, DistBits, Carries, Field, NextSymbol, NextMatch, LengthBase, LengthExtra, DistBase, DistExtra,
      Usable, NameOf, DistName, Repeated, Pow2;
    CarriesParts(input, p, LengthBits(lit, n, spare), DistBits(dist, d));
    LengthRead(lit, input, p, n, spare);
    var l, z := NameOf(n, spare).0 - 257, DistName(d).0;
    var q := p + lit[l + 257];
    var r := q + LengthExtra(l);
    DistRead(dist, input, r, d);
    NextMatchIs(dist, input, l, q, z, r, r + dist[z]);
  }

  /** A token that is written is read. */
  lemma TokenRead(lit: seq<nat>, dist: seq<nat>, input: seq<byte>, p: nat, out: seq<byte>, t: Token)
    requires Usable(lit) && Usable(dist) && t.Ok(|out|) && TokenCoded(lit, dist, t)
    requires Carries(input, p, TokenBits(lit, dist, t))
    ensures SymbolStep(lit, dist, input, p, out) == More(p + |TokenBits(lit, dist, t)|, Append(out, t))
  {
    hide SymbolBits, LengthBits, DistBits, Carries, NextSymbol, MatchStep, Usable, NameOf, DistName, Repeated;
    match t
    case Literal(b) => SymbolRead(lit, input, p, b);
    case Copy(n, d, spare) => CopyRead(lit, dist, input, p, out, n, d, spare);
  }

  function TextSize(n: nat, tokens: seq<Token>): nat {
    if tokens == [] then n else TextSize(n, tokens[..|tokens| - 1]) + tokens[|tokens| - 1].Size()
  }

  /** Every copy begins within what is there already, n bytes at first. */
  predicate TokensOk(n: nat, tokens: seq<Token>) {
    tokens == [] || (
      var before := tokens[..|tokens| - 1];
      TokensOk(n, before) && tokens[|tokens| - 1].Ok(TextSize(n, before)))
  }

  /** What the tokens stand for after a text. */
  function Text(out: seq<byte>, tokens: seq<Token>): (r: seq<byte>)
    requires TokensOk(|out|, tokens)
    ensures |r| == TextSize(|out|, tokens)
  {
    if tokens == [] then out else Append(Text(out, tokens[..|tokens| - 1]), tokens[|tokens| - 1])
  }

  predicate TokensCoded(lit: seq<nat>, dist: seq<nat>, tokens: seq<Token>) {
    forall i | 0 <= i < |tokens| :: TokenCoded(lit, dist, tokens[i])
  }

  function TokensBits(lit: seq<nat>, dist: seq<nat>, tokens: seq<Token>): seq<bit>
    requires TokensCoded(lit, dist, tokens)
  {
    if tokens == [] then []
    else TokensBits(lit, dist, tokens[..|tokens| - 1]) + TokenBits(lit, dist, tokens[|tokens| - 1])
  }

  lemma {:induction false} TokensRead(lit: seq<nat>, dist: seq<nat>, input: seq<byte>, p: nat, out: seq<byte>,
    tokens: seq<Token>)
    requires Usable(lit) && Usable(dist) && TokensOk(|out|, tokens) && TokensCoded(lit, dist, tokens)
    requires Carries(input, p, TokensBits(lit, dist, tokens))
    ensures SymbolRun(lit, dist, input, p, out, |tokens|) == More(p + |TokensBits(lit, dist, tokens)|, Text(out, tokens))
  {
    hide Carries, SymbolStep, TokenBits, TokenCoded, Append, Usable, SymbolRun;
    if tokens == [] {
      SymbolRunStart(lit, dist, input, p, out);
    } else {
      var n := |tokens| - 1;
      var before, t := tokens[..n], tokens[n];
      CarriesParts(input, p, TokensBits(lit, dist, before), TokenBits(lit, dist, t));
      TokensRead(lit, dist, input, p, out, before);
      var q, o := p + |TokensBits(lit, dist, before)|, Text(out, before);
      TokenRead(lit, dist, input, q, o, t);
      SymbolRunNext(lit, dist, input, p, out, n, q, o);
    }
  }

  /** The tokens and the end of the block. */
  function BodyBits(lit: seq<nat>, dist: seq<nat>, tokens: seq<Token>): seq<bit>
    requires TokensCoded(lit, dist, tokens) && Coded(lit, 256)
  {
    TokensBits(lit, dist, tokens) + SymbolBits(lit, 256)
  }

  /** A compressed block that is written is read. */
  lemma BodyRead(lit: seq<nat>, dist: seq<nat>, input: seq<byte>, p: nat, out: seq<byte>, tokens: seq<Token>)
    requires Usable(lit) && Usable(dist) && TokensOk(|out|, tokens) && TokensCoded(lit, dist, tokens) && Coded(lit, 256)
    requires Carries(input, p, BodyBits(lit, dist, tokens))
    ensures CompressedBlock(lit, dist, input, p, out)
         == Done(p + |BodyBits(lit, dist, tokens)|, Text(out, tokens))
  {
    hide Carries, TokensBits, TokensCoded, Text, TokensOk, SymbolRun, NextSymbol, SymbolBits, CompressedBlock, Usable;
    CarriesParts(input, p, TokensBits(lit, dist, tokens), SymbolBits(lit, 256));
    TokensRead(lit, dist, input, p, out, tokens);
    var q, o, n := p + |TokensBits(lit, dist, tokens)|, Text(out, tokens), |tokens|;
    SymbolRead(lit, input, q, 256);
    SymbolRunNext(lit, dist, input, p, out, n, q, o);
    CompressedBlockIs(lit, dist, input, p, out, n + 1);
  }

  // ---------------------------------------------------------------------------------------
  // Code lengths (section 3.2.7)

  /** A code length, the last one three to six times more, or zeros, up to ten or more of them. */
  datatype Item = Plain(len: nat) | Again(n: nat) | Zeros(n: nat) | ManyZeros(n: nat) {
    predicate Ok(first: bool) {
      match this
      case Plain(len) => len <= 15
      case Again(n) => 3 <= n <= 6 && !first
      case Zeros(n) => 3 <= n <= 10
      case ManyZeros(n) => 11 <= n <= 138
    }

    function Symbol(): nat {
      match this
      case Plain(len) => len
      case Again(_) => 16
      case Zeros(_) => 17
      case ManyZeros(_) => 18
    }

    /** What follows the symbol. */
    function Extra(): seq<bit>
      requires Ok(false)
    {
      match this
      case Plain(_) => []
      case Again(n) => LowFirst(n - 3, 2)
      case Zeros(n) => LowFirst(n - 3, 3)
      case ManyZeros(n) => LowFirst(n - 11, 7)
    }
  }

  /** The lengths with those that the item stands for. */
  function AppendItem(got: seq<nat>, item: Item): (r: seq<nat>)
    requires item.Ok(got == [])
    ensures |r| > |got|
  {
    match item
    case Plain(len) => got + [len]
    case Again(n) => got + Filled(got[|got| - 1], n)
    case Zeros(n) => got + Filled(0, n)
    case ManyZeros(n) => got + Filled(0, n)
  }

  predicate ItemsOk(clens: seq<nat>, first: bool, items: seq<Item>) {
    items == [] || (items[0].Ok(first) && Coded(clens, items[0].Symbol()) && ItemsOk(clens, false, items[1..]))
  }

  function ListOf(clens: seq<nat>, got: seq<nat>, items: seq<Item>): (r: seq<nat>)
    requires ItemsOk(clens, got == [], items)
    ensures |r| >= |got| && (items != [] ==> |r| > |got|)
    decreases items
  {
    if items == [] then got else ListOf(clens, AppendItem(got, items[0]), items[1..])
  }

  function ItemsBits(clens: seq<nat>, first: bool, items: seq<Item>): seq<bit>
    requires ItemsOk(clens, first, items)
    decreases items
  {
    if items == [] then []
    else ItemBits(clens, items[0]) + ItemsBits(clens, false, items[1..])
  }

  function ItemBits(clens: seq<nat>, item: Item): seq<bit>
    requires item.Ok(false) && Coded(clens, item.Symbol())
  {
    SymbolBits(clens, item.Symbol()) + item.Extra()
  }

  lemma ExtraRead(input: seq<byte>, q: nat, item: Item)
    requires item.Ok(false) && Carries(input, q, item.Extra())
    ensures match item
      case Plain(_) => true
      case Again(n) => Field(input, q, 2) == n - 3
      case Zeros(n) => Field(input, q, 3) == n - 3
      case ManyZeros(n) => Field(input, q, 7) == n - 11
  {
    hide Carries, Field, LowFirst, Pow2;
    SmallPowers();
    LargePowers();
    match item
    case Plain(len) =>
    case Again(n) => FieldCarried(input, q, n - 3, 2);
    case Zeros(n) => FieldCarried(input, q, n - 3, 3);
    case ManyZeros(n) => FieldCarried(input, q, n - 11, 7);
  }

  lemma ItemRead(clens: seq<nat>, input: seq<byte>, p: nat, got: seq<nat>, item: Item)
    requires Usable(clens) && |clens| == 19 && item.Ok(got == []) && Coded(clens, item.Symbol())
    requires Carries(input, p, ItemBits(clens, item))
    ensures var c := item.Symbol();
      NextSymbol(clens, input, p) == Some(c)
      && var i := LengthItem(input, c, p + clens[c], got);
      && i.Some? && i.value.0 == p + |ItemBits(clens, item)|
      && AppendItem(got, item) == got + Filled(i.value.1, i.value.2)
  {
    hide Carries, NextSymbol, Usable, SymbolBits, Field, Filled, LowFirst;
    var c := item.Symbol();
    CarriesParts(input, p, SymbolBits(clens, c), item.Extra());
    SymbolRead(clens, input, p, c);
    ExtraRead(input, p + clens[c], item);
    if item.Plain? {
      OneFilled(item.len);
    }
  }

  lemma OneFilled(v: nat)
    ensures Filled(v, 1) == [v]
  {
    var one: nat := 1;
    assert Filled(v, one - 1) == [];
  }

  /** Code lengths that are written are read. */
  lemma {:induction false} ItemsRead(clens: seq<nat>, input: seq<byte>, p: nat, got: seq<nat>, items: seq<Item>)
    requires Usable(clens) && |clens| == 19 && ItemsOk(clens, got == [], items)
    requires Carries(input, p, ItemsBits(clens, got == [], items))
    ensures var all := ListOf(clens, got, items);
      ReadLengths(clens, input, p, got, |all|) == Some((p + |ItemsBits(clens, got == [], items)|, all))
    decreases items
  {
    hide Carries, NextSymbol, Usable, ItemBits, LengthItem, AppendItem, Filled, ReadLengths;
    var all := ListOf(clens, got, items);
    if items == [] {
      ReadLengthsDone(clens, input, p, got, |all|, Fetch(0, false));
    } else {
      var item := items[0];
      CarriesParts(input, p, ItemBits(clens, item), ItemsBits(clens, false, items[1..]));
      ItemRead(clens, input, p, got, item);
      ReadLengthsStep(clens, input, p, got, |all|, item.Symbol());
      ItemsRead(clens, input, p + |ItemBits(clens, item)|, AppendItem(got, item), items[1..]);
    }
  }

  // ---------------------------------------------------------------------------------------
  // The head of a dynamic block

  /** Three bits for each of the first k lengths of the code length code. */
  function CodeLengthBits(clens: seq<nat>, k: nat): (s: seq<bit>)
    requires |clens| == 19 && k <= 19
    ensures |s| == 3 * k
  {
    if k == 0 then [] else CodeLengthBits(clens, k - 1) + LowFirst(clens[Order(k - 1)], 3)
  }

  /** The first k of them, and zeros for the others. */
  predicate Sent(clens: seq<nat>, k: nat, got: seq<nat>) {
    |clens| == |got| == 19 && forall i | 0 <= i < 19 :: got[Order(i)] == if i < k then clens[Order(i)] else 0
  }

  lemma OrderOnce(i: nat, j: nat)
    requires i < 19 && j < 19 && Order(i) == Order(j)
    ensures i == j
  {
  }

  lemma {:induction false} CodeLengthsRead(clens: seq<nat>, input: seq<byte>, p: nat, k: nat)
    requires |clens| == 19 && k <= 19 && (forall i | 0 <= i < 19 :: clens[i] < 8)
    requires Carries(input, p, CodeLengthBits(clens, k))
    ensures Sent(clens, k, CodeLengths(input, p, k))
  {
    hide Carries, Field, Order, CodeLengths;
    if k == 0 {
      NoCodeLengths(input, p, Fetch(0, false));
    } else {
      var c := Order(k - 1);
      CarriesParts(input, p, CodeLengthBits(clens, k - 1), LowFirst(clens[c], 3));
      CodeLengthsRead(clens, input, p, k - 1);
      SmallPowers();
      FieldCarried(input, p + 3 * (k - 1), clens[c], 3);
      CodeLengthsNext(input, p, k - 1);
      OrderLaw(k - 1);
      forall i | 0 <= i < 19
        ensures CodeLengths(input, p, k)[Order(i)] == if i < k then clens[Order(i)] else 0
      {
        if i != k - 1 && Order(i) == c {
          OrderOnce(i, k - 1);
        }
      }
    }
  }

  /** Lengths that are not sent are zero, so all of them arrive. */
  lemma AllSent(clens: seq<nat>, k: nat, got: seq<nat>)
    requires Sent(clens, k, got) && forall i | k <= i < 19 :: clens[Order(i)] == 0
    ensures got == clens
  {
    hide Order;
    forall c | 0 <= c < 19
      ensures got[c] == clens[c]
    {
      var i := Turn(c);
      assert Order(i) == c;
    }
  }

  lemma Turn(c: nat) returns (i: nat)
    requires c < 19
    ensures i < 19 && Order(i) == c
  {
    i := if c >= 16 then c - 16 else if c == 0 then 3 else if c >= 8 then 2 * (c - 6) else 2 * (7 - c) + 5;
  }

  /** The two codes of a block, the code for their lengths, and how these are sent. */
  datatype Head = Head(lit: seq<nat>, dist: seq<nat>, clens: seq<nat>, sent: nat, items: seq<Item>) {
    predicate Ok() {
      && 257 <= |lit| <= 288 && 1 <= |dist| <= 32 && Usable(lit) && Usable(dist)
      && |clens| == 19 && (forall i | 0 <= i < 19 :: clens[i] < 8) && Fits(clens)
      && 4 <= sent <= 19 && (forall i | sent <= i < 19 :: clens[Order(i)] == 0)
      && ItemsOk(clens, true, items) && ListOf(clens, [], items) == lit + dist
    }

    function Counts(): seq<bit>
      requires Ok()
    {
      LowFirst(|lit| - 257, 5) + LowFirst(|dist| - 1, 5) + LowFirst(sent - 4, 4)
    }

    function Bits(): seq<bit>
      requires Ok()
    {
      Counts() + CodeLengthBits(clens, sent) + ItemsBits(clens, true, items)
    }
  }

  lemma CountsRead(input: seq<byte>, p: nat, h: Head)
    requires h.Ok() && Carries(input, p, h.Counts())
    ensures Field(input, p, 5) + 257 == |h.lit| && Field(input, p + 5, 5) + 1 == |h.dist|
    ensures Field(input, p + 10, 4) + 4 == h.sent
  {
    hide Carries, Field, Usable, Fits, ItemsOk, ListOf;
    SmallPowers();
    var a, b, c := LowFirst(|h.lit| - 257, 5), LowFirst(|h.dist| - 1, 5), LowFirst(h.sent - 4, 4);
    CarriesParts(input, p, a + b, c);
    CarriesParts(input, p, a, b);
    FieldCarried(input, p, |h.lit| - 257, 5);
    FieldCarried(input, p + 5, |h.dist| - 1, 5);
    FieldCarried(input, p + 10, h.sent - 4, 4);
  }

  /** The codes that are sent arrive. */
  lemma HeadRead(input: seq<byte>, p: nat, h: Head)
    requires h.Ok() && Carries(input, p, h.Bits())
    ensures DynamicCodes(input, p) == Some(Codes(p + |h.Bits()|, h.lit, h.dist))
  {
    hide Carries, Field, Fits, Lengths, ItemsOk, ListOf, ItemsBits, CodeLengthBits, CodeLengths, ReadLengths, DynamicCodes,
      Order;
    CarriesParts(input, p, h.Counts() + CodeLengthBits(h.clens, h.sent), ItemsBits(h.clens, true, h.items));
    CarriesParts(input, p, h.Counts(), CodeLengthBits(h.clens, h.sent));
    CountsRead(input, p, h);
    CodeLengthsRead(h.clens, input, p + 14, h.sent);
    AllSent(h.clens, h.sent, CodeLengths(input, p + 14, h.sent));
    SmallLengths(h.clens);
    ItemsRead(h.clens, input, p + 14 + 3 * h.sent, [], h.items);
    DynamicCodesIs(input, p, |h.lit|, |h.dist|, h.sent, h.clens);
    var all := h.lit + h.dist;
    assert all[..|h.lit|] == h.lit && all[|h.lit|..] == h.dist;
  }

  lemma SmallLengths(clens: seq<nat>)
    requires forall i | 0 <= i < |clens| :: clens[i] < 8
    ensures Lengths(clens)
  {
  }

  /** Four bits for each of the sixteen lengths. */
  function FourBits(): (clens: seq<nat>)
    ensures |clens| == 19 && forall i | 0 <= i < 19 :: clens[i] == if i < 16 then 4 else 0
  {
    seq(19, i requires 0 <= i => if i < 16 then 4 else 0)
  }

  lemma {:induction false} FourBitsCount(n: nat, l: nat)
    requires n <= 19 && l > 0
    ensures CountTo(FourBits(), n, l) == if l != 4 then 0 else if n < 16 then n else 16
  {
    hide FourBits;
    if n == 0 {
    } else {
      FourBitsCount(n - 1, l);
    }
  }

  lemma {:induction false} FourBitsLevel(l: nat)
    ensures First(FourBits(), l) + Used(FourBits(), l) == if l < 4 then 0 else Pow2(l)
  {
    hide FourBits;
    if l == 0 {
    } else {
      FourBitsLevel(l - 1);
      FourBitsCount(19, l);
      SmallPowers();
    }
  }

  lemma FourBitsUsable()
    ensures Usable(FourBits())
  {
    hide FourBits, First, Used;
    forall l | 1 <= l <= MAX_LEN
      ensures LevelFits(FourBits(), l)
    {
      FourBitsLevel(l);
    }
  }

  function Plainly(lens: seq<nat>): (items: seq<Item>)
    ensures |items| == |lens|
  {
    if lens == [] then [] else [Plain(lens[0])] + Plainly(lens[1..])
  }

  lemma {:induction false} PlainlyOk(first: bool, lens: seq<nat>)
    requires Lengths(lens)
    ensures ItemsOk(FourBits(), first, Plainly(lens))
    decreases lens
  {
    hide FourBits;
    if lens == [] {
    } else {
      PlainlyOk(false, lens[1..]);
      assert Plainly(lens)[1..] == Plainly(lens[1..]);
    }
  }

  lemma {:induction false} PlainlyIs(got: seq<nat>, lens: seq<nat>)
    requires Lengths(lens) && ItemsOk(FourBits(), got == [], Plainly(lens))
    ensures ListOf(FourBits(), got, Plainly(lens)) == got + lens
    decreases lens
  {
    hide FourBits;
    if lens == [] {
      assert got + lens == got;
    } else {
      assert Plainly(lens)[1..] == Plainly(lens[1..]);
      PlainlyIs(got + [lens[0]], lens[1..]);
      assert got + [lens[0]] + lens[1..] == got + lens;
    }
  }

  /** Every pair of codes can be sent. */
  lemma HeadExists(lit: seq<nat>, dist: seq<nat>)
    requires 257 <= |lit| <= 288 && 1 <= |dist| <= 32 && Usable(lit) && Usable(dist)
    ensures Head(lit, dist, FourBits(), 19, Plainly(lit + dist)).Ok()
  {
    hide Fits, Plainly, ItemsOk, ListOf, First, Used;
    FourBitsUsable();
    PlainlyOk(true, lit + dist);
    PlainlyIs([], lit + dist);
    assert [] + (lit + dist) == lit + dist;
  }

  // ---------------------------------------------------------------------------------------
  // Stored blocks (section 3.2.4)

  /** Up to the next byte. */
  function Gap(p: nat): (n: nat)
    ensures n < 8 && p + n == 8 * ((p + 7) / 8)
  {
    (8 - p % 8) % 8
  }

  function BytesBits(data: seq<byte>): (s: seq<bit>)
    ensures |s| == 8 * |data|
  {
    if data == [] then []
    else BytesBits(data[..|data| - 1]) + LowFirst(data[|data| - 1], 8)
  }

  lemma {:induction false} BytesRead(input: seq<byte>, q: nat, data: seq<byte>)
    requires Carries(input, 8 * q, BytesBits(data))
    ensures forall i | 0 <= i < |data| :: ByteAt(input, q + i) == data[i]
  {
    hide Carries, ByteAt;
    if data == [] {
    } else {
      var n := |data| - 1;
      CarriesParts(input, 8 * q, BytesBits(data[..n]), LowFirst(data[n], 8));
      BytesRead(input, q, data[..n]);
      EightBits();
      FieldCarried(input, 8 * (q + n), data[n], 8);
      FieldByte(input, q + n);
    }
  }

  /** Padding of any bits, the length and its complement, and the data. */
  function StoredBits(p: nat, pad: nat, data: seq<byte>): seq<bit>
    requires |data| <= 0xFFFF
  {
    LowFirst(pad, Gap(p)) + LowFirst(|data|, 16) + LowFirst(0xFFFF - |data|, 16) + BytesBits(data)
  }

  lemma WordRead(input: seq<byte>, q: nat, v: nat)
    requires v <= 0xFFFF && Carries(input, 8 * q, LowFirst(v, 16))
    ensures ByteAt(input, q) + 256 * ByteAt(input, q + 1) == v
  {
    hide Carries, Field, ByteAt, Pow2, ShiftLeft;
    WordSizes();
    FieldCarried(input, 8 * q, v, 16);
    FieldSplit(input, 8 * q, 8, 8);
    FieldByte(input, q);
    FieldByte(input, q + 1);
    FewLeft(ByteAt(input, q + 1));
  }

  /** A stored block that is written is read, if the input does not end before it. */
  lemma StoredRead(input: seq<byte>, p: nat, out: seq<byte>, pad: nat, data: seq<byte>)
    requires |data| <= 0xFFFF && Carries(input, p, StoredBits(p, pad, data))
    requires p + |StoredBits(p, pad, data)| <= 8 * |input|
    ensures StoredBlock(input, p, out) == Done(p + |StoredBits(p, pad, data)|, out + data)
  {
    hide Carries, ByteAt, BytesBits, LowFirst;
    var q := (p + 7) / 8;
    var gap, len, nlen := LowFirst(pad, Gap(p)), LowFirst(|data|, 16), LowFirst(0xFFFF - |data|, 16);
    CarriesParts(input, p, gap + len + nlen, BytesBits(data));
    CarriesParts(input, p, gap + len, nlen);
    CarriesParts(input, p, gap, len);
    WordRead(input, q, |data|);
    WordRead(input, q + 2, 0xFFFF - |data|);
    BytesRead(input, q + 4, data);
    SameBytes(input, q + 4, data);
  }

  lemma SameBytes(input: seq<byte>, q: nat, data: seq<byte>)
    requires q + |data| <= |input| && forall i | 0 <= i < |data| :: ByteAt(input, q + i) == data[i]
    ensures input[q..q + |data|] == data
  {
    forall i | 0 <= i < |data|
      ensures input[q..q + |data|][i] == data[i]
    {
      assert ByteAt(input, q + i) == data[i];
    }
  }

  // ---------------------------------------------------------------------------------------
  // Streams

  datatype Block = Stored(pad: nat, data: seq<byte>) | Fixed(tokens: seq<Token>) | Dynamic(head: Head, tokens: seq<Token>) {
    /** After n bytes of text. */
    predicate Ok(n: nat) {
      match this
      case Stored(_, data) => |data| <= 0xFFFF
      case Fixed(tokens) => TokensOk(n, tokens)
      case Dynamic(head, tokens) =>
        head.Ok() && TokensOk(n, tokens) && TokensCoded(head.lit, head.dist, tokens) && Coded(head.lit, 256)
    }

    function Size(n: nat): nat {
      if Stored? then n + |data| else TextSize(n, tokens)
    }

    function Kind(): nat {
      match this
      case Stored(_, _) => 0
      case Fixed(_) => 1
      case Dynamic(_, _) => 2
    }
  }

  function BlockText(out: seq<byte>, b: Block): (r: seq<byte>)
    requires b.Ok(|out|)
    ensures |r| == b.Size(|out|)
  {
    match b
    case Stored(_, data) => out + data
    case Fixed(tokens) => Text(out, tokens)
    case Dynamic(_, tokens) => Text(out, tokens)
  }

  /** The fixed codes have every symbol. */
  lemma AllFixed(n: nat, tokens: seq<Token>)
    requires TokensOk(n, tokens)
    ensures TokensCoded(FixedLengths(), FixedDistances(), tokens) && Coded(FixedLengths(), 256)
  {
    hide FixedLengths, FixedDistances;
    FixedHas(256, 0);
    forall i | 0 <= i < |tokens|
      ensures TokenCoded(FixedLengths(), FixedDistances(), tokens[i])
    {
      TokenShape(n, tokens, i);
      match tokens[i]
      case Literal(b) => FixedHas(b, 0);
      case Copy(k, d, spare) => FixedHas(NameOf(k, spare).0, DistName(d).0);
    }
  }

  lemma FixedHas(i: nat, d: nat)
    requires i < 288 && d < 30
    ensures Coded(FixedLengths(), i) && Coded(FixedDistances(), d)
  {
    FixedAt(i);
  }

  lemma {:induction false} TokenShape(n: nat, tokens: seq<Token>, i: nat)
    requires TokensOk(n, tokens) && i < |tokens|
    ensures tokens[i].Ok(32768)
  {
    var k := |tokens| - 1;
    if i == k {
    } else {
      TokenShape(n, tokens[..k], i);
    }
  }

  lemma FixedUsable()
    ensures Usable(FixedLengths()) && Usable(FixedDistances())
  {
    hide FixedLengths, FixedDistances, Fits, Lengths;
    FixedFits();
  }

  /** What follows the three bits at the beginning of a block at bit p. */
  function RestBits(p: nat, n: nat, b: Block): seq<bit>
    requires b.Ok(n)
  {
    match b
    case Stored(pad, data) => StoredBits(p, pad, data)
    case Fixed(tokens) =>
      AllFixed(n, tokens);
      BodyBits(FixedLengths(), FixedDistances(), tokens)
    case Dynamic(head, tokens) => head.Bits() + BodyBits(head.lit, head.dist, tokens)
  }

  /** A block at bit p, after n bytes of text. */
  function BlockBits(p: nat, n: nat, b: Block, last: bool): seq<bit>
    requires b.Ok(n)
  {
    [if last then 1 else 0] + LowFirst(b.Kind(), 2) + RestBits(p + 3, n, b)
  }

  lemma RestRead(input: seq<byte>, p: nat, out: seq<byte>, b: Block)
    requires b.Ok(|out|) && Carries(input, p, RestBits(p, |out|, b)) && p + |RestBits(p, |out|, b)| <= 8 * |input|
    ensures BlockBody(b.Kind(), input, p, out) == Done(p + |RestBits(p, |out|, b)|, BlockText(out, b))
  {
    hide Carries, StoredBits, BodyBits, FixedLengths, FixedDistances, Text, TokensOk, TokensCoded, CompressedBlock,
      DynamicCodes, StoredBlock, Usable, Head.Bits;
    match b
    case Stored(pad, data) => StoredRead(input, p, out, pad, data);
    case Fixed(tokens) =>
      AllFixed(|out|, tokens);
      FixedUsable();
      BodyRead(FixedLengths(), FixedDistances(), input, p, out, tokens);
    case Dynamic(head, tokens) =>
      CarriesParts(input, p, head.Bits(), BodyBits(head.lit, head.dist, tokens));
      HeadRead(input, p, head);
      BodyRead(head.lit, head.dist, input, p + |head.Bits()|, out, tokens);
  }

  /** A block that is written is read. */
  lemma BlockRead(input: seq<byte>, p: nat, out: seq<byte>, b: Block, last: bool)
    requires b.Ok(|out|) && Carries(input, p, BlockBits(p, |out|, b, last))
    requires p + |BlockBits(p, |out|, b, last)| <= 8 * |input|
    ensures var e := p + |BlockBits(p, |out|, b, last)|;
      BlockStep(input, p, out) == if last then Done(e, BlockText(out, b)) else More(e, BlockText(out, b))
  {
    hide Carries, RestBits, Field, Bit, BlockBody, BlockText, Block.Ok;
    var flag: seq<bit>, kind := [if last then 1 else 0], LowFirst(b.Kind(), 2);
    CarriesParts(input, p, flag + kind, RestBits(p + 3, |out|, b));
    CarriesParts(input, p, flag, kind);
    FlagRead(input, p, last);
    SmallPowers();
    FieldCarried(input, p + 1, b.Kind(), 2);
    RestRead(input, p + 3, out, b);
  }

  lemma FlagRead(input: seq<byte>, p: nat, last: bool)
    requires Carries(input, p, [if last then 1 else 0])
    ensures last == (Bit(input, p) == 1)
  {
    hide Bit;
    var flag: seq<bit> := [if last then 1 else 0];
    assert Bit(input, p + 0) == flag[0];
  }

  /** The size of the text of the first k blocks. */
  function StreamSize(blocks: seq<Block>, k: nat): nat
    requires k <= |blocks|
  {
    if k == 0 then 0 else blocks[k - 1].Size(StreamSize(blocks, k - 1))
  }

  predicate StreamOk(blocks: seq<Block>, k: nat)
    requires k <= |blocks|
  {
    k == 0 || (StreamOk(blocks, k - 1) && blocks[k - 1].Ok(StreamSize(blocks, k - 1)))
  }

  /** The text of the first k blocks. */
  function StreamText(blocks: seq<Block>, k: nat): (r: seq<byte>)
    requires k <= |blocks| && StreamOk(blocks, k)
    ensures |r| == StreamSize(blocks, k)
  {
    if k == 0 then [] else BlockText(StreamText(blocks, k - 1), blocks[k - 1])
  }

  /** The first k blocks from bit p on; the last of all is marked. */
  function StreamBits(p: nat, blocks: seq<Block>, k: nat): seq<bit>
    requires k <= |blocks| && StreamOk(blocks, k)
  {
    if k == 0 then []
    else
      var before := StreamBits(p, blocks, k - 1);
      before + BlockBits(p + |before|, StreamSize(blocks, k - 1), blocks[k - 1], k == |blocks|)
  }

  lemma {:induction false} BlocksRead(input: seq<byte>, p: nat, blocks: seq<Block>, k: nat)
    requires k <= |blocks| && StreamOk(blocks, k) && Carries(input, p, StreamBits(p, blocks, k))
    requires p + |StreamBits(p, blocks, k)| <= 8 * |input|
    ensures var e := p + |StreamBits(p, blocks, k)|;
      BlockRun(input, p, k) ==
        if 0 < k == |blocks| then Done(e, StreamText(blocks, k)) else More(e, StreamText(blocks, k))
  {
    hide Carries, BlockBits, BlockStep, BlockText, Block.Ok;
    if k == 0 {
    } else {
      var before := StreamBits(p, blocks, k - 1);
      var q, n, b := p + |before|, StreamSize(blocks, k - 1), blocks[k - 1];
      CarriesParts(input, p, before, BlockBits(q, n, b, k == |blocks|));
      BlocksRead(input, p, blocks, k - 1);
      BlockRead(input, q, StreamText(blocks, k - 1), b, k == |blocks|);
    }
  }

  /** Every stream of the format is decoded to the text it stands for. */
  lemma StreamRead(input: seq<byte>, p: nat, blocks: seq<Block>)
    requires blocks != [] && StreamOk(blocks, |blocks|) && Carries(input, p, StreamBits(p, blocks, |blocks|))
    requires p + |StreamBits(p, blocks, |blocks|)| <= 8 * |input|
    ensures Inflates(input, p, StreamText(blocks, |blocks|), p + |StreamBits(p, blocks, |blocks|)|)
  {
    hide Carries, StreamBits, StreamText, StreamOk, BlockRun;
    BlocksRead(input, p, blocks, |blocks|);
  }

  /** A zlib header, the stream, and whatever follows it. */
  function Zlib(blocks: seq<Block>, tail: seq<byte>): seq<byte>
    requires blocks != [] && StreamOk(blocks, |blocks|)
  {
    [0x78, 0x01] + (Pack(StreamBits(16, blocks, |blocks|)) + tail)
  }

  lemma ZlibCarries(blocks: seq<Block>, tail: seq<byte>)
    requires blocks != [] && StreamOk(blocks, |blocks|)
    ensures Carries(Zlib(blocks, tail), 16, StreamBits(16, blocks, |blocks|))
    ensures 16 + |StreamBits(16, blocks, |blocks|)| <= 8 * |Zlib(blocks, tail)| && ZlibHeader(Zlib(blocks, tail))
  {
    hide Carries, StreamOk, Block.Ok, BlockBits, Pack;
    var s := StreamBits(16, blocks, |blocks|);
    AtLeastOne(blocks);
    PackCarries(s);
    CarriesBefore(Pack(s), tail, s);
    CarriesLater([0x78, 0x01], Pack(s) + tail, s);
  }

  lemma AtLeastOne(blocks: seq<Block>)
    requires blocks != [] && StreamOk(blocks, |blocks|)
    ensures |StreamBits(16, blocks, |blocks|)| > 0
  {
    hide RestBits, Block.Ok;
  }

  lemma CarriesBefore(input: seq<byte>, tail: seq<byte>, s: seq<bit>)
    requires Carries(input, 0, s) && |s| <= 8 * |input|
    ensures Carries(input + tail, 0, s)
  {
    hide ShiftRight;
    forall i | 0 <= i < |s|
      ensures Bit(input + tail, 0 + i) == s[i]
    {
      assert Bit(input, 0 + i) == s[i];
    }
  }

  /** Texts that are encoded come back, if there is room for them. */
  method Decode(blocks: seq<Block>, tail: seq<byte>, initialSize: nat, expandable: bool) returns (r: Option<seq<byte>>)
    requires blocks != [] && StreamOk(blocks, |blocks|)
    requires initialSize <= UINT_MAX && (expandable ==> initialSize > 0)
    requires StreamSize(blocks, |blocks|) <= Room(expandable, initialSize)
    ensures r == Some(StreamText(blocks, |blocks|))
  {
    hide Carries, StreamBits, StreamText, StreamOk, StreamSize, Zlib, ZlibHeader, Inflates, Taken, MaxGrown;
    ZlibCarries(blocks, tail);
    StreamRead(Zlib(blocks, tail), 16, blocks);
    WithinIsAccepted(Zlib(blocks, tail), true, Room(expandable, initialSize), StreamText(blocks, |blocks|),
      16 + |StreamBits(16, blocks, |blocks|)|);
    r := ZlibDecode(Zlib(blocks, tail), initialSize, expandable, true);
  }
}
