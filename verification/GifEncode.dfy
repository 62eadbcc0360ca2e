/** Images from the side of the encoder: sub-blocks around a code, and the pixels that are to be shown. */
module GifEncode {
  import opened BitLists
  import opened BitStream
  import opened Common
  import opened Gif
  import opened GifRaster
  import opened Lzw
  import opened LzwEncode

  predicate BlocksOk(blocks: seq<seq<byte>>) {
    forall i | 0 <= i < |blocks| :: 1 <= |blocks[i]| <= 255
  }

  /** Every block after its length, and a block without data. */
  function SubBlocks(blocks: seq<seq<byte>>): seq<byte>
    requires BlocksOk(blocks)
  {
    if blocks == [] then [0] else [|blocks[0]|] + blocks[0] + SubBlocks(blocks[1..])
  }

  function Joined(blocks: seq<seq<byte>>): seq<byte> {
    if blocks == [] then [] else blocks[0] + Joined(blocks[1..])
  }

  /** The data of a block are taken one by one. */
  lemma {:induction false} BlockTaken(input: seq<byte>, p: nat, block: seq<byte>)
    requires HasAt(input, p, block)
    ensures Payload(input, p, |block|) == block + Payload(input, p + |block|, 0)
    decreases |block|
  {
    hide Payload;
    if block == [] {
      assert [] + Payload(input, p, 0) == Payload(input, p, 0);
    } else {
      var first, rest := [block[0]], block[1..];
      assert block == first + rest;
      HasParts(input, p, first, rest);
      assert input[p] == input[p..p + 1][0];
      NextOne(input, p, |block|);
      BlockTaken(input, p + 1, rest);
      assert first + (rest + Payload(input, p + |block|, 0)) == block + Payload(input, p + |block|, 0);
    }
  }

  lemma NextOne(input: seq<byte>, p: nat, len: nat)
    requires p < |input| && len > 0
    ensures Payload(input, p, len) == [input[p]] + Payload(input, p + 1, len - 1)
  {
  }

  /** Whatever the blocks, their data are what is read. */
  lemma {:induction false} BlocksTaken(input: seq<byte>, p: nat, blocks: seq<seq<byte>>)
    requires BlocksOk(blocks) && HasAt(input, p, SubBlocks(blocks))
    ensures Payload(input, p, 0) == Joined(blocks)
    decreases |blocks|
  {
    hide Payload;
    if blocks == [] {
      assert input[p] == input[p..p + 1][0];
      NoMore(input, p);
    } else {
      var b, rest := blocks[0], SubBlocks(blocks[1..]);
      HasParts(input, p, [|b|] + b, rest);
      HasParts(input, p, [|b|], b);
      assert input[p] == input[p..p + 1][0];
      NewOne(input, p);
      BlockTaken(input, p + 1, b);
      BlocksTaken(input, p + 1 + |b|, blocks[1..]);
    }
  }

  lemma NoMore(input: seq<byte>, p: nat)
    requires p < |input| && input[p] == 0
    ensures Payload(input, p, 0) == []
  {
  }

  lemma NewOne(input: seq<byte>, p: nat)
    requires p < |input| && input[p] != 0
    ensures Payload(input, p, 0) == Payload(input, p + 1, input[p])
  {
  }

  /** Data decode in one way only. */
  lemma DecodesOnce(cs: nat, data: seq<byte>, out: seq<byte>, out': seq<byte>)
    requires Decodes(cs, data, out) && Decodes(cs, data, out')
    ensures out == out'
  {
    hide RunTo;
    var n: nat :| RunTo(cs, CODE_LIMIT, false, data, n) == Ended(out);
    var m: nat :| RunTo(cs, CODE_LIMIT, false, data, m) == Ended(out');
    if n <= m {
      Stopped(cs, CODE_LIMIT, false, data, n, m);
    } else {
      Stopped(cs, CODE_LIMIT, false, data, m, n);
    }
  }

  /** A frame whose data are such a code in sub-blocks. */
  ghost predicate Coded(input: seq<byte>, p: nat, cs: nat, blocks: seq<seq<byte>>, signs: seq<Sign>) {
    && 2 <= cs <= 8 && BlocksOk(blocks) && HasAt(input, p, [cs] + SubBlocks(blocks))
    && SignsOk(cs, signs) && signs != [] && signs[0].ClearSign? && ShortRuns(cs, signs)
    && Carries(Joined(blocks), 0, ImageBits(cs, signs)) && |ImageBits(cs, signs)| <= 8 * |Joined(blocks)|
  }

  lemma CodedIs(input: seq<byte>, p: nat, cs: nat, blocks: seq<seq<byte>>, signs: seq<Sign>)
    requires Coded(input, p, cs, blocks, signs)
    ensures 2 <= cs <= 8 && ByteAt(input, p) == cs && Payload(input, After(input, p), 0) == Joined(blocks)
    ensures Lzw.Accepted(cs, Joined(blocks)) && Decodes(cs, Joined(blocks), Spoken(signs))
  {
    hide SignsOk, ShortRuns, Carries, ImageBits, Payload, Lzw.Accepted, Decodes, Spoken;
    HasParts(input, p, [cs], SubBlocks(blocks));
    assert input[p] == input[p..p + 1][0];
    BlocksTaken(input, p + 1, blocks);
    ImageAccepted(cs, Joined(blocks), signs);
  }

  /** Every image that is coded is accepted, and its pixels are shown row by row in the order of the rows:
      pixel k of the row that comes as number i is index i times the width plus k. */
  method Draw(g: Gif, x: nat, y: nat, w: nat, h: nat, interlaced: bool, colours: seq<Colour>,
    ghost cs: nat, ghost blocks: seq<seq<byte>>, ghost signs: seq<Sign>) returns (ok: bool)
    requires g.codes.Length == LINKS && |colours| == 256 && x + w <= g.out.Length1 && y + h <= g.out.Length0
    requires Coded(g.input, g.pos, cs, blocks, signs) && |Spoken(signs)| == h * w
    modifies g, g.codes, g.out
    ensures ok && |RowOrder(interlaced, h)| == h
    ensures forall i, k | 0 <= i < h && 0 <= k < w ::
      var z := Place(interlaced, x, y, h, i, k);
      Shown(colours, Spoken(signs), w, i, k, old(g.out[z.row, z.col]), g.out[z.row, z.col])
  {
    hide Coded, Path, Decodes, Lzw.Accepted, Payload, Spoken;
    ghost var p, text := g.pos, Spoken(signs);
    CodedIs(g.input, p, cs, blocks, signs);
    ok := g.LoadFrame(x, y, w, h, interlaced, colours);
    DecodesOnce(cs, Joined(blocks), g.emitted, text);
    RowsThere(interlaced, h);
    PathLength(interlaced, x, y, w, h);
    forall i, k | 0 <= i < h && 0 <= k < w
      ensures var z := Place(interlaced, x, y, h, i, k);
        Shown(colours, text, w, i, k, old(g.out[z.row, z.col]), g.out[z.row, z.col])
    {
      PathAt(interlaced, x, y, w, h, i, k);
      assert Path(interlaced, x, y, w, h)[i * w + k] == Place(interlaced, x, y, h, i, k);
    }
  }

  /** Pixel k of the row that comes as number i. */
  function Place(interlaced: bool, x: nat, y: nat, h: nat, i: nat, k: nat): (z: Cell)
    requires i < h
    ensures y <= z.row < y + h && z.col == x + k
  {
    RowsThere(interlaced, h);
    Cell(y + RowOrder(interlaced, h)[i], x + k)
  }

  lemma RowsThere(interlaced: bool, h: nat)
    ensures |RowOrder(interlaced, h)| == h && forall i | 0 <= i < h :: 0 <= RowOrder(interlaced, h)[i] < h
  {
    hide RowOrder, Distinct;
    RowOrderPermutes(interlaced, h);
    LengthOf(RowOrder(interlaced, h), h);
    forall i | 0 <= i < h
      ensures 0 <= RowOrder(interlaced, h)[i] < h
    {
      assert RowOrder(interlaced, h)[i] in RowOrder(interlaced, h);
    }
  }

  /** The pixel shows the colour of its index, or what was there before. */
  predicate Shown(colours: seq<Colour>, text: seq<byte>, w: nat, i: nat, k: nat, before: Colour, now: Colour)
    requires |colours| == 256 && k < w
  {
    i * w + k < |text| &&
    var c := colours[text[i * w + k]];
    now == if c.alpha > 128 then Colour(c.c2, c.c1, c.c0, c.alpha) else before
  }

  // ---------------------------------------------------------------------------------------
  // Images with their descriptor and colours

  datatype Rgb = Rgb(red: byte, green: byte, blue: byte)

  function WordBytes(v: nat): (s: seq<byte>)
    requires v < 0x1_0000
    ensures |s| == 2
  {
    [v % 256, v / 256]
  }

  /** Whether there is a colour table, whether rows are interlaced, and how many bits of colour there are, less one. */
  function Flags(table: bool, interlaced: bool, depth: nat): byte
    requires depth < 8
  {
    (if table then 0x80 else 0) + (if interlaced then 0x40 else 0) + depth
  }

  function TableBytes(table: seq<Rgb>): (s: seq<byte>)
    ensures |s| == 3 * |table|
  {
    if table == [] then []
    else
      var last := table[|table| - 1];
      TableBytes(table[..|table| - 1]) + [last.red, last.green, last.blue]
  }

  lemma {:induction false} TableByte(table: seq<Rgb>, e: nat)
    requires e < |table|
    ensures var s := TableBytes(table);
      s[3 * e] == table[e].red && s[3 * e + 1] == table[e].green && s[3 * e + 2] == table[e].blue
  {
    var n := |table| - 1;
    if e == n {
    } else {
      TableByte(table[..n], e);
    }
  }

  /** What comes before the data of an image: its place and size, the flags, and its colours, if it has any of its own. */
  datatype Image = Image(x: nat, y: nat, w: nat, h: nat, interlaced: bool, depth: nat, table: seq<Rgb>) {
    predicate Ok() {
      && x < 0x1_0000 && y < 0x1_0000 && w < 0x1_0000 && h < 0x1_0000 && depth < 8
      && (table == [] || |table| == Pow2(depth + 1))
    }

    function Place(): (s: seq<byte>)
      requires Ok()
      ensures |s| == 8
    {
      WordBytes(x) + WordBytes(y) + WordBytes(w) + WordBytes(h)
    }

    function Descriptor(): (s: seq<byte>)
      requires Ok()
      ensures |s| == 9 + 3 * |table|
    {
      Place() + [Flags(table != [], interlaced, depth)] + TableBytes(table)
    }
  }

  lemma WordRead(input: seq<byte>, p: nat, v: nat)
    requires v < 0x1_0000 && HasAt(input, p, WordBytes(v))
    ensures WordAt(input, p) == v
  {
    var s := input[p..p + 2];
    assert s[0] == input[p] && s[1] == input[p + 1];
  }

  lemma PlaceRead(input: seq<byte>, p: nat, m: Image)
    requires m.Ok() && HasAt(input, p, m.Place())
    ensures WordAt(input, p) == m.x && WordAt(input, p + 2) == m.y
    ensures WordAt(input, p + 4) == m.w && WordAt(input, p + 6) == m.h
  {
    hide HasAt, WordAt, WordBytes;
    HasParts(input, p, WordBytes(m.x) + WordBytes(m.y) + WordBytes(m.w), WordBytes(m.h));
    HasParts(input, p, WordBytes(m.x) + WordBytes(m.y), WordBytes(m.w));
    HasParts(input, p, WordBytes(m.x), WordBytes(m.y));
    WordRead(input, p, m.x);
    WordRead(input, p + 2, m.y);
    WordRead(input, p + 4, m.w);
    WordRead(input, p + 6, m.h);
  }

  lemma FlagsRead(table: bool, interlaced: bool, depth: nat)
    requires depth < 8
    ensures var f := Flags(table, interlaced, depth);
      && HasTable(f) == table && (f / 64 % 2 == 1) == interlaced && TableSize(f) == Pow2(depth + 1)
      && DataStart(f) == 9 + if table then 3 * Pow2(depth + 1) else 0
  {
    hide Pow2;
    var f := Flags(table, interlaced, depth);
    assert f % 8 == depth;
    assert Pow2(depth + 1) == 2 * Pow2(depth) by { TwicePower(depth); }
  }

  lemma DescriptorRead(input: seq<byte>, p: nat, m: Image)
    requires m.Ok() && HasAt(input, p, m.Descriptor())
    ensures WordAt(input, p) == m.x && WordAt(input, p + 2) == m.y
    ensures WordAt(input, p + 4) == m.w && WordAt(input, p + 6) == m.h
    ensures ByteAt(input, p + 8) == Flags(m.table != [], m.interlaced, m.depth)
    ensures Skip(input, p, |m.Descriptor()|) == p + |m.Descriptor()|
    ensures HasAt(input, p + 9, TableBytes(m.table))
  {
    hide WordAt, Image.Place, Flags, TableBytes, ByteAt, Pow2;
    var flags := [Flags(m.table != [], m.interlaced, m.depth)];
    HasParts(input, p, m.Place() + flags, TableBytes(m.table));
    HasParts(input, p, m.Place(), flags);
    PlaceRead(input, p, m);
    HasByte(input, p + 8, flags, 0);
  }

  lemma ColourRead(input: seq<byte>, p: nat, table: seq<Rgb>, e: nat)
    requires HasAt(input, p, TableBytes(table)) && e < |table|
    ensures ByteAt(input, p + 3 * e) == table[e].red && ByteAt(input, p + 3 * e + 1) == table[e].green
    ensures ByteAt(input, p + 3 * e + 2) == table[e].blue
  {
    hide HasAt, TableBytes, ByteAt;
    TableByte(table, e);
    HasByte(input, p, TableBytes(table), 3 * e);
    HasByte(input, p, TableBytes(table), 3 * e + 1);
    HasByte(input, p, TableBytes(table), 3 * e + 2);
  }

  /** The pixel has the colour that the image, or else the screen, gives to its index, or what was there before if
      that is the transparent one. */
  predicate Coloured(m: Image, global: Option<seq<Colour>>, transp: int, e: byte, before: Colour, now: Colour)
    requires global.Some? ==> |global.value| == 256
  {
    if m.table != [] then
      e < |m.table| ==>
        now == if e == transp then before else Colour(m.table[e].red, m.table[e].green, m.table[e].blue, 255)
    else
      global.Some? &&
      var c := global.value[e];
      now == if c.alpha > 128 then Colour(c.c2, c.c1, c.c0, c.alpha) else before
  }

  lemma ShowsColour(input: seq<byte>, p: nat, m: Image, global: Option<seq<Colour>>, transp: int, e: byte,
    before: Colour, now: Colour)
    requires m.Ok() && HasAt(input, p, m.Descriptor()) && (global.Some? ==> |global.value| == 256)
    requires Shows(input, p, transp, global, e, before, now)
    ensures Coloured(m, global, transp, e, before, now)
  {
    hide HasAt, ByteAt, Flags, TableBytes, HasTable, TableSize, WordAt, Pow2;
    DescriptorRead(input, p, m);
    FlagsRead(m.table != [], m.interlaced, m.depth);
    if m.table != [] && e < |m.table| {
      ColourRead(input, p + 9, m.table, e);
    }
  }

  predicate Pictured(m: Image, global: Option<seq<Colour>>, transp: int, text: seq<byte>, i: nat, k: nat,
    before: Colour, now: Colour)
    requires (global.Some? ==> |global.value| == 256) && k < m.w
  {
    i * m.w + k < |text| && Coloured(m, global, transp, text[i * m.w + k], before, now)
  }

  lemma PathPlace(interlaced: bool, x: nat, y: nat, w: nat, h: nat, i: nat, k: nat)
    requires i < h && k < w
    ensures i * w + k < |Path(interlaced, x, y, w, h)| == h * w
    ensures Path(interlaced, x, y, w, h)[i * w + k] == Place(interlaced, x, y, h, i, k)
  {
    hide Path, RowOrder;
    PathLength(interlaced, x, y, w, h);
    PathAt(interlaced, x, y, w, h, i, k);
  }

  lemma PixelIs(input: seq<byte>, p: nat, m: Image, global: Option<seq<Colour>>, transp: int, text: seq<byte>, i: nat,
    k: nat, before: Colour, now: Colour)
    requires m.Ok() && HasAt(input, p, m.Descriptor()) && (global.Some? ==> |global.value| == 256) && k < m.w
    requires i * m.w + k < |text| && Shows(input, p, transp, global, text[i * m.w + k], before, now)
    ensures Pictured(m, global, transp, text, i, k, before, now)
  {
    hide HasAt, Image.Ok, Image.Descriptor, Shows, Coloured;
    ShowsColour(input, p, m, global, transp, text[i * m.w + k], before, now);
  }

  /** What a descriptor and a code after it are to the decoder. */
  lemma ImageIs(input: seq<byte>, p: nat, m: Image, cs: nat, blocks: seq<seq<byte>>, signs: seq<Sign>)
    requires m.Ok() && HasAt(input, p, m.Descriptor()) && Coded(input, p + |m.Descriptor()|, cs, blocks, signs)
    ensures WordAt(input, p) == m.x && WordAt(input, p + 2) == m.y
    ensures WordAt(input, p + 4) == m.w && WordAt(input, p + 6) == m.h
    ensures HasTable(ByteAt(input, p + 8)) == (m.table != []) && (ByteAt(input, p + 8) / 64 % 2 == 1) == m.interlaced
    ensures var q := Skip(input, p, DataStart(ByteAt(input, p + 8)));
      && 2 <= cs <= 8 && ByteAt(input, q) == cs && Payload(input, After(input, q), 0) == Joined(blocks)
      && Lzw.Accepted(cs, Joined(blocks)) && Decodes(cs, Joined(blocks), Spoken(signs))
  {
    hide Coded, Decodes, Lzw.Accepted, Payload, Spoken, HasAt, WordAt, Flags, HasTable, TableSize, DataStart, Pow2, Skip,
      ByteAt, After;
    DescriptorRead(input, p, m);
    FlagsRead(m.table != [], m.interlaced, m.depth);
    CodedIs(input, p + |m.Descriptor()|, cs, blocks, signs);
  }

  /** An image that is written comes back: every pixel has its colour, row by row in the order of the rows. */
  method DrawImage(g: Gif, lpal: array<Colour>, global: Option<seq<Colour>>, transp: int, ghost m: Image,
    ghost cs: nat, ghost blocks: seq<seq<byte>>, ghost signs: seq<Sign>) returns (ok: bool)
    requires g.codes.Length == LINKS && lpal.Length == 256 && (global.Some? ==> |global.value| == 256)
    requires m.Ok() && m.x + m.w <= g.out.Length1 && m.y + m.h <= g.out.Length0 && (m.table != [] || global.Some?)
    requires HasAt(g.input, g.pos, m.Descriptor()) && |Spoken(signs)| == m.h * m.w
    requires Coded(g.input, g.pos + |m.Descriptor()|, cs, blocks, signs)
    modifies g, g.codes, g.out, lpal
    ensures ok && |RowOrder(m.interlaced, m.h)| == m.h
    ensures forall i, k | 0 <= i < m.h && 0 <= k < m.w ::
      var z := Place(m.interlaced, m.x, m.y, m.h, i, k);
      Pictured(m, global, transp, Spoken(signs), i, k, old(g.out[z.row, z.col]), g.out[z.row, z.col])
  {
    hide *;
    ghost var p, text := g.pos, Spoken(signs);
    ImageIs(g.input, p, m, cs, blocks, signs);
    ok := g.LoadImage(lpal, global, transp);
    DecodesOnce(cs, Joined(blocks), g.emitted, text);
    RowsThere(m.interlaced, m.h);
    forall i, k | 0 <= i < m.h && 0 <= k < m.w
      ensures var z := Place(m.interlaced, m.x, m.y, m.h, i, k);
        Pictured(m, global, transp, text, i, k, old(g.out[z.row, z.col]), g.out[z.row, z.col])
    {
      PathPlace(m.interlaced, m.x, m.y, m.w, m.h, i, k);
      var z := Place(m.interlaced, m.x, m.y, m.h, i, k);
      PixelIs(g.input, p, m, global, transp, text, i, k, old(g.out[z.row, z.col]), g.out[z.row, z.col]);
    }
  }
}
