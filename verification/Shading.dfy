/** What a drawn pixel shows, channel by channel, told without packed words: rounded mixes of rounded
    products, texels at the nearest column, and attributes as integer parts of wrapping 16.16 words. */
module Shading {
  import opened Blend
  import opened Common
  import opened Raster

  // ---------------------------------------------------------------------------------------
  // Words and indices

  /** The value of v as a signed word of 32 bits. */
  predicate SignedWord(w: int, v: int) {
    -0x8000_0000 <= w < 0x8000_0000 && (v - w) % 0x1_0000_0000 == 0
  }

  /** The integer part of a 16.16 value, rounded down. */
  predicate IntegerPart(i: int, w: int) {
    0x1_0000 * i <= w < 0x1_0000 * (i + 1)
  }

  function Distance(c: int, i: int): nat {
    Abs(c - i)
  }

  /** Of the first n indices the one nearest to i. */
  ghost predicate NearestIndex(c: int, n: nat, i: int) {
    0 <= c < n && forall m: int | 0 <= m < n :: Distance(c, i) <= Distance(m, i)
  }

  lemma HighIs(v: int)
    ensures exists w: int :: SignedWord(w, v) && IntegerPart(High(Wrap(v)), w)
  {
    var u: int := Wrap(v);
    var w := if u >= 0x8000_0000 then u - 0x1_0000_0000 else u;
    assert SignedWord(w, v) && IntegerPart(High(u), w);
  }

  lemma WordOnce(w: int, w': int, v: int)
    requires SignedWord(w, v) && SignedWord(w', v)
    ensures w == w'
  {
    assert (w - w') % 0x1_0000_0000 == 0;
  }

  /** The integer part that the source takes is that of the signed word. */
  lemma IntegerPartIs(i: int, w: int, v: int)
    requires SignedWord(w, v) && IntegerPart(i, w)
    ensures High(Wrap(v)) == i
  {
    hide High, Wrap, SignedWord;
    HighIs(v);
    var w' :| SignedWord(w', v) && IntegerPart(High(Wrap(v)), w');
    WordOnce(w, w', v);
  }

  /** The column of a texture is the one nearest to the integer part, if the texture has columns. */
  lemma TexColumnIs(c: int, n: nat, i: int, w: int, v: int)
    requires SignedWord(w, v) && IntegerPart(i, w) && NearestIndex(c, n, i)
    ensures TexColumn(n, Wrap(v)) == c
  {
    hide High, Wrap, SignedWord, IntegerPart;
    IntegerPartIs(i, w, v);
    Inside(n, i);
    var e := if i < 0 then 0 else if i >= n then n - 1 else i;
    assert Distance(c, i) <= Distance(e, i);
  }

  lemma Inside(n: nat, i: int)
    requires n > 0
    ensures var e := if i < 0 then 0 else if i >= n then n - 1 else i;
      NearestIndex(e, n, i)
  {
  }

  /** A channel is the nearest value it can have. */
  lemma ChannelIs(c: int, i: int, w: int, v: int)
    requires SignedWord(w, v) && IntegerPart(i, w) && NearestIndex(c, 256, i)
    ensures Clamp255(High(Wrap(v))) == c
  {
    hide High, Wrap, SignedWord, IntegerPart;
    IntegerPartIs(i, w, v);
    Inside(256, i);
    var e := if i < 0 then 0 else if i >= 256 then 255 else i;
    assert Distance(c, i) <= Distance(e, i);
  }

  /** Steps one by one are all steps at once. */
  lemma {:induction false} StepsAre(p: Prim, i: nat)
    ensures USteps(p, i) == Wrap(p.uFp + Times(i, p.duFp))
  {
    hide Wrap, Times;
    TimesNext(i - 1, p.duFp);
    if i == 0 {
      WrapSame(p.uFp);
    } else {
      StepsAre(p, i - 1);
      WrapSum(p.uFp + Times(i - 1, p.duFp), p.duFp);
    }
  }

  function Times(i: int, s: int): int {
    i * s
  }

  lemma TimesNext(i: int, s: int)
    ensures Times(i + 1, s) == Times(i, s) + s && Times(0, s) == 0
  {
  }

  lemma WrapSame(v: Px)
    ensures Wrap(v) == v
  {
  }

  lemma WrapSum(v: int, s: int)
    ensures Wrap(Wrap(v) + Wrap(s)) == Wrap(v + s)
  {
  }

  // ---------------------------------------------------------------------------------------
  // Colours

  /** Every channel of a tinted texel is the rounded product of the two channels. */
  lemma TintIs(t: Px, col: Px, k: nat)
    requires k < 3
    ensures Nearest255(Channel(TintPx(t, col), k), Channel(t, k) * Channel(col, k))
  {
    hide Mul255, Nearest255, Channel, TintPx;
    Mul255Exact(Channel(t, 0), Channel(col, 0));
    Mul255Exact(Channel(t, 1), Channel(col, 1));
    Mul255Exact(Channel(t, 2), Channel(col, 2));
    TintParts(t, col);
  }

  lemma TintParts(t: Px, col: Px)
    ensures Channel(TintPx(t, col), 0) == Mul255(Channel(t, 0), Channel(col, 0))
    ensures Channel(TintPx(t, col), 1) == Mul255(Channel(t, 1), Channel(col, 1))
    ensures Channel(TintPx(t, col), 2) == Mul255(Channel(t, 2), Channel(col, 2))
  {
    hide Mul255, Channel;
    var r, g, b := Mul255(Channel(t, 0), Channel(col, 0)), Mul255(Channel(t, 1), Channel(col, 1)),
      Mul255(Channel(t, 2), Channel(col, 2));
    TimesSmall(Channel(t, 0), Channel(col, 0));
    TimesSmall(Channel(t, 1), Channel(col, 1));
    TimesSmall(Channel(t, 2), Channel(col, 2));
    ByteOfByte(r);
    ByteOfByte(g);
    ByteOfByte(b);
    Join(r, g, b, 0);
  }

  lemma ByteOfByte(v: nat)
    requires v < 256
    ensures v % 256 == v
  {
  }

  /** The channels of a packed colour. */
  lemma PackIs(r: Px, g: Px, b: Px)
    requires r <= 255 && g <= 255 && b <= 255
    ensures var p := Raster.Pack(r, g, b);
      Channel(p, 0) == r && Channel(p, 1) == g && Channel(p, 2) == b
  {
    Join(r, g, b, 0);
  }

  /** An opaque pixel has full alpha, and making one so keeps its colour. */
  lemma OpaqueIs(v: Px, k: nat)
    requires k < 3
    ensures IsOpaque(v) <==> v >= 0xFF00_0000
    ensures IsOpaque(Opaque(v)) && Channel(Opaque(v), k) == Channel(v, k)
  {
    OpaqueSum(v);
    hide Channel, Opaque;
    Join(Channel(v, 0), Channel(v, 1), Channel(v, 2), 255);
    AlphaIs(v);
  }

  lemma OpaqueSum(v: Px)
    ensures Opaque(v) == Channel(v, 0) + 0x100 * Channel(v, 1) + 0x1_0000 * Channel(v, 2) + 0x100_0000 * 255
  {
    hide Channel;
    Split(v);
    assert v % 0x100_0000 == Channel(v, 0) + 0x100 * Channel(v, 1) + 0x1_0000 * Channel(v, 2);
  }

  lemma AlphaIs(v: Px)
    ensures Channel(v, 3) == 255 <==> v >= 0xFF00_0000
  {
  }

  /** Painting over an opaque pixel is the rounded mix in every channel, and leaves it opaque. */
  lemma PaintIs(d: Px, s: Px, a: Px, k: nat)
    requires IsOpaque(d) && a <= 255 && k < 3
    ensures IsOpaque(Paint(d, s, a))
    ensures Nearest255(Channel(Paint(d, s, a), k), Channel(s, k) * a + Channel(d, k) * (255 - a))
  {
    hide Paint, BlendPx, Channel, Nearest255;
    PaintIsBlend(d, s, a);
    BlendExact(d, s, a, k);
  }

  // ---------------------------------------------------------------------------------------
  // Pixels

  /** The pixel is in the rows and columns of the primitive, and between the edges of a triangle. */
  predicate Covers(g: Geometry, p: Prim, y: int, x: int) {
    && p.y0 <= y < p.y1 && p.x0 <= x < p.x1
    && (IsTri(p) ==> g.edges(p, y).0 <= x < g.edges(p, y).1)
  }

  /** A primitive changes the pixels it covers and no others. */
  lemma CoversIs(g: Geometry, p: Prim, y: int, x: int, d: Px)
    ensures Covers(g, p, y, x) <==> p.y0 <= y < p.y1 && Left(g, p, y) <= x < Right(g, p, y)
    ensures !Covers(g, p, y, x) ==> PixelStep(g, p, y, x, d) == d
    ensures Covers(g, p, y, x) ==>
      var (s, a) := ShadeAt(g, p, y, x); PixelStep(g, p, y, x, d) == Paint(d, s, a)
  {
    hide ShadeAt, Paint;
  }

  /** Channel k of the pixel r is a colour s mixed over the pixel d with alpha a, rounded. */
  predicate Mixed(r: Px, d: Px, k: nat, s: int, a: int)
    requires k < 4
  {
    Nearest255(Channel(r, k), s * a + Channel(d, k) * (255 - a))
  }

  /** One colour. */
  lemma PlainPixel(g: Geometry, p: Prim, y: int, x: int, d: Px, k: nat)
    requires (p.kind.RectSolid? || p.kind.TriFlat?) && Covers(g, p, y, x)
    requires IsOpaque(d) && p.a <= 255 && k < 3
    ensures var r := PixelStep(g, p, y, x, d);
      IsOpaque(r) && Mixed(r, d, k, Channel(p.src, k), p.a)
  {
    hide Channel, Paint, Nearest255, Covers, PixelStep;
    CoversIs(g, p, y, x, d);
    PaintIs(d, p.src, p.a, k);
  }

  /** A textured rectangle: the texel at the nearest column, its colour times the tint and its alpha times
      that of the rectangle, both rounded, mixed over what was there. */
  lemma TexturedPixel(g: Geometry, p: Prim, y: int, x: int, d: Px, k: nat, w: int, i: int, c: int)
    requires p.kind.RectTex? && Covers(g, p, y, x) && IsOpaque(d) && p.a <= 255 && k < 3
    requires SignedWord(w, p.uFp + (x - p.x0) * p.duFp) && IntegerPart(i, w) && NearestIndex(c, p.tw, i)
    ensures var r, t := PixelStep(g, p, y, x, d), g.fetch(p, y, c);
      IsOpaque(r) && exists s, a ::
        && Nearest255(s, Channel(t, k) * Channel(p.src, k)) && Nearest255(a, Channel(t, 3) * p.a)
        && Mixed(r, d, k, s, a)
  {
    hide Channel, Paint, Nearest255, Covers, PixelStep, TintPx, Mul255, TexColumn, USteps, SignedWord, IntegerPart,
      NearestIndex;
    CoversIs(g, p, y, x, d);
    CoversLeft(g, p, y, x);
    StepsAre(p, x - p.x0);
    TexColumnIs(c, p.tw, i, w, p.uFp + (x - p.x0) * p.duFp);
    var t := g.fetch(p, y, c);
    var s, a := TintPx(t, p.src), Mul255(Channel(t, 3), p.a);
    TintIs(t, p.src, k);
    Mul255Exact(Channel(t, 3), p.a);
    PaintIs(d, s, a, k);
    assert Mixed(PixelStep(g, p, y, x, d), d, k, Channel(s, k), a);
  }

  lemma CoversLeft(g: Geometry, p: Prim, y: int, x: int)
    requires Covers(g, p, y, x)
    ensures p.x0 <= x && Left(g, p, y) <= x
  {
  }

  /** How a channel of an interpolated colour comes about: the word after n steps, its integer part, and the
      nearest value of a channel. */
  ghost predicate Attribute(c: int, first: Px, step: Px, n: int) {
    exists w: int, i: int :: SignedWord(w, first + n * step) && IntegerPart(i, w) && NearestIndex(c, 256, i)
  }

  lemma AttributeIs(first: Px, step: Px, n: int, c: int)
    requires Attribute(c, first, step, n)
    ensures c == Clamp255(High(Wrap(first + n * step)))
  {
    hide SignedWord, IntegerPart, NearestIndex, Clamp255, High, Wrap;
    var w: int, i: int :| SignedWord(w, first + n * step) && IntegerPart(i, w) && NearestIndex(c, 256, i);
    ChannelIs(c, i, w, first + n * step);
  }

  /** Colour k of the first values and steps of a row. */
  function Part(c: Attrs, k: nat): Px {
    if k == 0 then c.r else if k == 1 then c.g else if k == 2 then c.b else c.a
  }

  /** An interpolated triangle. */
  lemma GouraudPixel(g: Geometry, p: Prim, y: int, x: int, d: Px, k: nat, s: int, a: int)
    requires p.kind.TriGouraud? && Covers(g, p, y, x) && IsOpaque(d) && k < 3
    requires var n := x - Left(g, p, y);
      && Attribute(s, Part(g.start(p, y), k), Part(g.step(p), k), n)
      && Attribute(a, g.start(p, y).a, g.step(p).a, n)
    ensures var r := PixelStep(g, p, y, x, d);
      IsOpaque(r) && Mixed(r, d, k, s, a)
  {
    hide Channel, Paint, Nearest255, Covers, PixelStep, Attribute, High, Wrap, Clamp255, Raster.Pack, Left;
    CoversIs(g, p, y, x, d);
    CoversLeft(g, p, y, x);
    var n, f, t := x - Left(g, p, y), g.start(p, y), g.step(p);
    AttributeIs(Part(f, k), Part(t, k), n, s);
    AttributeIs(f.a, t.a, n, a);
    var red, green, blue := Clamp255(High(Wrap(f.r + n * t.r))), Clamp255(High(Wrap(f.g + n * t.g))),
      Clamp255(High(Wrap(f.b + n * t.b)));
    PackIs(red, green, blue);
    PaintIs(d, Raster.Pack(red, green, blue), a, k);
  }

  /** A textured triangle: the same, times the texel at the nearest column and row. */
  lemma TexturedTriangle(g: Geometry, p: Prim, y: int, x: int, d: Px, k: nat, s: int, a: int,
    wu: int, iu: int, tx: int, wv: int, iv: int, ty: int)
    requires p.kind.TriTex? && Covers(g, p, y, x) && IsOpaque(d) && k < 3
    requires var n := x - Left(g, p, y);
      && Attribute(s, Part(g.start(p, y), k), Part(g.step(p), k), n)
      && Attribute(a, g.start(p, y).a, g.step(p).a, n)
      && SignedWord(wu, g.start(p, y).u + n * g.step(p).u) && IntegerPart(iu, wu) && NearestIndex(tx, p.tw, iu)
      && SignedWord(wv, g.start(p, y).v + n * g.step(p).v) && IntegerPart(iv, wv) && NearestIndex(ty, p.th, iv)
    ensures var r, t := PixelStep(g, p, y, x, d), g.texel(p, tx, ty);
      IsOpaque(r) && exists s', a' ::
        Nearest255(s', s * Channel(t, k)) && Nearest255(a', a * Channel(t, 3)) && Mixed(r, d, k, s', a')
  {
    hide Channel, Paint, Nearest255, Covers, PixelStep, Attribute, High, Wrap, Clamp255, Raster.Pack, Left, Mul255,
      TexColumn, SignedWord, IntegerPart, NearestIndex;
    CoversIs(g, p, y, x, d);
    CoversLeft(g, p, y, x);
    var n, f, step := x - Left(g, p, y), g.start(p, y), g.step(p);
    AttributeIs(Part(f, k), Part(step, k), n, s);
    AttributeIs(f.a, step.a, n, a);
    TexColumnIs(tx, p.tw, iu, wu, f.u + n * step.u);
    TexColumnIs(ty, p.th, iv, wv, f.v + n * step.v);
    var (packed, alpha) := TriShade(g, p, Along(f, step, n));
    TriShadeIs(g, p, f, step, n, k);
    var t := g.texel(p, tx, ty);
    PaintIs(d, packed, alpha, k);
    assert Mixed(PixelStep(g, p, y, x, d), d, k, Channel(packed, k), alpha);
  }

  /** The colour of a textured triangle, channel by channel. */
  lemma TriShadeIs(g: Geometry, p: Prim, f: Attrs, step: Attrs, n: int, k: nat)
    requires p.kind.TriTex? && k < 3
    ensures var (packed, alpha) := TriShade(g, p, Along(f, step, n));
      var t := g.texel(p, TexColumn(p.tw, Wrap(f.u + n * step.u)), TexColumn(p.th, Wrap(f.v + n * step.v)));
      && alpha <= 255
      && Nearest255(Channel(packed, k), Clamp255(High(Wrap(Part(f, k) + n * Part(step, k)))) * Channel(t, k))
      && Nearest255(alpha, Clamp255(High(Wrap(f.a + n * step.a))) * Channel(t, 3))
  {
    hide Channel, Nearest255, High, Wrap, Clamp255, Raster.Pack, Mul255, TexColumn;
    var t := g.texel(p, TexColumn(p.tw, Wrap(f.u + n * step.u)), TexColumn(p.th, Wrap(f.v + n * step.v)));
    var red, green, blue := Clamp255(High(Wrap(f.r + n * step.r))), Clamp255(High(Wrap(f.g + n * step.g))),
      Clamp255(High(Wrap(f.b + n * step.b)));
    Mul255Exact(red, Channel(t, 0));
    Mul255Exact(green, Channel(t, 1));
    Mul255Exact(blue, Channel(t, 2));
    Mul255Exact(Clamp255(High(Wrap(f.a + n * step.a))), Channel(t, 3));
    PackIs(Mul255(red, Channel(t, 0)), Mul255(green, Channel(t, 1)), Mul255(blue, Channel(t, 2)));
  }

  /** The last primitive that covers a pixel is on top: with full alpha it alone is seen. */
  lemma {:induction false} OnTop(g: Geometry, prims: seq<Prim>, n: nat, m: nat, y: int, x: int, d: Px)
    requires m < n <= |prims| && Covers(g, prims[m], y, x)
    requires (prims[m].kind.RectSolid? || prims[m].kind.TriFlat?) && prims[m].a == 255
    requires forall j | m < j < n :: !Covers(g, prims[j], y, x)
    ensures Drawn(g, prims, n, y, x, d) == Opaque(prims[m].src)
    decreases n
  {
    hide Covers, PixelStep, ShadeAt, Opaque;
    var below := Drawn(g, prims, n - 1, y, x, d);
    CoversIs(g, prims[n - 1], y, x, below);
    if n - 1 == m {
      ShadePlain(g, prims[m], y, x);
    } else {
      OnTop(g, prims, n - 1, m, y, x, d);
    }
  }

  lemma ShadePlain(g: Geometry, p: Prim, y: int, x: int)
    requires Covers(g, p, y, x) && (p.kind.RectSolid? || p.kind.TriFlat?)
    ensures p.x0 <= x && ShadeAt(g, p, y, x) == (p.src, p.a)
  {
  }
}
