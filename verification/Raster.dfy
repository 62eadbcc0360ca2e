/** Rendering of clipped primitives into a framebuffer, whole or restricted to a band of
    rows.  What float geometry decides is a parameter: the ends of a triangle's row, the texture row
    of a rectangle's row, and where the attributes of a triangle's row start and how they step. */
module Raster {
  import opened Blend

  datatype Kind = RectSolid | RectTex | TriFlat | TriGouraud | TriTex

  datatype Prim = Prim(kind: Kind, x0: int, x1: int, y0: int, y1: int, src: Px, a: Px,
                       tw: nat, th: nat, uFp: Px, duFp: int, tri: int)

  /** Texture coordinates and colour of a pixel in 16.16 fixed point, as 32-bit words. */
  datatype Attrs = Attrs(u: Px, v: Px, r: Px, g: Px, b: Px, a: Px)

  datatype Geometry = Geometry(
    edges: (Prim, int) -> (int, int),
    fetch: (Prim, int, int) -> Px,
    texel: (Prim, int, int) -> Px,
    start: (Prim, int) -> Attrs,
    step: Prim -> Attrs)

  function Max(a: int, b: int): int {
    if a < b then b else a
  }

  function Min(a: int, b: int): int {
    if a < b then a else b
  }

  predicate IsTri(p: Prim) {
    p.kind.TriFlat? || p.kind.TriGouraud? || p.kind.TriTex?
  }

  /** The primitive lies inside a framebuffer of H rows and W columns. */
  predicate Clipped(p: Prim, H: nat, W: nat) {
    0 <= p.x0 <= p.x1 <= W && 0 <= p.y0 < p.y1 <= H
  }

  function Left(g: Geometry, p: Prim, y: int): int {
    if IsTri(p) then Max(p.x0, g.edges(p, y).0) else p.x0
  }

  function Right(g: Geometry, p: Prim, y: int): int {
    if IsTri(p) then Min(p.x1, g.edges(p, y).1) else p.x1
  }

  // ---------------------------------------------------------------------------------------
  // What a primitive does to one pixel

  function TintPx(t: Px, col: Px): Px {
    Mul255(Channel(t, 0), Channel(col, 0)) % 256
    + Mul255(Channel(t, 1), Channel(col, 1)) % 256 * 0x100
    + Mul255(Channel(t, 2), Channel(col, 2)) % 256 * 0x1_0000
  }

  /** The 16.16 texture coordinate after i steps, as a wrapping 32-bit word. */
  function USteps(p: Prim, i: nat): Px {
    if i == 0 then p.uFp else Wrap(USteps(p, i - 1) + Wrap(p.duFp))
  }

  /** The integer part of a signed 16.16 word. */
  function High(w: Px): int {
    (if w >= 0x8000_0000 then w - 0x1_0000_0000 else w) / 0x1_0000
  }

  /** Clamped to the texture's width. */
  function TexColumn(tw: nat, u: Px): int {
    var tx := High(u);
    if tx < 0 then 0 else if tx >= tw then tw - 1 else tx
  }

  function Clamp255(v: int): (c: Px)
    ensures c <= 255
  {
    if v < 0 then 0 else if v > 255 then 255 else v
  }

  function Advance(c: Attrs, s: Attrs): Attrs {
    Attrs(Wrap(c.u + s.u), Wrap(c.v + s.v), Wrap(c.r + s.r), Wrap(c.g + s.g), Wrap(c.b + s.b), Wrap(c.a + s.a))
  }

  /** The attributes i pixels further on, in one step: words wrap, so nothing is lost on the way. */
  function Along(c: Attrs, s: Attrs, i: int): Attrs {
    Attrs(Wrap(c.u + i * s.u), Wrap(c.v + i * s.v), Wrap(c.r + i * s.r), Wrap(c.g + i * s.g), Wrap(c.b + i * s.b),
          Wrap(c.a + i * s.a))
  }

  lemma AlongStart(c: Attrs, s: Attrs)
    ensures Along(c, s, 0) == c
  {
  }

  lemma WrapStep(c: Px, s: Px, i: int)
    ensures Wrap(Wrap(c + i * s) + s) == Wrap(c + (i + 1) * s)
  {
    var v := c + i * s;
    assert c + (i + 1) * s == v + s;
    WrapTwice(v, s);
  }

  lemma WrapTwice(v: int, s: int)
    ensures Wrap(Wrap(v) + s) == Wrap(v + s)
  {
  }

  lemma AlongStep(c: Attrs, s: Attrs, i: int)
    ensures Advance(Along(c, s, i), s) == Along(c, s, i + 1)
  {
    hide Wrap;
    WrapStep(c.u, s.u, i);
    WrapStep(c.v, s.v, i);
    WrapStep(c.r, s.r, i);
    WrapStep(c.g, s.g, i);
    WrapStep(c.b, s.b, i);
    WrapStep(c.a, s.a, i);
  }

  function Pack(r: Px, g: Px, b: Px): Px
    requires r <= 255 && g <= 255 && b <= 255
  {
    r + g * 0x100 + b * 0x1_0000
  }

  /** The colour of a triangle's pixel, times the texel that its coordinates name. */
  function TriShade(geo: Geometry, p: Prim, c: Attrs): (Px, Px) {
    var r, g, b, a := Clamp255(High(c.r)), Clamp255(High(c.g)), Clamp255(High(c.b)), Clamp255(High(c.a));
    if p.kind.TriTex? then
      var t := geo.texel(p, TexColumn(p.tw, c.u), TexColumn(p.th, c.v));
      TimesSmall(r, Channel(t, 0));
      TimesSmall(g, Channel(t, 1));
      TimesSmall(b, Channel(t, 2));
      (Pack(Mul255(r, Channel(t, 0)), Mul255(g, Channel(t, 1)), Mul255(b, Channel(t, 2))), Mul255(a, Channel(t, 3)))
    else (Pack(r, g, b), a)
  }

  lemma TimesSmall(a: Px, b: Px)
    requires a <= 255 && b <= 255
    ensures Mul255(a, b) <= 255 && (a == 0 ==> Mul255(a, b) == 0)
  {
    hide Mul255, Nearest255;
    Mul255Exact(a, b);
    if a == 0 {
      NoneOf(b);
    }
  }

  lemma NoneOf(b: Px)
    ensures Mul255(0, b) == 0
  {
  }

  /** Colour and alpha the primitive has at column x of row y. */
  function ShadeAt(g: Geometry, p: Prim, y: int, x: int): (Px, Px)
    requires p.x0 <= x
  {
    match p.kind
    case RectSolid => (p.src, p.a)
    case TriFlat => (p.src, p.a)
    case RectTex =>
      var t := g.fetch(p, y, TexColumn(p.tw, USteps(p, x - p.x0)));
      (TintPx(t, p.src), Mul255(Channel(t, 3), p.a))
    case _ => TriShade(g, p, Along(g.start(p, y), g.step(p), x - Left(g, p, y)))
  }

  function PixelStep(g: Geometry, p: Prim, y: int, x: int, d: Px): Px {
    if p.y0 <= y < p.y1 && Left(g, p, y) <= x < Right(g, p, y)
    then var (s, a) := ShadeAt(g, p, y, x); Paint(d, s, a)
    else d
  }

  /** A pixel after the first n primitives are drawn over it in order. */
  function Drawn(g: Geometry, prims: seq<Prim>, n: nat, y: int, x: int, d: Px): Px
    requires n <= |prims|
  {
    if n == 0 then d else PixelStep(g, prims[n - 1], y, x, Drawn(g, prims, n - 1, y, x, d))
  }

  // ---------------------------------------------------------------------------------------
  // Spans and rows

  lemma SpanWord(x: Px, y: Px, h: Px)
    ensures Wrap(Wrap(x + h) + y) == Wrap(x + y + h)
  {
  }

  /** Constant-colour span: columns x0 to x0 + n of row y. */
  method SpanSolid(fb: array2<Px>, y: nat, x0: nat, n: nat, src: Px, a: Px)
    requires y < fb.Length0 && x0 + n <= fb.Length1
    modifies fb
    ensures forall i, j | 0 <= i < fb.Length0 && 0 <= j < fb.Length1 ::
        fb[i, j] == if i == y && x0 <= j < x0 + n then Paint(old(fb[i, j]), src, a) else old(fb[i, j])
  {
    hide BlendPx, FinishBlend, EvenBytes, Wrap;
    if a >= 255 {
      var v := Opaque(src);
      for k := 0 to n
        invariant forall i, j | 0 <= i < fb.Length0 && 0 <= j < fb.Length1 ::
            fb[i, j] == if i == y && x0 <= j < x0 + k then Paint(old(fb[i, j]), src, a) else old(fb[i, j])
      {
        fb[y, x0 + k] := v;
      }
      return;
    }
    if a == 0 {
      return;
    }
    var inv := Wrap(255 - a);
    var srb := Wrap(Wrap(EvenBytes(src) * a) + HALF);
    var sag := Wrap(Wrap(EvenBytes(src / 256) * a) + HALF);
    for k := 0 to n
      invariant forall i, j | 0 <= i < fb.Length0 && 0 <= j < fb.Length1 ::
          fb[i, j] == if i == y && x0 <= j < x0 + k then Paint(old(fb[i, j]), src, a) else old(fb[i, j])
    {
      var dst := fb[y, x0 + k];
      var rb := Wrap(srb + Wrap(EvenBytes(dst) * inv));
      var ag := Wrap(sag + Wrap(EvenBytes(dst / 256) * inv));
      SpanIsBlend(dst, src, a);
      fb[y, x0 + k] := FinishBlend(rb, ag);
    }
  }

  lemma SpanIsBlend(dst: Px, src: Px, a: Px)
    ensures var inv := Wrap(255 - a);
      FinishBlend(
        Wrap(Wrap(Wrap(EvenBytes(src) * a) + HALF) + Wrap(EvenBytes(dst) * inv)),
        Wrap(Wrap(Wrap(EvenBytes(src / 256) * a) + HALF) + Wrap(EvenBytes(dst / 256) * inv)))
      == BlendPx(dst, src, a)
  {
    hide FinishBlend, EvenBytes, Wrap;
    var inv := Wrap(255 - a);
    SpanWord(Wrap(EvenBytes(src) * a), Wrap(EvenBytes(dst) * inv), HALF);
    SpanWord(Wrap(EvenBytes(src / 256) * a), Wrap(EvenBytes(dst / 256) * inv), HALF);
  }

  /** Leaving out the tint by white or the scaling by 255 changes nothing. */
  lemma PlainTexel(d: Px, t: Px, col: Px, ca: Px)
    ensures ca == 255 ==> Mul255(Channel(t, 3), ca) == Channel(t, 3)
    ensures col % 0x100_0000 == 0xFF_FFFF ==>
      forall a: Px :: Paint(d, t, a) == Paint(d, TintPx(t, col), a)
  {
    hide BlendPx, Mul255, Div255, Mix, TintPx, Channel;
    FullMul(Channel(t, 3));
    if col % 0x100_0000 == 0xFF_FFFF {
      WhiteTint(t, col);
      forall a: Px
        ensures Paint(d, t, a) == Paint(d, TintPx(t, col), a)
      {
        if a <= 255 {
          BlendIs(d, t, a);
          BlendIs(d, TintPx(t, col), a);
        }
      }
    }
  }

  lemma FullMul(c: Px)
    requires c <= 255
    ensures Mul255(c, 255) == c
  {
    hide Mul255;
    Mul255Exact(c, 255);
    Nearest255Unique(Mul255(c, 255), c, c * 255);
  }

  lemma WhiteTint(t: Px, col: Px)
    requires col % 0x100_0000 == 0xFF_FFFF
    ensures TintPx(t, col) == t % 0x100_0000
    ensures Channel(TintPx(t, col), 0) == Channel(t, 0)
    ensures Channel(TintPx(t, col), 1) == Channel(t, 1)
    ensures Channel(TintPx(t, col), 2) == Channel(t, 2)
  {
    hide Mul255, Channel;
    White(col);
    WhiteByte(Channel(t, 0));
    WhiteByte(Channel(t, 1));
    WhiteByte(Channel(t, 2));
    LowThree(t);
    Join(Channel(t, 0), Channel(t, 1), Channel(t, 2), 0);
  }

  lemma WhiteByte(c: Px)
    requires c < 256
    ensures Mul255(c, 255) % 256 == c
  {
    hide Mul255;
    FullMul(c);
  }

  lemma LowThree(t: Px)
    ensures t % 0x100_0000 == Channel(t, 0) + Channel(t, 1) * 0x100 + Channel(t, 2) * 0x1_0000
  {
    hide Channel;
    Split(t);
    LowPart(Channel(t, 0) + Channel(t, 1) * 0x100 + Channel(t, 2) * 0x1_0000, Channel(t, 3));
  }

  lemma LowPart(x: nat, h: nat)
    requires x < 0x100_0000
    ensures (x + h * 0x100_0000) % 0x100_0000 == x
  {
  }

  lemma White(col: Px)
    requires col % 0x100_0000 == 0xFF_FFFF
    ensures Channel(col, 0) == 255 && Channel(col, 1) == 255 && Channel(col, 2) == 255
  {
    var h := col / 0x100_0000;
    Join(255, 255, 255, h);
  }

  /** One texel over one pixel; tint and ascale say which factors are not trivial. */
  method TexPixel(p: Prim, d: Px, t: Px, tint: bool, ascale: bool) returns (r: Px)
    requires !tint ==> p.src % 0x100_0000 == 0xFF_FFFF
    requires !ascale ==> p.a == 255
    ensures r == Paint(d, TintPx(t, p.src), Mul255(Channel(t, 3), p.a))
  {
    hide Mul255, TintPx, Paint, Channel;
    PlainTexel(d, t, p.src, p.a);
    var a: Px := Channel(t, 3);
    if ascale {
      a := Mul255(a, p.a);
    }
    var s := if tint then TintPx(t, p.src) else t;
    PaintCases(d, s, a);
    if a == 0 {
      return d;
    }
    r := if a >= 255 then Opaque(s) else BlendPx(d, s, a);
  }

  /** One row of a textured rectangle. */
  method RectTexRow(g: Geometry, p: Prim, fb: array2<Px>, y: nat, tint: bool, ascale: bool)
    requires p.kind.RectTex? && Clipped(p, fb.Length0, fb.Length1) && p.y0 <= y < p.y1
    requires !tint ==> p.src % 0x100_0000 == 0xFF_FFFF
    requires !ascale ==> p.a == 255
    modifies fb
    ensures forall i, j | 0 <= i < fb.Length0 && 0 <= j < fb.Length1 ::
        fb[i, j] == if i == y then PixelStep(g, p, y, j, old(fb[i, j])) else old(fb[i, j])
  {
    hide Mul255, TintPx, Paint, TexColumn, Channel, Wrap;
    var u := p.uFp;
    for k := 0 to p.x1 - p.x0
      invariant u == USteps(p, k)
      invariant forall i, j | 0 <= i < fb.Length0 && 0 <= j < fb.Length1 ::
          fb[i, j] == if i == y && j < p.x0 + k then PixelStep(g, p, y, j, old(fb[i, j])) else old(fb[i, j])
    {
      var t := g.fetch(p, y, TexColumn(p.tw, u));
      var r := TexPixel(p, fb[y, p.x0 + k], t, tint, ascale);
      fb[y, p.x0 + k] := r;
      u := Wrap(u + Wrap(p.duFp));
    }
  }

  lemma PaintCases(d: Px, s: Px, a: Px)
    ensures Paint(d, s, a) == if a == 0 then d else if a >= 255 then Opaque(s) else BlendPx(d, s, a)
  {
  }

  /** One row of an interpolated triangle. */
  method TriRow(g: Geometry, p: Prim, fb: array2<Px>, y: nat)
    requires (p.kind.TriGouraud? || p.kind.TriTex?) && Clipped(p, fb.Length0, fb.Length1) && p.y0 <= y < p.y1
    modifies fb
    ensures forall i, j | 0 <= i < fb.Length0 && 0 <= j < fb.Length1 ::
        fb[i, j] == if i == y then PixelStep(g, p, y, j, old(fb[i, j])) else old(fb[i, j])
  {
    hide Paint, Along, Advance, TriShade;
    var sx, ex := Left(g, p, y), Right(g, p, y);
    if sx >= ex {
      return;
    }
    var step, cur := g.step(p), g.start(p, y);
    AlongStart(cur, step);
    for x := sx to ex
      invariant cur == Along(g.start(p, y), step, x - sx)
      invariant forall i, j | 0 <= i < fb.Length0 && 0 <= j < fb.Length1 ::
          fb[i, j] == if i == y && j < x then PixelStep(g, p, y, j, old(fb[i, j])) else old(fb[i, j])
    {
      var d := TriPixel(g, p, cur, fb[y, x]);
      fb[y, x] := d;
      AlongStep(g.start(p, y), step, x - sx);
      cur := Advance(cur, step);
    }
  }

  /** One pixel of an interpolated triangle. */
  method TriPixel(geo: Geometry, p: Prim, cur: Attrs, d: Px) returns (result: Px)
    requires p.kind.TriGouraud? || p.kind.TriTex?
    ensures var (s, a) := TriShade(geo, p, cur); result == Paint(d, s, a)
  {
    hide BlendPx, Mul255, High, Channel, Clamp255, TexColumn, Pack, Opaque;
    result := d;
    var a := Clamp255(High(cur.a));
    if a != 0 {
      var r, g, b := Clamp255(High(cur.r)), Clamp255(High(cur.g)), Clamp255(High(cur.b));
      if p.kind.TriTex? {
        var tx, ty := TexColumn(p.tw, cur.u), TexColumn(p.th, cur.v);
        var tp := geo.texel(p, tx, ty);
        TimesSmall(r, Channel(tp, 0));
        TimesSmall(g, Channel(tp, 1));
        TimesSmall(b, Channel(tp, 2));
        r, g, b := Mul255(r, Channel(tp, 0)), Mul255(g, Channel(tp, 1)), Mul255(b, Channel(tp, 2));
        a := Mul255(a, Channel(tp, 3));
      }
      if a != 0 {
        var s := Pack(r, g, b);
        result := if a >= 255 then Opaque(s) else BlendPx(d, s, a);
      }
    } else if p.kind.TriTex? {
      TimesSmall(a, Channel(geo.texel(p, TexColumn(p.tw, cur.u), TexColumn(p.th, cur.v)), 3));
    }
  }

  method RenderRow(g: Geometry, p: Prim, fb: array2<Px>, y: nat)
    requires Clipped(p, fb.Length0, fb.Length1) && p.y0 <= y < p.y1
    modifies fb
    ensures forall i, j | 0 <= i < fb.Length0 && 0 <= j < fb.Length1 ::
        fb[i, j] == if i == y then PixelStep(g, p, y, j, old(fb[i, j])) else old(fb[i, j])
  {
    hide Paint;
    match p.kind
    case RectSolid =>
      SpanSolid(fb, y, p.x0, p.x1 - p.x0, p.src, p.a);
    case RectTex =>
      RectTexRow(g, p, fb, y, p.src % 0x100_0000 != 0xFF_FFFF, p.a != 255);
    case TriFlat =>
      var sx, ex := Left(g, p, y), Right(g, p, y);
      if sx < ex {
        SpanSolid(fb, y, sx, ex - sx, p.src, p.a);
      }
    case _ =>
      TriRow(g, p, fb, y);
  }

  /** Draws the rows of a primitive that lie in [ylo, yhi), and touches no others. */
  method RenderPrim(g: Geometry, p: Prim, fb: array2<Px>, ylo: nat, yhi: nat)
    requires Clipped(p, fb.Length0, fb.Length1) && yhi <= fb.Length0
    modifies fb
    ensures forall i, j | 0 <= i < fb.Length0 && 0 <= j < fb.Length1 ::
        fb[i, j] == if ylo <= i < yhi then PixelStep(g, p, i, j, old(fb[i, j])) else old(fb[i, j])
  {
    hide Paint, ShadeAt, Left, Right;
    var y0, y1 := Max(p.y0, ylo), Min(p.y1, yhi);
    if y0 >= y1 {
      return;
    }
    for y := y0 to y1
      invariant forall i, j | 0 <= i < fb.Length0 && 0 <= j < fb.Length1 ::
          fb[i, j] == if ylo <= i < y then PixelStep(g, p, i, j, old(fb[i, j])) else old(fb[i, j])
    {
      RenderRow(g, p, fb, y);
    }
  }
}
