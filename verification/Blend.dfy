/** Packed 32-bit pixels and the two-channels-at-once blend.  Masks and shifts of unsigned
    words are written with division and remainder; sums and products wrap explicitly. */
module Blend {

  type Px = x: int | 0 <= x < 0x1_0000_0000

  /** Byte k of a pixel: red, green, blue, alpha. */
  function Channel(p: Px, k: nat): (c: nat)
    requires k < 4
    ensures c < 256
  {
    if k == 0 then p % 256
    else if k == 1 then p / 0x100 % 256
    else if k == 2 then p / 0x1_0000 % 256
    else p / 0x100_0000
  }

  function Wrap(v: int): Px {
    v % 0x1_0000_0000
  }

  /** v & 0x00FF00FF */
  function EvenBytes(v: Px): (r: Px)
    ensures r <= 0x00FF_00FF
  {
    v % 256 + v / 0x1_0000 % 256 * 0x1_0000
  }

  /** v & 0xFF00FF00 */
  function OddBytes(v: Px): (r: Px)
    ensures r <= 0xFF00_FF00
  {
    v / 0x100 % 256 * 0x100 + v / 0x100_0000 * 0x100_0000
  }

  /** v | 0xFF000000 */
  function Opaque(v: Px): Px {
    v % 0x100_0000 + 0xFF00_0000
  }

  predicate IsOpaque(p: Px) {
    Channel(p, 3) == 255
  }

  function Mul255(a: Px, b: Px): Px {
    MulTail(Wrap(a * b))
  }

  function MulTail(p: Px): Px {
    var t := Wrap(p + 128);
    Wrap(t + t / 256) / 256
  }

  const HALF: Px := 0x0080_0080

  function BlendPx(dst: Px, src: Px, a: Px): Px {
    var inv := Wrap(255 - a);
    var rb := Wrap(Wrap(EvenBytes(src) * a) + Wrap(EvenBytes(dst) * inv) + HALF);
    var ag := Wrap(Wrap(EvenBytes(src / 256) * a) + Wrap(EvenBytes(dst / 256) * inv) + HALF);
    FinishBlend(rb, ag)
  }

  /** The common end of the packed blends: divide both lanes of both words by 255. */
  function FinishBlend(rb: Px, ag: Px): Px {
    var rb' := EvenBytes(Wrap(rb + EvenBytes(rb / 256)) / 256);
    var ag' := OddBytes(Wrap(ag + EvenBytes(ag / 256)));
    Opaque(rb' + ag')
  }

  /** What every rasterizer loop does to one pixel. */
  function Paint(dst: Px, src: Px, a: Px): Px {
    if a == 0 then dst else if a >= 255 then Opaque(src) else BlendPx(dst, src, a)
  }

  // ---------------------------------------------------------------------------------------
  // Rounding

  /** r is the integer nearest to v / 255; the quotient is never half way between two. */
  predicate Nearest255(r: int, v: int) {
    -127 <= 255 * r - v <= 127
  }

  function Div255(v: nat): nat {
    (v + 128 + (v + 128) / 256) / 256
  }

  lemma Div255Exact(v: nat)
    requires v <= 255 * 255
    ensures Nearest255(Div255(v), v) && Div255(v) <= 255
  {
    var t := v + 128;
    var q := t / 256;
    var r := t % 256;
    assert t == 256 * q + r;
    assert Div255(v) == q + (r + q) / 256;
  }

  lemma Nearest255Unique(r: int, s: int, v: int)
    requires Nearest255(r, v) && Nearest255(s, v)
    ensures r == s
  {
  }

  lemma ProductBound(a: nat, b: nat)
    requires a <= 255 && b <= 255
    ensures 0 <= a * b <= 255 * b
  {
  }

  lemma MulTailIs(p: Px)
    requires p <= 255 * 255
    ensures MulTail(p) == Div255(p)
  {
  }

  /** mul255 is the rounded product of two fractions of 255. */
  lemma Mul255Exact(a: Px, b: Px)
    requires a <= 255 && b <= 255
    ensures Nearest255(Mul255(a, b), a * b) && Mul255(a, b) <= 255
  {
    hide MulTail, Div255, Nearest255;
    var p := a * b;
    ProductBound(a, b);
    Div255Exact(p);
    MulTailIs(p);
  }

  // ---------------------------------------------------------------------------------------
  // The packed blend

  function Mix(s: nat, d: nat, a: nat): (v: nat)
    requires s <= 255 && d <= 255 && a <= 255
    ensures v <= 255 * 255
  {
    MixBound(s, d, a);
    s * a + d * (255 - a)
  }

  lemma MixBound(s: nat, d: nat, a: nat)
    requires s <= 255 && d <= 255 && a <= 255
    ensures 0 <= s * a <= 255 * a && 0 <= d * (255 - a) <= 255 * (255 - a)
  {
    ProductBound(s, a);
    ProductBound(d, 255 - a);
  }

  lemma Spread(x: nat, y: nat, a: nat)
    ensures (x + y * 0x1_0000) * a == x * a + y * a * 0x1_0000
  {
    assert y * 0x1_0000 * a == y * a * 0x1_0000;
  }

  lemma WrapSmall(v: int)
    requires 0 <= v < 0x1_0000_0000
    ensures Wrap(v) == v
  {
  }

  /** Two lanes of 16 bits in one word. */
  lemma MixLanes(s0: nat, s1: nat, d0: nat, d1: nat, a: nat)
    requires s0 <= 255 && s1 <= 255 && d0 <= 255 && d1 <= 255 && a <= 255
    ensures Wrap(Wrap((s0 + s1 * 0x1_0000) * a) + Wrap((d0 + d1 * 0x1_0000) * (255 - a)) + HALF)
         == Mix(s0, d0, a) + 128 + (Mix(s1, d1, a) + 128) * 0x1_0000
  {
    hide Wrap;
    Spread(s0, s1, a);
    Spread(d0, d1, 255 - a);
    MixBound(s0, d0, a);
    MixBound(s1, d1, a);
    var p0, p1, q0, q1 := s0 * a, s1 * a, d0 * (255 - a), d1 * (255 - a);
    WrapSmall(p0 + p1 * 0x1_0000);
    WrapSmall(q0 + q1 * 0x1_0000);
    WrapSmall(p0 + p1 * 0x1_0000 + (q0 + q1 * 0x1_0000) + HALF);
  }

  /** Neither lane of either word carries into its neighbour. */
  lemma FinishLanes(v0: nat, v1: nat, v2: nat, v3: nat)
    requires v0 <= 65025 && v1 <= 65025 && v2 <= 65025 && v3 <= 65025
    ensures FinishBlend(v0 + 128 + (v2 + 128) * 0x1_0000, v1 + 128 + (v3 + 128) * 0x1_0000)
         == Div255(v0) + Div255(v1) * 0x100 + Div255(v2) * 0x1_0000 + 0xFF00_0000
  {
    hide Wrap, EvenBytes, OddBytes, Opaque, Nearest255, Div255;
    Div255Exact(v0);
    Div255Exact(v1);
    Div255Exact(v2);
    Div255Exact(v3);
    OpaqueOf(Div255(v0), Div255(v1), Div255(v2), Div255(v3));
    LaneOf(v0, v2);
    LaneOf(v1, v3);
  }

  /** Both lanes of a word divided by 255. */
  lemma LaneOf(v: nat, u: nat)
    requires v <= 65025 && u <= 65025
    ensures var w := v + 128 + (u + 128) * 0x1_0000;
      w < 0x1_0000_0000
      && var x := Wrap(w + EvenBytes(w / 256));
      EvenBytes(x / 256) == Div255(v) + Div255(u) * 0x1_0000
      && OddBytes(x) == Div255(v) * 0x100 + Div255(u) * 0x100_0000
  {
    hide Wrap, EvenBytes, OddBytes;
    LaneSum(v + 128, u + 128);
  }

  lemma OpaqueOf(q0: nat, q1: nat, q2: nat, q3: nat)
    requires q0 <= 255 && q1 <= 255 && q2 <= 255 && q3 <= 255
    ensures Opaque(q0 + q2 * 0x1_0000 + (q1 * 0x100 + q3 * 0x100_0000))
         == q0 + q1 * 0x100 + q2 * 0x1_0000 + 0xFF00_0000
  {
  }

  lemma LaneSum(t: nat, u: nat)
    requires t <= 65153 && u <= 65153
    ensures var w := t + u * 0x1_0000;
      w < 0x1_0000_0000
      && var x := Wrap(w + EvenBytes(w / 256));
      EvenBytes(x / 256) == (t + t / 256) / 256 + (u + u / 256) / 256 * 0x1_0000
      && OddBytes(x) == (t + t / 256) / 256 * 0x100 + (u + u / 256) / 256 * 0x100_0000
  {
    hide Wrap;
    LaneBytes(t, u);
    var x := t + t / 256 + (u + u / 256) * 0x1_0000;
    WrapSmall(x);
    LaneBytes(t + t / 256, u + u / 256);
  }

  lemma LaneBytes(t: nat, u: nat)
    requires t < 0x1_0000 && u < 0x1_0000
    ensures var w := t + u * 0x1_0000;
      w < 0x1_0000_0000
      && EvenBytes(w / 256) == t / 256 + u / 256 * 0x1_0000
      && OddBytes(w) == t / 256 * 0x100 + u / 256 * 0x100_0000
  {
    var w := t + u * 0x1_0000;
    assert w / 256 == t / 256 + u * 256;
    assert w / 256 / 0x1_0000 == u / 256 && w / 0x100_0000 == u / 256;
    assert w / 256 % 256 == t / 256;
  }

  /** Every colour channel of the blend is the exactly rounded mix of its two inputs, and the
      result is opaque. */
  lemma BlendExact(dst: Px, src: Px, a: Px, k: nat)
    requires a <= 255 && k < 4
    ensures k < 3 ==> Nearest255(Channel(BlendPx(dst, src, a), k), Channel(src, k) * a + Channel(dst, k) * (255 - a))
    ensures k == 3 ==> Channel(BlendPx(dst, src, a), k) == 255
  {
    BlendIs(dst, src, a);
    var v0 := Mix(Channel(src, 0), Channel(dst, 0), a);
    var v1 := Mix(Channel(src, 1), Channel(dst, 1), a);
    var v2 := Mix(Channel(src, 2), Channel(dst, 2), a);
    Div255Exact(v0);
    Div255Exact(v1);
    Div255Exact(v2);
    Join(Div255(v0), Div255(v1), Div255(v2), 255);
  }

  lemma BlendIs(dst: Px, src: Px, a: Px)
    requires a <= 255
    ensures BlendPx(dst, src, a)
         == Div255(Mix(Channel(src, 0), Channel(dst, 0), a))
            + Div255(Mix(Channel(src, 1), Channel(dst, 1), a)) * 0x100
            + Div255(Mix(Channel(src, 2), Channel(dst, 2), a)) * 0x1_0000
            + 0xFF00_0000
  {
    hide FinishBlend, Div255, Mix, Wrap, EvenBytes, Channel;
    WrapSmall(255 - a);
    MixLanes(Channel(src, 0), Channel(src, 2), Channel(dst, 0), Channel(dst, 2), a);
    MixLanes(Channel(src, 1), Channel(src, 3), Channel(dst, 1), Channel(dst, 3), a);
    HighBytes(src);
    HighBytes(dst);
    FinishLanes(Mix(Channel(src, 0), Channel(dst, 0), a), Mix(Channel(src, 1), Channel(dst, 1), a),
      Mix(Channel(src, 2), Channel(dst, 2), a), Mix(Channel(src, 3), Channel(dst, 3), a));
  }

  lemma HighBytes(p: Px)
    ensures EvenBytes(p) == Channel(p, 0) + Channel(p, 2) * 0x1_0000
    ensures EvenBytes(p / 256) == Channel(p, 1) + Channel(p, 3) * 0x1_0000
  {
    assert p / 256 / 0x1_0000 == p / 0x100_0000;
  }

  lemma Join(c0: nat, c1: nat, c2: nat, c3: nat)
    requires c0 < 256 && c1 < 256 && c2 < 256 && c3 < 256
    ensures var p: Px := c0 + c1 * 0x100 + c2 * 0x1_0000 + c3 * 0x100_0000;
      Channel(p, 0) == c0 && Channel(p, 1) == c1 && Channel(p, 2) == c2 && Channel(p, 3) == c3
  {
    var p: Px := c0 + c1 * 0x100 + c2 * 0x1_0000 + c3 * 0x100_0000;
    assert p / 0x100 == c1 + c2 * 0x100 + c3 * 0x1_0000;
    assert p / 0x1_0000 == c2 + c3 * 0x100;
    assert p / 0x100_0000 == c3;
  }

  /** A pixel is its four channels. */
  lemma Split(p: Px)
    ensures p == Channel(p, 0) + Channel(p, 1) * 0x100 + Channel(p, 2) * 0x1_0000 + Channel(p, 3) * 0x100_0000
  {
    var q := p / 0x100;
    var r := q / 0x100;
    assert p / 0x1_0000 == r && p / 0x100_0000 == r / 0x100;
  }

  /** The shortcuts for alpha 0 and alpha 255 are what the blend gives on opaque pixels, and
      painting keeps a pixel opaque. */
  lemma PaintIsBlend(dst: Px, src: Px, a: Px)
    requires IsOpaque(dst) && a <= 255
    ensures Paint(dst, src, a) == BlendPx(dst, src, a) && IsOpaque(Paint(dst, src, a))
  {
    hide BlendPx, Div255, Mix;
    BlendExact(dst, src, a, 3);
    BlendIs(dst, src, a);
    Split(dst);
    Split(src);
    forall k | 0 <= k < 3
      ensures a == 0 ==> Div255(Mix(Channel(src, k), Channel(dst, k), a)) == Channel(dst, k)
      ensures a == 255 ==> Div255(Mix(Channel(src, k), Channel(dst, k), a)) == Channel(src, k)
    {
      MixEnds(Channel(src, k), Channel(dst, k));
    }
  }

  lemma MixEnds(s: nat, d: nat)
    requires s <= 255 && d <= 255
    ensures Div255(Mix(s, d, 0)) == d && Div255(Mix(s, d, 255)) == s
  {
    Div255Exact(255 * d);
    Div255Exact(255 * s);
    Nearest255Unique(Div255(255 * d), d, 255 * d);
    Nearest255Unique(Div255(255 * s), s, 255 * s);
  }
}
