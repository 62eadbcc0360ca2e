/** Making the image of a PNG file from its inflated data, interlaced or not. */
module Png {
  import opened BitStream
  import opened PngFilter
  import opened PngRow
  import opened PngSamples
  import opened PngOutput
  import opened Adam7

  const INT_MAX: nat := 0x7fff_ffff

  /** How pixels are stored in the file and in the output. */
  datatype Format = Format(imgN: nat, outN: nat, depth: nat, color: nat)

  predicate FormatOk(f: Format) {
    DepthOk(f.depth) && Channels(f.imgN, f.outN)
  }

  function SampleBytes(f: Format): (n: nat)
    ensures n > 0
  {
    if f.depth == 16 then 2 else 1
  }

  /** The bytes of a row of x pixels. */
  function Width(f: Format, x: nat): nat {
    BytesFor(Index(x, f.imgN, 0), f.depth)
  }

  /** The distance of a byte to the one filters take for its left neighbour. */
  function Distance(f: Format): (d: nat)
    ensures d > 0
  {
    if f.depth < 8 || f.imgN == 0 then 1 else f.imgN * SampleBytes(f)
  }

  // The guards against sizes that do not fit an int.

  predicate MulFits(a: nat, b: nat) {
    b == 0 || a <= INT_MAX / b
  }

  predicate Mad2Fits(a: nat, b: nat, add: nat) {
    MulFits(a, b) && a * b <= INT_MAX - add
  }

  predicate Mad3Fits(a: nat, b: nat, c: nat, add: nat) {
    MulFits(a, b) && MulFits(a * b, c) && a * b * c <= INT_MAX - add
  }

  predicate SizesFit(f: Format, x: nat, y: nat) {
    && Mad3Fits(x, y, f.outN * SampleBytes(f), 0)
    && Mad3Fits(f.imgN, x, f.depth, 7)
    && Mad2Fits(Width(f, x), y, Width(f, x))
    && Mad2Fits(Width(f, x), 2, 0)
  }

  /** The data from at on hold x by y pixels: they are long enough and name known filters. */
  ghost predicate RawOk(data: seq<byte>, at: nat, f: Format, x: nat, y: nat) {
    && SizesFit(f, x, y)
    && RowStart(at, Width(f, x), y) <= |data|
    && FiltersOk(data, at, Width(f, x), y)
  }

  ghost predicate FiltersOk(data: seq<byte>, at: nat, w: nat, n: nat) {
    forall j: nat | j < n :: FilterOk(data, RowStart(at, w, j))
  }

  predicate FilterOk(data: seq<byte>, p: nat) {
    p < |data| && data[p] <= PAETH
  }

  /** The output values of row j. */
  function RowValues(data: seq<byte>, at: nat, f: Format, x: nat, j: nat): seq<nat> {
    Values(RowAt(data, at, Width(f, x), Distance(f), j), Index(x, f.imgN, 0), f.depth, f.color)
  }

  ghost predicate RowDone(out: array2<nat>, data: seq<byte>, at: nat, f: Format, x: nat, j: nat)
    reads out
  {
    j < out.Length0 && RowShows(RowOf(out, j), x, f.imgN, f.outN, Opaque(f.depth), RowValues(data, at, f, x, j))
  }

  lemma RowFits(f: Format, x: nat)
    requires FormatOk(f) && x > 0
    ensures Distance(f) <= Width(f, x)
  {
    Ordered(1, x, f.imgN);
  }

  class Png {
    const imgX: nat
    const imgY: nat
    const imgN: nat
    var out: array2<nat>

    constructor (imgX: nat, imgY: nat, imgN: nat)
      ensures this.imgX == imgX && this.imgY == imgY && this.imgN == imgN
    {
      this.imgX, this.imgY, this.imgN := imgX, imgY, imgN;
      out := new nat[0, 0];
    }

    /** Rebuilds and expands x by y pixels from the data at a position. */
    method CreateRaw(data: seq<byte>, at: nat, outN: nat, x: nat, y: nat, depth: nat, color: nat) returns (ok: bool)
      requires x > 0 && at <= |data| && FormatOk(Format(imgN, outN, depth, color))
      modifies this`out
      ensures var f := Format(imgN, outN, depth, color);
        && (ok <==> RawOk(data, at, f, x, y))
        && (ok ==> fresh(out) && out.Length0 == y && out.Length1 == Index(x, outN, 0)
                   && forall j: nat | j < y :: RowDone(out, data, at, f, x, j))
    {
      hide RowDone, SizesFit, RowAt, Width, Distance, FormatOk, Index, FilterOk, FiltersOk;
      var f := Format(imgN, outN, depth, color);
      if !SizesFit(f, x, y) {
        return false;
      }
      var w := Width(f, x);
      out := new nat[y, Index(x, outN, 0)];
      RowStartIs(at, w, y);
      if |data| - at < (w + 1) * y {
        return false;
      }
      ok := FillRows(data, at, f, x, y, out);
    }

    /** Makes the whole image.  An interlaced one is made pass by pass. */
    method CreateImage(data: seq<byte>, outN: nat, depth: nat, color: nat, interlaced: bool) returns (ok: bool)
      requires imgX > 0 && imgY > 0 && FormatOk(Format(imgN, outN, depth, color))
      modifies this`out
      ensures var f := Format(imgN, outN, depth, color);
        !interlaced ==>
          && (ok <==> RawOk(data, 0, f, imgX, imgY))
          && (ok ==> out.Length0 == imgY && out.Length1 == Index(imgX, outN, 0)
                     && forall j: nat | j < imgY :: RowDone(out, data, 0, f, imgX, j))
      ensures var f := Format(imgN, outN, depth, color);
        interlaced ==>
          && (ok <==> InterlacedOk(data, f, imgX, imgY))
          && (ok ==> out.Length0 == imgY && out.Length1 == Index(imgX, outN, 0)
                     && forall r: nat, c: nat | r < imgY && c < imgX :: Right(out, data, f, imgX, imgY, r, c))
    {
      hide *;
      var f := Format(imgN, outN, depth, color);
      if !interlaced {
        ok := CreateRaw(data, 0, outN, imgX, imgY, depth, color);
        return;
      }
      if !Mad3Fits(imgX, imgY, FormatBytes(f), 0) {
        NotInterlaced(data, f, imgX, imgY, 0);
        return false;
      }
      HasChannels(f);
      var final := new nat[imgY, Index(imgX, outN, 0)];
      var at := 0;
      StartPasses(final, data, f, imgX, imgY);
      for p := 0 to 7
        invariant fresh(final) && final.Length0 == imgY && final.Length1 == Index(imgX, outN, 0)
        invariant at == PassStart(f, imgX, imgY, p)
        invariant PassesOk(data, f, imgX, imgY, p) && AllRight(final, data, f, imgX, imgY, p)
      {
        ok, at := OnePass(final, data, at, f, p);
        if !ok {
          NotInterlaced(data, f, imgX, imgY, p);
          return;
        }
      }
      out := final;
      EndPasses(final, data, f, imgX, imgY);
      ok := true;
    }

    /** Makes one pass and spreads it over the image. */
    method OnePass(final: array2<nat>, data: seq<byte>, at: nat, f: Format, p: nat) returns (ok: bool, at': nat)
      requires p < 7 && imgX > 0 && imgY > 0 && FormatOk(f) && f.outN > 0 && f.imgN == imgN
      requires final.Length0 == imgY && final.Length1 == Index(imgX, f.outN, 0)
      requires at == PassStart(f, imgX, imgY, p)
      requires PassesOk(data, f, imgX, imgY, p) && AllRight(final, data, f, imgX, imgY, p)
      modifies this`out, final
      ensures ok <==> PassOk(data, f, imgX, imgY, p)
      ensures ok ==> at' == PassStart(f, imgX, imgY, p + 1)
      ensures ok ==> PassesOk(data, f, imgX, imgY, p + 1) && AllRight(final, data, f, imgX, imgY, p + 1)
    {
      hide *;
      var x, y := PassWidth(p, imgX), PassHeight(p, imgY);
      at' := at;
      PassStartIs(f, imgX, imgY, p);
      PassesNext(data, f, imgX, imgY, p);
      if x != 0 && y != 0 {
        WithinData(data, f, imgX, imgY, p);
        ok := CreateRaw(data, at, f.outN, x, y, f.depth, f.color);
        if !ok {
          return;
        }
        PlacePass(final, out, data, f, imgX, imgY, p);
        RowStartIs(at, Width(f, x), y);
        at' := at + (Width(f, x) + 1) * y;
      } else {
        ok := true;
        NothingThere(final, data, f, imgX, imgY, p);
      }
    }
  }

  lemma HasChannels(f: Format)
    requires FormatOk(f)
    ensures f.outN > 0
  {
  }

  function FormatBytes(f: Format): nat {
    f.outN * SampleBytes(f)
  }

  // ---------------------------------------------------------------------------------------
  // Passes

  /** Where the data of a pass begin: passes without pixels have none. */
  function PassStart(f: Format, w: nat, h: nat, p: nat): nat
    requires p <= 7 && w > 0 && h > 0
  {
    if p == 0 then 0
    else
      var at := PassStart(f, w, h, p - 1);
      var x, y := PassWidth(p - 1, w), PassHeight(p - 1, h);
      if x == 0 || y == 0 then at else RowStart(at, Width(f, x), y)
  }

  ghost predicate PassOk(data: seq<byte>, f: Format, w: nat, h: nat, p: nat)
    requires p < 7 && w > 0 && h > 0
  {
    var x, y := PassWidth(p, w), PassHeight(p, h);
    x == 0 || y == 0 || RawOk(data, PassStart(f, w, h, p), f, x, y)
  }

  ghost predicate PassesOk(data: seq<byte>, f: Format, w: nat, h: nat, n: nat)
    requires n <= 7 && w > 0 && h > 0
  {
    forall p: nat | p < n :: PassOk(data, f, w, h, p)
  }

  ghost predicate InterlacedOk(data: seq<byte>, f: Format, w: nat, h: nat)
    requires w > 0 && h > 0
  {
    Mad3Fits(w, h, FormatBytes(f), 0) && PassesOk(data, f, w, h, 7)
  }

  /** A pixel of the output shows pixel i of a row of values. */
  ghost predicate PixelFrom(r: seq<nat>, c: nat, f: Format, v: seq<nat>, i: nat) {
    forall k: nat | k < f.outN :: ChannelFrom(r, c, f, v, i, k)
  }

  ghost predicate ChannelFrom(r: seq<nat>, c: nat, f: Format, v: seq<nat>, i: nat, k: nat) {
    && Index(c, f.outN, k) < |r|
    && if k < f.imgN then Index(i, f.imgN, k) < |v| && r[Index(c, f.outN, k)] == v[Index(i, f.imgN, k)]
       else r[Index(c, f.outN, k)] == Opaque(f.depth)
  }

  /** Pixel (r, c) of the image is the one its pass has at its place. */
  ghost predicate Right(out: array2<nat>, data: seq<byte>, f: Format, w: nat, h: nat, r: nat, c: nat)
    requires w > 0 && h > 0
    reads out
  {
    var p := PassOf(r, c);
    && p < 7 && RowIn(p, r) >= 0 && ColIn(p, c) >= 0 && r < out.Length0
    && PixelFrom(RowOf(out, r), c, f, RowValues(data, PassStart(f, w, h, p), f, PassWidth(p, w), RowIn(p, r)), ColIn(p, c))
  }

  /** The pixels of the first passes are right. */
  ghost predicate AllRight(out: array2<nat>, data: seq<byte>, f: Format, w: nat, h: nat, p: nat)
    requires w > 0 && h > 0
    reads out
  {
    forall r: nat, c: nat | r < h && c < w && PassOf(r, c) < p :: Right(out, data, f, w, h, r, c)
  }

  /** As are, of pass p, those before column i of row j. */
  ghost predicate RightUpTo(out: array2<nat>, data: seq<byte>, f: Format, w: nat, h: nat, p: nat, j: nat, i: nat)
    requires w > 0 && h > 0 && p < 7
    reads out
  {
    forall r: nat, c: nat | r < h && c < w && Placed(p, j, i, r, c) :: Right(out, data, f, w, h, r, c)
  }

  predicate Placed(p: nat, j: nat, i: nat, r: nat, c: nat)
    requires p < 7
  {
    PassOf(r, c) < p || (PassOf(r, c) == p && (RowIn(p, r) < j || (RowIn(p, r) == j && ColIn(p, c) < i)))
  }

  lemma NotInterlaced(data: seq<byte>, f: Format, w: nat, h: nat, p: nat)
    requires w > 0 && h > 0 && p < 7
    requires !Mad3Fits(w, h, FormatBytes(f), 0) || !PassOk(data, f, w, h, p)
    ensures !InterlacedOk(data, f, w, h)
  {
    hide PassOk;
  }

  lemma PassesNext(data: seq<byte>, f: Format, w: nat, h: nat, p: nat)
    requires w > 0 && h > 0 && p < 7 && PassesOk(data, f, w, h, p)
    ensures PassOk(data, f, w, h, p) ==> PassesOk(data, f, w, h, p + 1)
    ensures var x, y := PassWidth(p, w), PassHeight(p, h);
      if x == 0 || y == 0 then PassOk(data, f, w, h, p)
      else PassOk(data, f, w, h, p) <==> RawOk(data, PassStart(f, w, h, p), f, x, y)
  {
    hide RawOk, PassStart, PassWidth, PassHeight;
  }

  lemma PassStartIs(f: Format, w: nat, h: nat, p: nat)
    requires w > 0 && h > 0 && p < 7
    ensures var x, y := PassWidth(p, w), PassHeight(p, h);
      PassStart(f, w, h, p + 1) ==
        if x == 0 || y == 0 then PassStart(f, w, h, p) else RowStart(PassStart(f, w, h, p), Width(f, x), y)
  {
    hide RowStart, PassWidth, PassHeight, Width;
  }

  lemma {:induction false} WithinData(data: seq<byte>, f: Format, w: nat, h: nat, p: nat)
    requires w > 0 && h > 0 && p < 7 && PassesOk(data, f, w, h, p)
    ensures PassStart(f, w, h, p) <= |data|
  {
    hide RowStart, PassWidth, PassHeight, Width, SizesFit;
    if p == 0 {
    } else {
      WithinData(data, f, w, h, p - 1);
      assert PassOk(data, f, w, h, p - 1);
    }
  }

  lemma StartPasses(out: array2<nat>, data: seq<byte>, f: Format, w: nat, h: nat)
    requires w > 0 && h > 0
    ensures PassStart(f, w, h, 0) == 0 && PassesOk(data, f, w, h, 0) && AllRight(out, data, f, w, h, 0)
  {
    hide PassOk, Right;
  }

  lemma EndPasses(out: array2<nat>, data: seq<byte>, f: Format, w: nat, h: nat)
    requires w > 0 && h > 0 && PassesOk(data, f, w, h, 7) && AllRight(out, data, f, w, h, 7)
    requires Mad3Fits(w, h, FormatBytes(f), 0)
    ensures InterlacedOk(data, f, w, h)
    ensures forall r: nat, c: nat | r < h && c < w :: Right(out, data, f, w, h, r, c)
  {
    hide PassOk, Right, Mad3Fits, PassOf;
    forall r: nat, c: nat | r < h && c < w
      ensures Right(out, data, f, w, h, r, c)
    {
      PixelPass(r, c);
    }
  }

  /** A pass without rows or columns has no pixels in the image. */
  lemma NothingThere(out: array2<nat>, data: seq<byte>, f: Format, w: nat, h: nat, p: nat)
    requires w > 0 && h > 0 && p < 7 && (PassWidth(p, w) == 0 || PassHeight(p, h) == 0)
    requires AllRight(out, data, f, w, h, p)
    ensures AllRight(out, data, f, w, h, p + 1)
  {
    hide Right, PassOf, PassWidth, PassHeight, RowIn, ColIn, XAt, YAt;
    forall r: nat, c: nat | r < h && c < w && PassOf(r, c) < p + 1
      ensures Right(out, data, f, w, h, r, c)
    {
      if PassOf(r, c) == p {
        InPass(r, c, w, h);
      }
    }
  }

  lemma InPass(r: nat, c: nat, w: nat, h: nat)
    requires r < h && c < w
    ensures var p := PassOf(r, c);
      p < 7 && 0 <= RowIn(p, r) < PassHeight(p, h) && 0 <= ColIn(p, c) < PassWidth(p, w)
      && r == YAt(p, RowIn(p, r)) && c == XAt(p, ColIn(p, c))
  {
    hide PassOf, PassWidth, PassHeight, RowIn, ColIn, XAt, YAt;
    var p := PassOf(r, c);
    PixelPass(r, c);
    PassSize(p, w, ColIn(p, c));
    PassSize(p, h, RowIn(p, r));
  }

  /** Puts every pixel of a pass where it belongs. */
  method PlacePass(final: array2<nat>, src: array2<nat>, ghost data: seq<byte>, f: Format, w: nat, h: nat, p: nat)
    requires w > 0 && h > 0 && p < 7 && final != src && f.outN > 0
    requires final.Length0 == h && final.Length1 == Index(w, f.outN, 0)
    requires src.Length0 == PassHeight(p, h) && src.Length1 == Index(PassWidth(p, w), f.outN, 0)
    requires forall j: nat | j < src.Length0 ::
      RowDone(src, data, PassStart(f, w, h, p), f, PassWidth(p, w), j)
    requires AllRight(final, data, f, w, h, p)
    modifies final
    ensures AllRight(final, data, f, w, h, p + 1)
  {
    hide *;
    PassBegin(final, data, f, w, h, p);
    for j := 0 to PassHeight(p, h)
      invariant RightUpTo(final, data, f, w, h, p, j, 0)
    {
      for i := 0 to PassWidth(p, w)
        invariant RightUpTo(final, data, f, w, h, p, j, i)
      {
        PlacePixel(final, src, data, f, w, h, p, j, i);
      }
      RowEnd(final, data, f, w, h, p, j);
    }
    PassEnd(final, data, f, w, h, p);
  }

  lemma PassBegin(out: array2<nat>, data: seq<byte>, f: Format, w: nat, h: nat, p: nat)
    requires w > 0 && h > 0 && p < 7 && AllRight(out, data, f, w, h, p)
    ensures RightUpTo(out, data, f, w, h, p, 0, 0)
  {
    hide Right, PassOf, PassWidth, PassHeight, RowIn, ColIn, XAt, YAt;
    forall r: nat, c: nat | r < h && c < w && Placed(p, 0, 0, r, c)
      ensures Right(out, data, f, w, h, r, c)
    {
      InPass(r, c, w, h);
    }
  }

  lemma RowEnd(out: array2<nat>, data: seq<byte>, f: Format, w: nat, h: nat, p: nat, j: nat)
    requires w > 0 && h > 0 && p < 7 && RightUpTo(out, data, f, w, h, p, j, PassWidth(p, w))
    ensures RightUpTo(out, data, f, w, h, p, j + 1, 0)
  {
    hide Right, PassOf, PassWidth, PassHeight, RowIn, ColIn, XAt, YAt;
    forall r: nat, c: nat | r < h && c < w && Placed(p, j + 1, 0, r, c)
      ensures Right(out, data, f, w, h, r, c)
    {
      InPass(r, c, w, h);
      assert Placed(p, j, PassWidth(p, w), r, c);
    }
  }

  lemma PassEnd(out: array2<nat>, data: seq<byte>, f: Format, w: nat, h: nat, p: nat)
    requires w > 0 && h > 0 && p < 7 && RightUpTo(out, data, f, w, h, p, PassHeight(p, h), 0)
    ensures AllRight(out, data, f, w, h, p + 1)
  {
    hide Right, PassOf, PassWidth, PassHeight, RowIn, ColIn, XAt, YAt;
    forall r: nat, c: nat | r < h && c < w && PassOf(r, c) < p + 1
      ensures Right(out, data, f, w, h, r, c)
    {
      InPass(r, c, w, h);
      assert Placed(p, PassHeight(p, h), 0, r, c);
    }
  }

  ghost predicate Copied(final: array2<nat>, r: nat, to: nat, src: array2<nat>, j: nat, from: nat, n: nat)
    reads final, src
  {
    && r < final.Length0 && j < src.Length0 && to + n <= final.Length1 && from + n <= src.Length1
    && forall k: nat | k < n :: SameAt(RowOf(final, r), to, RowOf(src, j), from, k)
  }

  predicate SameAt(r: seq<nat>, to: nat, s: seq<nat>, from: nat, k: nat) {
    to + k < |r| && from + k < |s| && r[to + k] == s[from + k]
  }

  /** Copies a pixel of n channels. */
  method CopyPixel(final: array2<nat>, r: nat, c: nat, src: array2<nat>, j: nat, i: nat, n: nat)
    requires final != src && r < final.Length0 && j < src.Length0
    requires Index(c, n, 0) + n <= final.Length1 && Index(i, n, 0) + n <= src.Length1
    modifies final
    ensures Copied(final, r, Index(c, n, 0), src, j, Index(i, n, 0), n)
    ensures forall a: nat, b: nat | a < final.Length0 && b < final.Length1 ::
      !(a == r && Index(c, n, 0) <= b < Index(c, n, 0) + n) ==> final[a, b] == old(final[a, b])
  {
    hide Index, RowOf;
    var to, from := Index(c, n, 0), Index(i, n, 0);
    for k := 0 to n
      invariant forall b: nat | to <= b < to + k :: final[r, b] == src[j, b - to + from]
      invariant forall a: nat, b: nat | a < final.Length0 && b < final.Length1 ::
        !(a == r && to <= b < to + n) ==> final[a, b] == old(final[a, b])
    {
      final[r, to + k] := src[j, from + k];
    }
    forall k: nat | k < n
      ensures SameAt(RowOf(final, r), to, RowOf(src, j), from, k)
    {
      assert final[r, to + k] == src[j, to + k - to + from];
    }
  }

  /** Puts one pixel where it belongs. */
  method PlacePixel(final: array2<nat>, src: array2<nat>, ghost data: seq<byte>, f: Format, w: nat, h: nat,
    p: nat, j: nat, i: nat)
    requires w > 0 && h > 0 && p < 7 && final != src && f.outN > 0
    requires j < PassHeight(p, h) && i < PassWidth(p, w)
    requires final.Length0 == h && final.Length1 == Index(w, f.outN, 0)
    requires src.Length0 == PassHeight(p, h) && src.Length1 == Index(PassWidth(p, w), f.outN, 0)
    requires RowDone(src, data, PassStart(f, w, h, p), f, PassWidth(p, w), j)
    requires RightUpTo(final, data, f, w, h, p, j, i)
    modifies final
    ensures RightUpTo(final, data, f, w, h, p, j, i + 1)
  {
    hide PassOf, PassWidth, PassHeight, RowIn, ColIn, XAt, YAt, PassStart, RowValues, PixelFrom, RowOf, Index, Placed, Copied;
    var y, x := YAt(p, j), XAt(p, i);
    Fits(p, w, i, h, j, f.outN);
    ghost var before := RowOf(final, y);
    CopyPixel(final, y, x, src, j, i, f.outN);
    ghost var after := RowOf(final, y);
    NewPixel(final, y, x, src, data, PassStart(f, w, h, p), f, PassWidth(p, w), j, i);
    PassPixel(p, j, i);
    PositionBack(p, j, i);
    forall r: nat, c: nat | r < h && c < w && Placed(p, j, i + 1, r, c)
      ensures Right(final, data, f, w, h, r, c)
    {
      if r != y || c != x {
        PlacedBefore(p, j, i, r, c);
        assert old(Right(final, data, f, w, h, r, c));
        if r != y {
          assert RowOf(final, r) == old(RowOf(final, r));
        } else {
          var q := PassOf(r, c);
          KeptPixel(before, after, c, x, f,
            RowValues(data, PassStart(f, w, h, q), f, PassWidth(q, w), RowIn(q, r)), ColIn(q, c));
        }
      }
    }
  }

  lemma PlacedBefore(p: nat, j: nat, i: nat, r: nat, c: nat)
    requires p < 7 && Placed(p, j, i + 1, r, c) && (r != YAt(p, j) || c != XAt(p, i))
    ensures Placed(p, j, i, r, c)
  {
    hide PassOf, RowIn, ColIn, XAt, YAt;
    PixelPass(r, c);
  }

  /** The pixel just copied is the one of its row of values. */
  lemma NewPixel(final: array2<nat>, y: nat, x: nat, src: array2<nat>, data: seq<byte>, at: nat, f: Format,
    width: nat, j: nat, i: nat)
    requires RowDone(src, data, at, f, width, j) && i < width
    requires Copied(final, y, Index(x, f.outN, 0), src, j, Index(i, f.outN, 0), f.outN)
    ensures PixelFrom(RowOf(final, y), x, f, RowValues(data, at, f, width, j), i)
  {
    hide RowValues, RowOf;
    var r, s, v := RowOf(final, y), RowOf(src, j), RowValues(data, at, f, width, j);
    assert PixelShows(s, i, f.imgN, f.outN, Opaque(f.depth), v);
    forall k: nat | k < f.outN
      ensures ChannelFrom(r, x, f, v, i, k)
    {
      assert ChannelShows(s, i, f.imgN, f.outN, Opaque(f.depth), v, k);
      assert SameAt(r, Index(x, f.outN, 0), s, Index(i, f.outN, 0), k);
    }
  }

  /** Other pixels of the row stay. */
  lemma KeptPixel(before: seq<nat>, after: seq<nat>, c: nat, x: nat, f: Format, v: seq<nat>, i: nat)
    requires PixelFrom(before, c, f, v, i) && c != x && |after| == |before|
    requires forall b: nat | b < |before| && !(Index(x, f.outN, 0) <= b < Index(x, f.outN, 0) + f.outN) ::
      after[b] == before[b]
    ensures PixelFrom(after, c, f, v, i)
  {
    forall k: nat | k < f.outN
      ensures ChannelFrom(after, c, f, v, i, k)
    {
      assert ChannelFrom(before, c, f, v, i, k);
      if c < x {
        IndexNext(c, x, f.outN);
      } else {
        IndexNext(x, c, f.outN);
      }
    }
  }

  lemma Fits(p: nat, w: nat, i: nat, h: nat, j: nat, n: nat)
    requires w > 0 && h > 0 && p < 7 && i < PassWidth(p, w) && j < PassHeight(p, h) && n > 0
    ensures XAt(p, i) < w && YAt(p, j) < h
    ensures Index(XAt(p, i), n, 0) + n <= Index(w, n, 0) && Index(i, n, 0) + n <= Index(PassWidth(p, w), n, 0)
  {
    hide PassWidth, PassHeight, XAt, YAt;
    PassSize(p, w, i);
    PassSize(p, h, j);
    IndexNext(XAt(p, i), w, n);
    IndexNext(i, PassWidth(p, w), n);
  }

  lemma IndexNext(i: nat, x: nat, n: nat)
    requires i < x
    ensures Index(i, n, 0) + n <= Index(x, n, 0)
  {
    Ordered(i + 1, x, n);
    assert (i + 1) * n == i * n + n;
  }

  /** The half of the buffer that row j does not use holds the row. */
  ghost predicate PriorIs(buf: array<byte>, w: nat, j: nat, row: seq<byte>)
    reads buf
  {
    buf.Length == 2 * w && if j % 2 == 0 then buf[w..2 * w] == row else buf[0..w] == row
  }

  lemma RowStartNext(at: nat, w: nat, j: nat, y: nat)
    requires j < y
    ensures RowStart(at, w, j + 1) == RowStart(at, w, j) + w + 1 <= RowStart(at, w, y)
  {
    RowStartMono(at, w, j, y);
  }

  /** Rebuilds and expands the rows one after the other. */
  method FillRows(data: seq<byte>, at: nat, f: Format, x: nat, y: nat, out: array2<nat>) returns (ok: bool)
    requires x > 0 && FormatOk(f) && RowStart(at, Width(f, x), y) <= |data|
    requires out.Length0 == y && out.Length1 == Index(x, f.outN, 0)
    modifies out
    ensures ok <==> FiltersOk(data, at, Width(f, x), y)
    ensures ok ==> forall j: nat | j < y :: RowDone(out, data, at, f, x, j)
  {
    hide RowDone, RowAt, Width, Distance, FormatOk, Index, FilterOk, RowStart, PriorIs;
    var w := Width(f, x);
    RowFits(f, x);
    var buf := new byte[2 * w];
    var pos := at;
    RowStartZero(at, w);
    for j := 0 to y
      invariant pos == RowStart(at, w, j)
      invariant j > 0 ==> PriorIs(buf, w, j, RowAt(data, at, w, Distance(f), j - 1))
      invariant FiltersOk(data, at, w, j) && forall i: nat | i < j :: RowDone(out, data, at, f, x, i)
    {
      RowStartNext(at, w, j, y);
      ok := OneRow(data, at, pos, f, x, j, buf, out);
      if !ok {
        return;
      }
      pos := pos + w + 1;
    }
    ok := true;
  }

  lemma RowStartZero(at: nat, w: nat)
    ensures RowStart(at, w, 0) == at
  {
  }

  /** Rebuilds and expands one row. */
  method OneRow(data: seq<byte>, ghost at: nat, pos: nat, f: Format, x: nat, j: nat, buf: array<byte>, out: array2<nat>)
    returns (ok: bool)
    requires x > 0 && FormatOk(f) && pos == RowStart(at, Width(f, x), j) && pos + 1 + Width(f, x) <= |data|
    requires buf.Length == 2 * Width(f, x) && j < out.Length0 && out.Length1 == Index(x, f.outN, 0)
    requires j > 0 ==> PriorIs(buf, Width(f, x), j, RowAt(data, at, Width(f, x), Distance(f), j - 1))
    requires forall i: nat | i < j :: RowDone(out, data, at, f, x, i)
    modifies buf, out
    ensures ok <==> FilterOk(data, pos)
    ensures ok ==> PriorIs(buf, Width(f, x), j + 1, RowAt(data, at, Width(f, x), Distance(f), j))
    ensures ok ==> forall i: nat | i < j + 1 :: RowDone(out, data, at, f, x, i)
  {
    hide RowAt, Values, RowShows, ReconRow, Index;
    var w, bpp := Width(f, x), Distance(f);
    RowFits(f, x);
    var filter := data[pos];
    if filter > PAETH {
      return false;
    }
    ghost var above := RowAbove(data, at, w, bpp, j);
    UnfilterRow(buf, j, filter, bpp, data[pos + 1..pos + 1 + w]);
    RowAtIs(data, at, w, bpp, j, pos);
    var cur := if j % 2 == 0 then 0 else w;
    assert buf[cur..cur + w] == RowAt(data, at, w, bpp, j);
    EmitRow(buf, cur, out, j, x, f.imgN, f.outN, f.depth, f.color);
    forall i: nat | i < j
      ensures RowDone(out, data, at, f, x, i)
    {
      assert old(RowDone(out, data, at, f, x, i));
      assert RowOf(out, i) == old(RowOf(out, i));
    }
    ok := true;
  }
}
