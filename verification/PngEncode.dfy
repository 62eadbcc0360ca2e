/** PNG images from the side of the encoder: samples packed into rows, filtered, in one piece or in seven
    passes.  Decoding gives back every sample. */
module PngEncode {
  import opened Adam7
  import opened BitLists
  import opened BitStream
  import opened Common
  import opened MsbBits
  import opened Png
  import opened PngFilter
  import opened PngOutput
  import opened PngSamples

  // ---------------------------------------------------------------------------------------
  // The laws of the format

  /** What each filter type takes for its prediction (sections 9.2 and 9.3). */
  lemma FilterTypes(left: byte, up: byte, upLeft: byte)
    ensures Predict(0, left, up, upLeft) == 0 && Predict(1, left, up, upLeft) == left
    ensures Predict(2, left, up, upLeft) == up && Predict(3, left, up, upLeft) == (left + up) / 2
    ensures Predict(4, left, up, upLeft) == PaethPredictor(left, up, upLeft)
  {
  }

  /** The Paeth predictor is the neighbour nearest to left plus up minus upper left; of two as near the left one
      comes before the upper one, and both before the third (section 9.4). */
  lemma PaethNearest(left: int, up: int, upLeft: int)
    ensures var p, q := left + up - upLeft, PaethPredictor(left, up, upLeft);
      && (q == left || q == up || q == upLeft)
      && Abs(p - q) <= Abs(p - left) && Abs(p - q) <= Abs(p - up) && Abs(p - q) <= Abs(p - upLeft)
      && (Abs(p - q) == Abs(p - left) ==> q == left) && (Abs(p - q) == Abs(p - up) ==> q == left || q == up)
  {
  }

  /** The bytes of a pixel, rounded up. */
  function PixelBytes(imgN: nat, depth: nat): nat {
    (imgN * depth + 7) / 8
  }

  /** How many samples a pixel has (section 6.1). */
  function SamplesOf(color: nat): nat {
    if color == 2 then 3 else if color == 4 then 2 else if color == 6 then 4 else 1
  }

  /** All depths and colour types, with alpha added where there is none, are formats of the decoder. */
  lemma AllFormats(depth: nat, color: nat, added: bool)
    requires depth == 1 || depth == 2 || depth == 4 || depth == 8 || depth == 16
    requires color == 0 || color == 2 || color == 3 || color == 4 || color == 6
    requires added ==> color == 0 || color == 2
    ensures FormatOk(Format(SamplesOf(color), SamplesOf(color) + if added then 1 else 0, depth, color))
  {
  }

  /** Filters take the byte of the pixel to the left; where a byte holds several pixels, the byte before. */
  lemma DistanceLaw(f: Format)
    requires FormatOk(f) && (f.depth >= 8 || f.imgN == 1)
    ensures Distance(f) == PixelBytes(f.imgN, f.depth)
  {
  }

  /** For whole bytes it is the same byte of the same sample: byte b of sample c of pixel i + 1 is that far
      after the one of pixel i. */
  lemma SameSample(f: Format, i: nat, c: nat, b: nat)
    requires FormatOk(f) && f.depth >= 8 && c < f.imgN && b < f.depth / 8
    ensures (Index(i + 1, f.imgN, c) * f.depth / 8 + b) - Distance(f) == Index(i, f.imgN, c) * f.depth / 8 + b
  {
    assert Index(i + 1, f.imgN, c) == Index(i, f.imgN, c) + f.imgN by { NextIndex(i, f.imgN, c); }
    hide Index;
    var k := Index(i, f.imgN, c);
    if f.depth == 8 {
      assert (k + f.imgN) * 8 / 8 == k + f.imgN && k * 8 / 8 == k;
    } else {
      assert (k + f.imgN) * 16 / 8 == 2 * k + 2 * f.imgN && k * 16 / 8 == 2 * k;
    }
  }

  lemma NextIndex(i: nat, n: nat, c: nat)
    ensures Index(i + 1, n, c) == Index(i, n, c) + n
  {
  }

  /** Only grey samples of few bits are scaled: the largest of them becomes 255.  Palette indices are not. */
  lemma ScaleLaw(depth: nat, color: nat)
    requires DepthOk(depth)
    ensures color == 0 && depth < 8 ==> Scale(depth, color) * (Pow2(depth) - 1) == 255
    ensures color != 0 || depth >= 8 ==> Scale(depth, color) == 1
  {
    if depth < 8 {
      ScaleIsExact(depth);
    }
  }

  /** Opaque is the largest value of a channel of the output. */
  lemma OpaqueLaw(depth: nat)
    requires DepthOk(depth)
    ensures Opaque(depth) == Pow2(if depth == 16 then 16 else 8) - 1
  {
    WordSizes();
    assert Pow2(8) == 256;
  }

  /** A pixel of the output has a byte for every channel, or two if samples have sixteen bits. */
  lemma OutputLaw(f: Format)
    requires FormatOk(f)
    ensures f.depth >= 8 ==> 8 * FormatBytes(f) == f.outN * f.depth
    ensures f.depth < 8 ==> FormatBytes(f) == f.outN
  {
  }

  /** The guards are met just by the sizes whose products fit an int. */
  lemma MulFitsIs(a: nat, b: nat)
    ensures MulFits(a, b) <==> a * b <= INT_MAX
    ensures INT_MAX + 1 == Pow2(31)
  {
    WordSizes();
    assert Pow2(32) == 2 * Pow2(31);
    if b > 0 {
      QuotientIs(a, b, INT_MAX);
    }
  }

  lemma QuotientIs(a: nat, b: nat, m: nat)
    requires b > 0
    ensures a <= m / b <==> a * b <= m
  {
    var q, r := m / b, m % b;
    assert m == q * b + r;
    if a <= q {
      Ordered(a, q, b);
    } else {
      Ordered(q + 1, a, b);
      assert (q + 1) * b == q * b + b;
    }
  }

  lemma SizesLaw(f: Format, x: nat, y: nat)
    ensures SizesFit(f, x, y) <==>
      && x * y <= INT_MAX && x * y * (f.outN * SampleBytes(f)) <= INT_MAX
      && f.imgN * x <= INT_MAX && f.imgN * x * f.depth + 7 <= INT_MAX
      && Width(f, x) * y + Width(f, x) <= INT_MAX && Width(f, x) * 2 <= INT_MAX
  {
    hide MulFits, Width, SampleBytes;
    MulFitsIs(x, y);
    MulFitsIs(x * y, f.outN * SampleBytes(f));
    MulFitsIs(f.imgN, x);
    MulFitsIs(f.imgN * x, f.depth);
    MulFitsIs(Width(f, x), y);
    MulFitsIs(Width(f, x), 2);
  }

  // ---------------------------------------------------------------------------------------
  // Rows

  /** The samples of a row one after the other, each highest bit first. */
  function SamplesBits(v: seq<nat>, depth: nat): (s: seq<bit>)
    ensures |s| == |v| * depth
  {
    if v == [] then []
    else
      LastProduct(|v|, depth);
      SamplesBits(v[..|v| - 1], depth) + HighFirst(v[|v| - 1], depth)
  }

  lemma LastProduct(n: nat, depth: nat)
    requires n > 0
    ensures n * depth == (n - 1) * depth + depth
  {
  }

  /** Row j begins with one of the five filter types. */
  predicate KnownType(data: seq<byte>, at: nat, w: nat, j: nat) {
    at + (w + 1) * j < |data| && data[at + (w + 1) * j] < 5
  }

  /** Data are in order just when sizes fit, there are enough of them, and every row begins with a filter
      type. */
  lemma RawOkIs(data: seq<byte>, at: nat, f: Format, x: nat, y: nat)
    ensures RawOk(data, at, f, x, y) <==>
      && SizesFit(f, x, y) && at + (Width(f, x) + 1) * y <= |data|
      && forall j: nat | j < y :: KnownType(data, at, Width(f, x), j)
  {
    hide SizesFit, Width, RowStart;
    RowStartIs(at, Width(f, x), y);
    forall j: nat | j < y
      ensures FilterOk(data, RowStart(at, Width(f, x), j)) == KnownType(data, at, Width(f, x), j)
    {
      RowStartIs(at, Width(f, x), j);
    }
  }

  lemma {:induction false} SampleRead(row: seq<byte>, v: seq<nat>, depth: nat, k: nat)
    requires k < |v| && v[k] < Pow2(depth) && CarriesMsb(row, 0, SamplesBits(v, depth))
    ensures Sample(row, depth, k) == v[k]
    decreases |v|
  {
    hide CarriesMsb, Digits;
    var n := |v| - 1;
    LastProduct(|v|, depth);
    CarriesMsbParts(row, 0, SamplesBits(v[..n], depth), HighFirst(v[n], depth));
    if k == n {
      DigitsCarried(row, n * depth, v[n], depth);
    } else {
      SampleRead(row, v[..n], depth, k);
    }
  }

  /** A picture gives every channel of every pixel. */
  type Picture = (nat, nat, nat) -> nat

  /** The row holds the samples of x pixels, which the function gives by pixel and channel, and no more bytes than
      they need. */
  ghost predicate Holds(row: seq<byte>, f: Format, x: nat, px: (nat, nat) -> nat) {
    && |row| == Width(f, x)
    && exists v: seq<nat> ::
      && |v| == Index(x, f.imgN, 0) && CarriesMsb(row, 0, SamplesBits(v, f.depth))
      && forall i: nat, c: nat | i < x && c < f.imgN :: Index(i, f.imgN, c) < |v| && v[Index(i, f.imgN, c)] == px(i, c)
  }

  /** What the decoder takes from such a row. */
  lemma RowRead(row: seq<byte>, f: Format, x: nat, px: (nat, nat) -> nat, i: nat, c: nat)
    requires Holds(row, f, x, px) && i < x && c < f.imgN && px(i, c) < Pow2(f.depth)
    ensures Index(i, f.imgN, c) < Index(x, f.imgN, 0)
    ensures Values(row, Index(x, f.imgN, 0), f.depth, f.color)[Index(i, f.imgN, c)] == Scale(f.depth, f.color) * px(i, c)
  {
    hide CarriesMsb, SamplesBits, Index, Sample, Scale, Width;
    var v: seq<nat> :|
      && |v| == Index(x, f.imgN, 0) && CarriesMsb(row, 0, SamplesBits(v, f.depth))
      && forall i: nat, c: nat | i < x && c < f.imgN :: Index(i, f.imgN, c) < |v| && v[Index(i, f.imgN, c)] == px(i, c);
    SampleRead(row, v, f.depth, Index(i, f.imgN, c));
  }

  // ---------------------------------------------------------------------------------------
  // Rows within more data

  lemma RowStartMoved(at: nat, w: nat, j: nat)
    ensures RowStart(at, w, j) == at + RowStart(0, w, j)
  {
    RowStartIs(at, w, j);
    RowStartIs(0, w, j);
  }

  /** Rows do not depend on where they are. */
  lemma {:induction false} RowMoved(data: seq<byte>, at: nat, s: seq<byte>, w: nat, bpp: nat, j: nat)
    requires HasAt(data, at, s) && bpp > 0 && RowStart(0, w, j + 1) <= |s|
    ensures RowStart(at, w, j) < |data| && data[RowStart(at, w, j)] == s[RowStart(0, w, j)]
    ensures RowAt(data, at, w, bpp, j) == RowAt(s, 0, w, bpp, j)
    decreases j
  {
    hide RowAt, ReconRow, RowStart;
    var p := RowStart(0, w, j);
    RowStartMoved(at, w, j);
    RowStartNext(w, j);
    RowAtIs(s, 0, w, bpp, j, p);
    RowAtIs(data, at, w, bpp, j, at + p);
    HasByte(data, at, s, p);
    SlicesOf(data, at, s, p + 1, p + 1 + w);
    if j == 0 {
    } else {
      RowStartNext(w, j - 1);
      RowMoved(data, at, s, w, bpp, j - 1);
    }
  }

  lemma RowStartNext(w: nat, j: nat)
    ensures RowStart(0, w, j + 1) == RowStart(0, w, j) + w + 1
  {
  }

  lemma SlicesOf(data: seq<byte>, at: nat, s: seq<byte>, p: nat, q: nat)
    requires HasAt(data, at, s) && p <= q <= |s|
    ensures data[at + p..at + q] == s[p..q]
  {
    forall k | 0 <= k < q - p
      ensures data[at + p..at + q][k] == s[p..q][k]
    {
      HasByte(data, at, s, p + k);
    }
  }

  // ---------------------------------------------------------------------------------------
  // Images

  /** Rows and the filters that are chosen for them. */
  datatype Sheet = Sheet(rows: seq<seq<byte>>, filters: seq<byte>)

  /** The rows hold x by y pixels of a picture. */
  ghost predicate SheetOk(s: Sheet, f: Format, x: nat, y: nat, px: Picture) {
    && |s.rows| == |s.filters| == y && (forall j | 0 <= j < y :: s.filters[j] <= 4)
    && forall j: nat | j < y :: Holds(s.rows[j], f, x, (i, c) => px(j, i, c))
  }

  predicate Encodable(f: Format) {
    FormatOk(f) && (f.depth >= 8 || f.imgN == 1)
  }

  /** The filtered rows. */
  function SheetData(s: Sheet, f: Format): seq<byte>
    requires Encodable(f) && |s.rows| == |s.filters|
  {
    PixelBytesPositive(f);
    EncodeRows(s.rows, s.filters, PixelBytes(f.imgN, f.depth))
  }

  lemma PixelBytesPositive(f: Format)
    requires Encodable(f)
    ensures PixelBytes(f.imgN, f.depth) > 0
  {
  }

  /** What is encoded is in order and is read. */
  lemma SheetRead(data: seq<byte>, at: nat, s: Sheet, f: Format, x: nat, y: nat, px: Picture)
    requires Encodable(f) && SheetOk(s, f, x, y, px) && HasAt(data, at, SheetData(s, f))
    ensures |SheetData(s, f)| == RowStart(0, Width(f, x), y) && RowStart(at, Width(f, x), y) == at + |SheetData(s, f)|
    ensures SizesFit(f, x, y) ==> RawOk(data, at, f, x, y)
    ensures forall j: nat | j < y :: RowAt(data, at, Width(f, x), Distance(f), j) == s.rows[j]
  {
    hide EncodeRows, RowAt, RowStart, Distance, Width, SizesFit, PixelBytes, Holds;
    var w, d := Width(f, x), Distance(f);
    DistanceLaw(f);
    RowStartMoved(at, w, y);
    AllWide(s, f, x, y, px);
    EncodedLength(s.rows, s.filters, d, w);
    forall j: nat | j < y
      ensures RowAt(data, at, w, d, j) == s.rows[j] && FilterOk(data, RowStart(at, w, j))
    {
      ImageRoundTrip(s.rows, s.filters, d, w, j);
      RowMoved(data, at, SheetData(s, f), w, d, j);
    }
  }

  lemma AllWide(s: Sheet, f: Format, x: nat, y: nat, px: Picture)
    requires SheetOk(s, f, x, y, px)
    ensures forall r | r in s.rows :: |r| == Width(f, x)
  {
  }

  /** What channel k of the output is, for a picture. */
  function Channel(f: Format, px: Picture, r: nat, c: nat, k: nat): nat {
    if k < f.imgN then Scale(f.depth, f.color) * px(r, c, k) else Opaque(f.depth)
  }

  ghost predicate InRange(f: Format, px: Picture) {
    forall r: nat, c: nat, k: nat :: px(r, c, k) < Pow2(f.depth)
  }

  /** The output shows the picture. */
  ghost predicate Pictured(out: array2<nat>, f: Format, x: nat, y: nat, px: Picture)
    reads out
  {
    && out.Length0 == y && out.Length1 == Index(x, f.outN, 0)
    && forall r: nat, c: nat, k: nat | r < y && c < x && k < f.outN :: Matches(out, f, px, r, c, k)
  }

  ghost predicate Matches(out: array2<nat>, f: Format, px: Picture, r: nat, c: nat, k: nat)
    reads out
  {
    r < out.Length0 && Index(c, f.outN, k) < out.Length1 && out[r, Index(c, f.outN, k)] == Channel(f, px, r, c, k)
  }

  /** A picture that is encoded row by row comes back. */
  method Decode(p: Png, s: Sheet, tail: seq<byte>, outN: nat, depth: nat, color: nat, ghost px: Picture) returns (ok: bool)
    requires p.imgX > 0 && p.imgY > 0 && Encodable(Format(p.imgN, outN, depth, color))
    requires var f := Format(p.imgN, outN, depth, color);
      SizesFit(f, p.imgX, p.imgY) && SheetOk(s, f, p.imgX, p.imgY, px) && InRange(f, px)
    modifies p`out
    ensures ok && Pictured(p.out, Format(p.imgN, outN, depth, color), p.imgX, p.imgY, px)
  {
    hide SizesFit, SheetOk, RawOk, RowDone, Width, Distance, EncodeRows, Index, Matches, RowAt, PixelBytes;
    var f := Format(p.imgN, outN, depth, color);
    SheetIs(s, f, p.imgX, p.imgY, px);
    var data := SheetData(s, f) + tail;
    assert HasAt(data, 0, SheetData(s, f));
    SheetRead(data, 0, s, f, p.imgX, p.imgY, px);
    ok := p.CreateImage(data, outN, depth, color, false);
    forall r: nat, c: nat, k: nat | r < p.imgY && c < p.imgX && k < outN
      ensures Matches(p.out, f, px, r, c, k)
    {
      RowShown(p.out, data, s, f, p.imgX, p.imgY, px, r, c, k);
    }
  }

  lemma SheetIs(s: Sheet, f: Format, x: nat, y: nat, px: Picture)
    requires SheetOk(s, f, x, y, px)
    ensures |s.rows| == |s.filters|
  {
  }

  lemma RowShown(out: array2<nat>, data: seq<byte>, s: Sheet, f: Format, x: nat, y: nat, px: Picture, r: nat, c: nat, k: nat)
    requires Encodable(f) && SheetOk(s, f, x, y, px) && InRange(f, px) && r < y && c < x && k < f.outN
    requires RowDone(out, data, 0, f, x, r) && RowAt(data, 0, Width(f, x), Distance(f), r) == s.rows[r]
    requires out.Length1 == Index(x, f.outN, 0)
    ensures Matches(out, f, px, r, c, k)
  {
    hide Index, Holds, Values, Scale, Width, Distance, RowAt;
    assert PixelShows(RowOf(out, r), c, f.imgN, f.outN, Opaque(f.depth), RowValues(data, 0, f, x, r));
    assert ChannelShows(RowOf(out, r), c, f.imgN, f.outN, Opaque(f.depth), RowValues(data, 0, f, x, r), k);
    if k < f.imgN {
      RowRead(s.rows[r], f, x, (i, c) => px(r, i, c), c, k);
    }
  }

  // ---------------------------------------------------------------------------------------
  // Interlaced images

  /** The pixels of a pass. */
  function PassPicture(p: nat, px: Picture): Picture
    requires p < 7
  {
    (j, i, k) => px(YAt(p, j), XAt(p, i), k)
  }

  predicate Empty(p: nat, w: nat, h: nat)
    requires p < 7 && w > 0 && h > 0
  {
    PassWidth(p, w) == 0 || PassHeight(p, h) == 0
  }

  /** A sheet for each pass that has pixels. */
  ghost predicate SheetsOk(sheets: seq<Sheet>, f: Format, w: nat, h: nat, px: Picture)
    requires w > 0 && h > 0
  {
    |sheets| == 7 && forall p: nat | p < 7 && !Empty(p, w, h) ::
      SheetOk(sheets[p], f, PassWidth(p, w), PassHeight(p, h), PassPicture(p, px))
  }

  ghost predicate PassesFit(f: Format, w: nat, h: nat)
    requires w > 0 && h > 0
  {
    Mad3Fits(w, h, FormatBytes(f), 0)
    && forall p: nat | p < 7 && !Empty(p, w, h) :: SizesFit(f, PassWidth(p, w), PassHeight(p, h))
  }

  /** The first n passes one after the other. */
  ghost function PassesData(sheets: seq<Sheet>, f: Format, w: nat, h: nat, px: Picture, n: nat): seq<byte>
    requires n <= 7 && w > 0 && h > 0 && Encodable(f) && SheetsOk(sheets, f, w, h, px)
  {
    if n == 0 then []
    else PassesData(sheets, f, w, h, px, n - 1) + if Empty(n - 1, w, h) then [] else SheetData(sheets[n - 1], f)
  }

  lemma {:induction false} PassPlaces(sheets: seq<Sheet>, f: Format, w: nat, h: nat, px: Picture, n: nat)
    requires n <= 7 && w > 0 && h > 0 && Encodable(f) && SheetsOk(sheets, f, w, h, px)
    ensures PassStart(f, w, h, n) == |PassesData(sheets, f, w, h, px, n)|
  {
    hide SheetOk, SheetData, Width, PassWidth, PassHeight, RowStart;
    if n == 0 {
    } else {
      PassPlaces(sheets, f, w, h, px, n - 1);
      var p := n - 1;
      PassStartIs(f, w, h, p);
      if !Empty(p, w, h) {
        var x, y, s := PassWidth(p, w), PassHeight(p, h), sheets[p];
        SheetIs(s, f, x, y, PassPicture(p, px));
        assert HasAt(SheetData(s, f), 0, SheetData(s, f));
        SheetRead(SheetData(s, f), 0, s, f, x, y, PassPicture(p, px));
        RowStartMoved(PassStart(f, w, h, p), Width(f, x), y);
      }
    }
  }

  lemma {:induction false} PassFound(sheets: seq<Sheet>, f: Format, w: nat, h: nat, px: Picture, p: nat, n: nat, tail: seq<byte>)
    requires p < n <= 7 && w > 0 && h > 0 && Encodable(f) && SheetsOk(sheets, f, w, h, px) && !Empty(p, w, h)
    ensures |sheets[p].rows| == |sheets[p].filters|
    ensures HasAt(PassesData(sheets, f, w, h, px, n) + tail, PassStart(f, w, h, p), SheetData(sheets[p], f))
    decreases n
  {
    hide SheetOk, SheetData, PassWidth, PassHeight, Empty, PassStart;
    SheetOf(sheets, f, w, h, px, p);
    if !Empty(n - 1, w, h) {
      SheetOf(sheets, f, w, h, px, n - 1);
    }
    var last := if Empty(n - 1, w, h) then [] else SheetData(sheets[n - 1], f);
    var before := PassesData(sheets, f, w, h, px, n - 1);
    assert before + last + tail == before + (last + tail);
    if p == n - 1 {
      PassPlaces(sheets, f, w, h, px, p);
      assert (before + (last + tail))[|before|..|before| + |last|] == last;
    } else {
      PassFound(sheets, f, w, h, px, p, n - 1, last + tail);
    }
  }

  lemma SheetOf(sheets: seq<Sheet>, f: Format, w: nat, h: nat, px: Picture, p: nat)
    requires p < 7 && w > 0 && h > 0 && SheetsOk(sheets, f, w, h, px) && !Empty(p, w, h)
    ensures |sheets| == 7 && SheetOk(sheets[p], f, PassWidth(p, w), PassHeight(p, h), PassPicture(p, px))
    ensures |sheets[p].rows| == |sheets[p].filters|
  {
    hide PassWidth, PassHeight, Holds;
  }

  lemma PassesInOrder(sheets: seq<Sheet>, f: Format, w: nat, h: nat, px: Picture, tail: seq<byte>)
    requires w > 0 && h > 0 && Encodable(f) && SheetsOk(sheets, f, w, h, px) && PassesFit(f, w, h)
    ensures InterlacedOk(PassesData(sheets, f, w, h, px, 7) + tail, f, w, h)
  {
    hide SheetsOk, PassesData, PassWidth, PassHeight, PassStart, SizesFit, RawOk, SheetData, SheetOk;
    var data := PassesData(sheets, f, w, h, px, 7) + tail;
    forall p: nat | p < 7
      ensures PassOk(data, f, w, h, p)
    {
      if !Empty(p, w, h) {
        SheetOf(sheets, f, w, h, px, p);
        PassFound(sheets, f, w, h, px, p, 7, tail);
        SheetRead(data, PassStart(f, w, h, p), sheets[p], f, PassWidth(p, w), PassHeight(p, h), PassPicture(p, px));
      }
    }
  }

  lemma PixelShown(out: array2<nat>, sheets: seq<Sheet>, f: Format, w: nat, h: nat, px: Picture, tail: seq<byte>,
    r: nat, c: nat, k: nat)
    requires w > 0 && h > 0 && Encodable(f) && SheetsOk(sheets, f, w, h, px) && InRange(f, px)
    requires r < h && c < w && k < f.outN && out.Length1 == Index(w, f.outN, 0)
    requires Right(out, PassesData(sheets, f, w, h, px, 7) + tail, f, w, h, r, c)
    ensures Matches(out, f, px, r, c, k)
  {
    hide SheetsOk, PassesData, PassWidth, PassHeight, PassStart, PassOf, RowIn, ColIn, YAt, XAt, Index, Holds, Values,
      Scale, Width, Distance, RowAt, SheetData, FormatOk;
    var data := PassesData(sheets, f, w, h, px, 7) + tail;
    var p := PassOf(r, c);
    PixelPass(r, c);
    var j: nat, i: nat := RowIn(p, r), ColIn(p, c);
    PassSize(p, w, i);
    PassSize(p, h, j);
    SheetOf(sheets, f, w, h, px, p);
    PassFound(sheets, f, w, h, px, p, 7, tail);
    SheetRead(data, PassStart(f, w, h, p), sheets[p], f, PassWidth(p, w), PassHeight(p, h), PassPicture(p, px));
    assert ChannelFrom(RowOf(out, r), c, f, RowValues(data, PassStart(f, w, h, p), f, PassWidth(p, w), j), i, k);
    if k < f.imgN {
      var pass := PassPicture(p, px);
      RowRead(sheets[p].rows[j], f, PassWidth(p, w), (i, c) => pass(j, i, c), i, k);
    }
  }

  /** A picture that is encoded in seven passes comes back. */
  method DecodeInterlaced(p: Png, ghost sheets: seq<Sheet>, data: seq<byte>, ghost tail: seq<byte>, outN: nat, depth: nat,
    color: nat, ghost px: Picture) returns (ok: bool)
    requires p.imgX > 0 && p.imgY > 0 && Encodable(Format(p.imgN, outN, depth, color))
    requires var f := Format(p.imgN, outN, depth, color);
      && PassesFit(f, p.imgX, p.imgY) && SheetsOk(sheets, f, p.imgX, p.imgY, px) && InRange(f, px)
      && data == PassesData(sheets, f, p.imgX, p.imgY, px, 7) + tail
    modifies p`out
    ensures ok && Pictured(p.out, Format(p.imgN, outN, depth, color), p.imgX, p.imgY, px)
  {
    hide PassesFit, SheetsOk, InterlacedOk, PassesData, Right, Index, Matches, InRange, FormatOk;
    var f := Format(p.imgN, outN, depth, color);
    PassesInOrder(sheets, f, p.imgX, p.imgY, px, tail);
    ok := p.CreateImage(data, outN, depth, color, true);
    forall r: nat, c: nat, k: nat | r < p.imgY && c < p.imgX && k < outN
      ensures Matches(p.out, f, px, r, c, k)
    {
      PixelShown(p.out, sheets, f, p.imgX, p.imgY, px, tail, r, c, k);
    }
  }
}
