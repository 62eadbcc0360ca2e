/** The scanline filters of PNG (section 9 of the PNG specification). */
module PngFilter {
  import opened BitStream
  import opened Common

  const NONE: nat := 0
  const SUB: nat := 1
  const UP: nat := 2
  const AVERAGE: nat := 3
  const PAETH: nat := 4
  const AVERAGE_FIRST: nat := 5

  /** The Paeth predictor of section 9.4. */
  function PaethPredictor(a: int, b: int, c: int): int {
    var p := a + b - c;
    if Abs(p - a) <= Abs(p - b) && Abs(p - a) <= Abs(p - c) then a
    else if Abs(p - b) <= Abs(p - c) then b
    else c
  }

  /** The decoder's branch-free form. */
  function Paeth(a: int, b: int, c: int): int {
    var thresh := c * 3 - (a + b);
    var lo := if a < b then a else b;
    var hi := if a < b then b else a;
    var t0 := if hi <= thresh then lo else c;
    if thresh <= lo then hi else t0
  }

  lemma PaethIsPredictor(a: int, b: int, c: int)
    ensures Paeth(a, b, c) == PaethPredictor(a, b, c)
  {
  }

  /** What a filter predicts a byte to be from its neighbours to the left, above and above
      left.  The last is the decoder's own, for the first row. */
  function Predict(filter: nat, left: byte, up: byte, upLeft: byte): (p: byte) {
    PredictorIsNeighbour(left, up, upLeft);
    if filter == SUB then left
    else if filter == UP then up
    else if filter == AVERAGE then (left + up) / 2
    else if filter == PAETH then PaethPredictor(left, up, upLeft)
    else if filter == AVERAGE_FIRST then left / 2
    else 0
  }

  lemma PredictorIsNeighbour(a: int, b: int, c: int)
    ensures PaethPredictor(a, b, c) in {a, b, c}
  {
  }

  function Above(prior: seq<byte>, k: int): byte {
    if 0 <= k < |prior| then prior[k] else 0
  }

  // ---------------------------------------------------------------------------------------
  // Reconstruction and filtering

  /** Byte k of the row whose filtered bytes are raw; bpp is the distance to the left byte. */
  function Recon(filter: nat, bpp: nat, raw: seq<byte>, prior: seq<byte>, k: nat): byte
    requires k < |raw| && bpp > 0
    decreases k
  {
    var left := if k < bpp then 0 else Recon(filter, bpp, raw, prior, k - bpp);
    (raw[k] + Predict(filter, left, Above(prior, k), Above(prior, k - bpp))) % 256
  }

  function ReconRow(filter: nat, bpp: nat, raw: seq<byte>, prior: seq<byte>): (row: seq<byte>)
    requires bpp > 0
    ensures |row| == |raw|
  {
    seq(|raw|, k requires 0 <= k < |raw| => Recon(filter, bpp, raw, prior, k))
  }

  /** What an encoder sends for byte k of a row. */
  function Filt(filter: nat, bpp: nat, row: seq<byte>, prior: seq<byte>, k: nat): byte
    requires k < |row| && bpp > 0
  {
    (row[k] - Predict(filter, Above(row, k - bpp), Above(prior, k), Above(prior, k - bpp))) % 256
  }

  function FiltRow(filter: nat, bpp: nat, row: seq<byte>, prior: seq<byte>): (raw: seq<byte>)
    requires bpp > 0
    ensures |raw| == |row|
  {
    seq(|row|, k requires 0 <= k < |row| => Filt(filter, bpp, row, prior, k))
  }

  lemma AddBack(x: int, p: int)
    requires 0 <= x < 256 && 0 <= p < 256
    ensures ((x - p) % 256 + p) % 256 == x && ((x + p) % 256 - p) % 256 == x
  {
    assert (x - p) % 256 == if x >= p then x - p else x - p + 256;
    assert (x + p) % 256 == if x + p < 256 then x + p else x + p - 256;
  }

  lemma {:induction false} ReconFilt(filter: nat, bpp: nat, row: seq<byte>, prior: seq<byte>, k: nat)
    requires k < |row| && bpp > 0
    ensures Recon(filter, bpp, FiltRow(filter, bpp, row, prior), prior, k) == row[k]
    decreases k
  {
    hide Predict;
    if k < bpp {
    } else {
      ReconFilt(filter, bpp, row, prior, k - bpp);
    }
    AddBack(row[k], Predict(filter, Above(row, k - bpp), Above(prior, k), Above(prior, k - bpp)));
  }

  lemma FiltRecon(filter: nat, bpp: nat, raw: seq<byte>, prior: seq<byte>, k: nat)
    requires k < |raw| && bpp > 0
    ensures Filt(filter, bpp, ReconRow(filter, bpp, raw, prior), prior, k) == raw[k]
  {
    hide Predict;
    var left: byte := if k < bpp then 0 else Recon(filter, bpp, raw, prior, k - bpp);
    AddBack(raw[k], Predict(filter, left, Above(prior, k), Above(prior, k - bpp)));
  }

  /** Reconstruction undoes filtering, and filtering undoes reconstruction. */
  lemma RowRoundTrip(filter: nat, bpp: nat, row: seq<byte>, prior: seq<byte>)
    requires bpp > 0
    ensures ReconRow(filter, bpp, FiltRow(filter, bpp, row, prior), prior) == row
    ensures FiltRow(filter, bpp, ReconRow(filter, bpp, row, prior), prior) == row
  {
    hide Recon, Filt;
    forall k: nat | k < |row|
      ensures Recon(filter, bpp, FiltRow(filter, bpp, row, prior), prior, k) == row[k]
      ensures Filt(filter, bpp, ReconRow(filter, bpp, row, prior), prior, k) == row[k]
    {
      ReconFilt(filter, bpp, row, prior, k);
      FiltRecon(filter, bpp, row, prior, k);
    }
  }

  // ---------------------------------------------------------------------------------------
  // The first row

  function FirstRowFilter(filter: nat): nat {
    if filter == UP then NONE
    else if filter == AVERAGE then AVERAGE_FIRST
    else if filter == PAETH then SUB
    else filter
  }

  /** On the first row, which has a row of zeros above it, the substituted filter gives the
      same without looking at the row above. */
  lemma {:induction false} FirstRow(filter: nat, bpp: nat, raw: seq<byte>, any: seq<byte>, k: nat)
    requires k < |raw| && bpp > 0 && filter <= 4
    ensures Recon(FirstRowFilter(filter), bpp, raw, any, k) == Recon(filter, bpp, raw, [], k)
    decreases k
  {
    if k < bpp {
    } else {
      FirstRow(filter, bpp, raw, any, k - bpp);
    }
  }

  // ---------------------------------------------------------------------------------------
  // Rows of an image

  /** Where row j begins, with its filter byte, if rows of w bytes follow each other from at. */
  function RowStart(at: nat, w: nat, j: nat): (p: nat)
    ensures p >= at
  {
    if j == 0 then at else RowStart(at, w, j - 1) + w + 1
  }

  lemma {:induction false} RowStartIs(at: nat, w: nat, j: nat)
    ensures RowStart(at, w, j) == at + (w + 1) * j
  {
    if j == 0 {
    } else {
      RowStartIs(at, w, j - 1);
      Distribute(w + 1, j - 1);
    }
  }

  lemma Distribute(x: int, y: int)
    ensures x * (y + 1) == x * y + x
  {
  }

  lemma {:induction false} RowStartMono(at: nat, w: nat, i: nat, j: nat)
    requires i < j
    ensures RowStart(at, w, i) + w + 1 <= RowStart(at, w, j)
  {
    if i + 1 >= j {
    } else {
      RowStartMono(at, w, i, j - 1);
    }
  }

  /** The n bytes from p on. */
  function Bytes(raw: seq<byte>, p: nat, n: nat): (s: seq<byte>)
    ensures |s| == n && forall k: nat | k < n :: s[k] == ByteAt(raw, p + k)
    decreases n
  {
    if n == 0 then [] else Bytes(raw, p, n - 1) + [ByteAt(raw, p + n - 1)]
  }

  /** Row j as the data say it is. */
  function RowAt(raw: seq<byte>, at: nat, w: nat, bpp: nat, j: nat): (row: seq<byte>)
    requires bpp > 0
    ensures |row| == w
  {
    var p := RowStart(at, w, j);
    ReconRow(ByteAt(raw, p), bpp, Bytes(raw, p + 1, w), if j == 0 then [] else RowAt(raw, at, w, bpp, j - 1))
  }

  /** The row above row j. */
  function RowAbove(raw: seq<byte>, at: nat, w: nat, bpp: nat, j: nat): seq<byte>
    requires bpp > 0
  {
    if j == 0 then [] else RowAt(raw, at, w, bpp, j - 1)
  }

  lemma RowAtIs(raw: seq<byte>, at: nat, w: nat, bpp: nat, j: nat, p: nat)
    requires bpp > 0 && p == RowStart(at, w, j) && p + 1 + w <= |raw|
    ensures RowAt(raw, at, w, bpp, j) == ReconRow(raw[p], bpp, raw[p + 1..p + 1 + w], RowAbove(raw, at, w, bpp, j))
  {
    hide ReconRow;
    assert Bytes(raw, p + 1, w) == raw[p + 1..p + 1 + w];
  }

  /** An encoding of the rows with a filter of its own for each. */
  function EncodeRows(rows: seq<seq<byte>>, filters: seq<byte>, bpp: nat): seq<byte>
    requires |filters| == |rows| && bpp > 0
  {
    if rows == [] then []
    else
      var j := |rows| - 1;
      EncodeRows(rows[..j], filters[..j], bpp)
      + [filters[j]] + FiltRow(filters[j], bpp, rows[j], if j == 0 then [] else rows[j - 1])
  }

  lemma {:induction false} EncodedLength(rows: seq<seq<byte>>, filters: seq<byte>, bpp: nat, w: nat)
    requires |filters| == |rows| && bpp > 0 && forall r | r in rows :: |r| == w
    ensures |EncodeRows(rows, filters, bpp)| == RowStart(0, w, |rows|)
  {
    if rows == [] {
    } else {
      EncodedLength(rows[..|rows| - 1], filters[..|rows| - 1], bpp, w);
    }
  }

  /** Only the bytes of the first j + 1 rows matter for row j. */
  lemma {:induction false} RowAtPrefix(raw: seq<byte>, raw': seq<byte>, w: nat, bpp: nat, j: nat)
    requires bpp > 0 && raw <= raw' && RowStart(0, w, j + 1) <= |raw|
    ensures RowAt(raw, 0, w, bpp, j) == RowAt(raw', 0, w, bpp, j)
  {
    hide RowAt, ReconRow;
    var p := RowStart(0, w, j);
    RowAtIs(raw, 0, w, bpp, j, p);
    RowAtIs(raw', 0, w, bpp, j, p);
    assert raw[p + 1..p + 1 + w] == raw'[p + 1..p + 1 + w] && raw[p] == raw'[p];
    if j == 0 {
    } else {
      RowAtPrefix(raw, raw', w, bpp, j - 1);
    }
  }

  lemma EncodeLast(rows: seq<seq<byte>>, filters: seq<byte>, bpp: nat, w: nat, n: nat)
    requires |filters| == |rows| == n + 1 && bpp > 0 && forall r | r in rows :: |r| == w
    ensures var all, shorter := EncodeRows(rows, filters, bpp), EncodeRows(rows[..n], filters[..n], bpp);
      var p := |shorter|;
      && p == RowStart(0, w, n) && p + 1 + w == RowStart(0, w, n + 1) == |all|
      && shorter <= all && all[p] == filters[n]
      && all[p + 1..p + 1 + w] == FiltRow(filters[n], bpp, rows[n], if n == 0 then [] else rows[n - 1])
  {
    hide FiltRow;
    EncodedLength(rows, filters, bpp, w);
    EncodedLength(rows[..n], filters[..n], bpp, w);
  }

  /** Whatever the choice of filters, every row of an image comes back. */
  lemma {:induction false} ImageRoundTrip(rows: seq<seq<byte>>, filters: seq<byte>, bpp: nat, w: nat, j: nat)
    requires |filters| == |rows| && bpp > 0 && j < |rows| && forall r | r in rows :: |r| == w
    ensures RowStart(0, w, j + 1) <= |EncodeRows(rows, filters, bpp)|
    ensures RowAt(EncodeRows(rows, filters, bpp), 0, w, bpp, j) == rows[j]
    ensures EncodeRows(rows, filters, bpp)[RowStart(0, w, j)] == filters[j]
    decreases |rows|
  {
    hide FiltRow, ReconRow, RowAt, EncodeRows;
    var n := |rows| - 1;
    EncodeLast(rows, filters, bpp, w, n);
    var all, shorter := EncodeRows(rows, filters, bpp), EncodeRows(rows[..n], filters[..n], bpp);
    if j < n {
      ImageRoundTrip(rows[..n], filters[..n], bpp, w, j);
      RowAtPrefix(shorter, all, w, bpp, j);
      assert RowStart(0, w, j) < RowStart(0, w, j + 1);
    } else {
      if n > 0 {
        ImageRoundTrip(rows[..n], filters[..n], bpp, w, n - 1);
        RowAtPrefix(shorter, all, w, bpp, n - 1);
      }
      RowAtIs(all, 0, w, bpp, n, |shorter|);
      RowRoundTrip(filters[n], bpp, rows[n], if n == 0 then [] else rows[n - 1]);
    }
  }
}
