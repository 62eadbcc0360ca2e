/** One scanline of a PNG image: reconstruction in the filter buffer, and expansion of its
    samples into a row of the output. */
module PngRow {
  import opened BitStream
  import opened PngFilter

  // ---------------------------------------------------------------------------------------
  // Reconstruction in place

  /** A row to rebuild: the halves of the buffer that hold it and the row above it, its
      filter, the distance to the byte on the left, and its filtered bytes. */
  datatype Line = Line(cur: nat, prior: nat, filter: nat, bpp: nat, data: seq<byte>)

  /** The first n bytes of the row are rebuilt, and the row above is as it was. */
  ghost predicate Working(buf: seq<byte>, l: Line, above: seq<byte>, n: nat) {
    && 0 < l.bpp <= |l.data| && n <= |l.data| == |above| && |buf| == 2 * |l.data|
    && ((l.cur == 0 && l.prior == |l.data|) || (l.cur == |l.data| && l.prior == 0))
    && buf[l.prior..l.prior + |l.data|] == above
    && forall k: nat {:trigger Recon(l.filter, l.bpp, l.data, above, k)} | k < n ::
      ByteIs(buf, l.cur, k, Recon(l.filter, l.bpp, l.data, above, k))
  }

  predicate ByteIs(buf: seq<byte>, cur: nat, k: nat, b: byte)
    requires cur + k < |buf|
  {
    buf[cur + k] == b
  }

  /** What byte n of the row must become. */
  function Next(buf: seq<byte>, l: Line, n: nat): byte
    requires l.cur + n < |buf| && l.prior + n < |buf| && n < |l.data|
  {
    var left: byte := if n < l.bpp then 0 else buf[l.cur + n - l.bpp];
    var upLeft: byte := if n < l.bpp then 0 else buf[l.prior + n - l.bpp];
    (l.data[n] + Predict(l.filter, left, buf[l.prior + n], upLeft)) % 256
  }

  lemma Wrote(before: seq<byte>, after: seq<byte>, l: Line, above: seq<byte>, n: nat)
    requires Working(before, l, above, n) && n < |l.data|
    requires after == before[l.cur + n := Next(before, l, n)]
    ensures Working(after, l, above, n + 1)
  {
    hide Predict;
    var data, cur := l.data, l.cur;
    assert above[n] == before[l.prior + n];
    if n >= l.bpp {
      assert above[n - l.bpp] == before[l.prior + n - l.bpp];
      assert ByteIs(before, cur, n - l.bpp, Recon(l.filter, l.bpp, data, above, n - l.bpp));
    }
    assert after[l.prior..l.prior + |data|] == above;
    forall k: nat | k < n + 1
      ensures ByteIs(after, cur, k, Recon(l.filter, l.bpp, data, above, k))
    {
      assert k < n ==> ByteIs(before, cur, k, Recon(l.filter, l.bpp, data, above, k));
    }
  }

  lemma Predictions(left: byte, up: byte, upLeft: byte)
    ensures Predict(NONE, left, up, upLeft) == 0
    ensures Predict(SUB, left, up, upLeft) == left
    ensures Predict(UP, left, up, upLeft) == up
    ensures Predict(AVERAGE, left, up, upLeft) == (left + up) / 2
    ensures Predict(PAETH, left, up, upLeft) == Paeth(left, up, upLeft)
    ensures Predict(PAETH, 0, up, 0) == up
    ensures Predict(AVERAGE_FIRST, left, up, upLeft) == left / 2
  {
    PaethIsPredictor(left, up, upLeft);
    PaethIsPredictor(0, up, 0);
  }

  /** The sums the decoder forms, by filter. */
  lemma Step(buf: seq<byte>, l: Line, above: seq<byte>, n: nat)
    requires Working(buf, l, above, n) && n < |l.data|
    ensures l.cur + n < |buf| && l.prior + n < |buf|
    ensures l.data[n] % 256 == l.data[n]
    ensures var left: byte := if n < l.bpp then 0 else buf[l.cur + n - l.bpp];
      var upLeft: byte := if n < l.bpp then 0 else buf[l.prior + n - l.bpp];
      var up := buf[l.prior + n];
      Next(buf, l, n) == (l.data[n] +
        if l.filter == NONE then 0
        else if l.filter == SUB then left
        else if l.filter == UP then up
        else if l.filter == AVERAGE then (left + up) / 2
        else if l.filter == PAETH then if n < l.bpp then up else Paeth(left, up, upLeft)
        else if l.filter == AVERAGE_FIRST then left / 2
        else 0) % 256
  {
    hide Recon, Paeth;
    var left: byte := if n < l.bpp then 0 else buf[l.cur + n - l.bpp];
    var upLeft: byte := if n < l.bpp then 0 else buf[l.prior + n - l.bpp];
    Predictions(left, buf[l.prior + n], upLeft);
  }

  /** The sum of two numbers as a byte. */
  function ByteSum(x: int, y: int): byte {
    (x + y) % 256
  }

  /** Stores one byte of the row. */
  method Put(buf: array<byte>, l: Line, k: nat, b: byte, ghost above: seq<byte>)
    requires Working(buf[..], l, above, k) && k < |l.data|
    requires l.cur + k < buf.Length && l.prior + k < buf.Length && b == Next(buf[..], l, k)
    modifies buf
    ensures Working(buf[..], l, above, k + 1)
  {
    hide Working, Next;
    ghost var before := buf[..];
    buf[l.cur + k] := b;
    assert buf[..] == before[l.cur + k := b];
    Wrote(before, buf[..], l, above, k);
  }

  method Copy(buf: array<byte>, l: Line, n: nat, ghost above: seq<byte>)
    requires Working(buf[..], l, above, 0) && n <= |l.data|
    requires l.filter == NONE || (n == l.bpp && (l.filter == SUB || l.filter == AVERAGE_FIRST))
    modifies buf
    ensures Working(buf[..], l, above, n)
  {
    hide Working, Next, Paeth;
    for k := 0 to n
      invariant Working(buf[..], l, above, k)
    {
      Step(buf[..], l, above, k);
      Put(buf, l, k, l.data[k], above);
    }
  }

  /** Rebuilds a row from its filtered bytes and the row above it. */
  method Unfilter(buf: array<byte>, l: Line, ghost above: seq<byte>)
    requires Working(buf[..], l, above, 0) && l.filter <= AVERAGE_FIRST
    modifies buf
    ensures Working(buf[..], l, above, |l.data|)
  {
    hide Working, Next, Paeth;
    var nk, bpp, cur, prior := |l.data|, l.bpp, l.cur, l.prior;
    LineFacts(buf[..], l, above, 0);
    if l.filter == NONE {
      Copy(buf, l, nk, above);
    } else if l.filter == SUB {
      Copy(buf, l, bpp, above);
      for k := bpp to nk
        invariant Working(buf[..], l, above, k)
      {
        Step(buf[..], l, above, k);
        Put(buf, l, k, ByteSum(l.data[k], buf[cur + k - bpp]), above);
      }
    } else if l.filter == UP {
      for k := 0 to nk
        invariant Working(buf[..], l, above, k)
      {
        Step(buf[..], l, above, k);
        Put(buf, l, k, ByteSum(l.data[k], buf[prior + k]), above);
      }
    } else if l.filter == AVERAGE {
      UnfilterAverage(buf, l, above);
    } else if l.filter == PAETH {
      UnfilterPaeth(buf, l, above);
    } else {
      Copy(buf, l, bpp, above);
      for k := bpp to nk
        invariant Working(buf[..], l, above, k)
      {
        Step(buf[..], l, above, k);
        Put(buf, l, k, ByteSum(l.data[k], buf[cur + k - bpp] / 2), above);
      }
    }
  }

  lemma LineFacts(buf: seq<byte>, l: Line, above: seq<byte>, n: nat)
    requires Working(buf, l, above, n)
    ensures 0 < l.bpp <= |l.data| && |buf| == 2 * |l.data|
  {
  }

  method UnfilterAverage(buf: array<byte>, l: Line, ghost above: seq<byte>)
    requires Working(buf[..], l, above, 0) && l.filter == AVERAGE
    modifies buf
    ensures Working(buf[..], l, above, |l.data|)
  {
    hide Working, Next, Paeth;
    LineFacts(buf[..], l, above, 0);
    for k := 0 to l.bpp
      invariant Working(buf[..], l, above, k)
    {
      Step(buf[..], l, above, k);
      Put(buf, l, k, ByteSum(l.data[k], buf[l.prior + k] / 2), above);
    }
    for k := l.bpp to |l.data|
      invariant Working(buf[..], l, above, k)
    {
      Step(buf[..], l, above, k);
      var up: int, left: int := buf[l.prior + k], buf[l.cur + k - l.bpp];
      Put(buf, l, k, ByteSum(l.data[k], (up + left) / 2), above);
    }
  }

  method UnfilterPaeth(buf: array<byte>, l: Line, ghost above: seq<byte>)
    requires Working(buf[..], l, above, 0) && l.filter == PAETH
    modifies buf
    ensures Working(buf[..], l, above, |l.data|)
  {
    hide Working, Next, Paeth;
    LineFacts(buf[..], l, above, 0);
    for k := 0 to l.bpp
      invariant Working(buf[..], l, above, k)
    {
      Step(buf[..], l, above, k);
      Put(buf, l, k, ByteSum(l.data[k], buf[l.prior + k]), above);
    }
    for k := l.bpp to |l.data|
      invariant Working(buf[..], l, above, k)
    {
      Step(buf[..], l, above, k);
      var left, up, upLeft := buf[l.cur + k - l.bpp], buf[l.prior + k], buf[l.prior + k - l.bpp];
      Put(buf, l, k, ByteSum(l.data[k], Paeth(left, up, upLeft)), above);
    }
  }

  /** Rebuilds row j of an image.  The halves of the buffer take turns; the first row has a
      row of zeros above it, and does not look at what the other half holds. */
  method UnfilterRow(buf: array<byte>, j: nat, filter: nat, bpp: nat, data: seq<byte>)
    requires buf.Length == 2 * |data| && 0 < bpp <= |data| && filter <= PAETH
    modifies buf
    ensures var w := |data|;
      var cur, prior := if j % 2 == 0 then 0 else w, if j % 2 == 0 then w else 0;
      && buf[prior..prior + w] == old(buf[prior..prior + w])
      && buf[cur..cur + w] == ReconRow(filter, bpp, data, if j == 0 then [] else old(buf[prior..prior + w]))
  {
    var w := |data|;
    var l := Line(if j % 2 == 0 then 0 else w, if j % 2 == 0 then w else 0,
      if j == 0 then FirstRowFilter(filter) else filter, bpp, data);
    ghost var above := buf[l.prior..l.prior + w];
    Unfilter(buf, l, above);
    RowRebuilt(buf[..], l, above);
    if j == 0 {
      FirstRowRow(filter, bpp, data, above);
    }
  }

  lemma RowRebuilt(buf: seq<byte>, l: Line, above: seq<byte>)
    requires Working(buf, l, above, |l.data|)
    ensures buf[l.cur..l.cur + |l.data|] == ReconRow(l.filter, l.bpp, l.data, above)
    ensures buf[l.prior..l.prior + |l.data|] == above
  {
    hide Recon;
    forall k: nat | k < |l.data|
      ensures buf[l.cur..l.cur + |l.data|][k] == ReconRow(l.filter, l.bpp, l.data, above)[k]
    {
      assert ByteIs(buf, l.cur, k, Recon(l.filter, l.bpp, l.data, above, k));
    }
  }

  /** On the first row the substituted filters do what the chosen ones do under zeros. */
  lemma FirstRowRow(filter: nat, bpp: nat, data: seq<byte>, any: seq<byte>)
    requires bpp > 0 && filter <= PAETH
    ensures ReconRow(FirstRowFilter(filter), bpp, data, any) == ReconRow(filter, bpp, data, [])
  {
    hide Recon;
    forall k: nat | k < |data|
      ensures Recon(FirstRowFilter(filter), bpp, data, any, k) == Recon(filter, bpp, data, [], k)
    {
      FirstRow(filter, bpp, data, any, k);
    }
  }
}
