/** Writing the samples of a rebuilt row to a row of the output, in place where they are
    already there and only the alpha channel is missing. */
module PngOutput {
  import opened BitStream
  import opened PngSamples

  /** Where channel c of pixel i is in a row of n channels per pixel. */
  function Index(i: nat, n: nat, c: nat): nat {
    i * n + c
  }

  lemma IndexRange(i: nat, x: nat, n: nat, c: nat)
    requires i < x && c < n
    ensures Index(i, n, c) < Index(x, n, 0)
  {
    Ordered(i + 1, x, n);
    assert (i + 1) * n == i * n + n;
  }

  lemma Ordered(i: nat, x: nat, n: nat)
    requires i <= x
    ensures i * n <= x * n
  {
  }

  /** The output values of the samples of a row of n. */
  function Values(row: seq<byte>, n: nat, depth: nat, color: nat): (v: seq<nat>)
    ensures |v| == n
  {
    seq(n, (k: nat) => Scale(depth, color) * Sample(row, depth, k))
  }

  predicate Channels(imgN: nat, outN: nat) {
    1 <= imgN <= 4 && (outN == imgN || (outN == imgN + 1 && (imgN == 1 || imgN == 3)))
  }

  /** A pixel of an output row: its samples, and alpha if it has one more channel. */
  ghost predicate PixelShows(r: seq<nat>, i: nat, imgN: nat, outN: nat, alpha: nat, v: seq<nat>) {
    forall c: nat | c < outN :: ChannelShows(r, i, imgN, outN, alpha, v, c)
  }

  ghost predicate ChannelShows(r: seq<nat>, i: nat, imgN: nat, outN: nat, alpha: nat, v: seq<nat>, c: nat) {
    && Index(i, outN, c) < |r|
    && if c < imgN then Index(i, imgN, c) < |v| && r[Index(i, outN, c)] == v[Index(i, imgN, c)]
       else r[Index(i, outN, c)] == alpha
  }

  ghost predicate RowShows(r: seq<nat>, x: nat, imgN: nat, outN: nat, alpha: nat, v: seq<nat>) {
    forall i: nat | i < x :: PixelShows(r, i, imgN, outN, alpha, v)
  }

  ghost function RowOf(out: array2<nat>, j: nat): (r: seq<nat>)
    requires j < out.Length0
    reads out
    ensures |r| == out.Length1 && forall k | 0 <= k < |r| :: r[k] == out[j, k]
  {
    seq(out.Length1, k requires 0 <= k < out.Length1 reads out => out[j, k])
  }

  twostate predicate OtherRowsKept(out: array2<nat>, j: nat)
    reads out
  {
    forall a: nat, b: nat | a < out.Length0 && b < out.Length1 && a != j :: out[a, b] == old(out[a, b])
  }

  // ---------------------------------------------------------------------------------------
  // Samples without alpha

  ghost predicate FlatShows(out: array2<nat>, j: nat, v: seq<nat>, n: nat)
    reads out
  {
    j < out.Length0 && n <= |v| && n <= out.Length1 && forall k: nat | k < n :: out[j, k] == v[k]
  }

  lemma FlatIsRow(out: array2<nat>, j: nat, x: nat, imgN: nat, alpha: nat, v: seq<nat>)
    requires FlatShows(out, j, v, |v|) && |v| == Index(x, imgN, 0) && imgN > 0
    ensures RowShows(RowOf(out, j), x, imgN, imgN, alpha, v)
  {
    hide Index;
    forall i: nat, c: nat | i < x && c < imgN
      ensures ChannelShows(RowOf(out, j), i, imgN, imgN, alpha, v, c)
    {
      IndexRange(i, x, imgN, c);
    }
  }

  lemma ValueAt(row: seq<byte>, n: nat, depth: nat, color: nat, k: nat)
    requires k < n
    ensures Values(row, n, depth, color)[k] == Scale(depth, color) * Sample(row, depth, k)
  {
  }

  lemma InRow(k: nat, n: nat, depth: nat)
    requires k < n && (depth == 1 || depth == 2 || depth == 4)
    ensures ByteOf(k, depth) < BytesFor(n, depth)
  {
    if depth == 1 {
    } else if depth == 2 {
    } else {
    }
  }

  /** Expands samples of fewer than eight bits. */
  method ExpandBits(buf: array<byte>, cur: nat, out: array2<nat>, j: nat, n: nat, depth: nat, color: nat,
    ghost row: seq<byte>)
    requires (depth == 1 || depth == 2 || depth == 4) && j < out.Length0 && n <= out.Length1
    requires cur + BytesFor(n, depth) <= buf.Length && row == buf[cur..cur + BytesFor(n, depth)]
    modifies out
    ensures FlatShows(out, j, Values(row, n, depth, color), n) && OtherRowsKept(out, j)
  {
    hide Sample, Shifted, HighBits, ShiftOut, Values, ByteOf, PhaseOf, BytesFor, Scale;
    ghost var v := Values(row, n, depth, color);
    var scale := Scale(depth, color);
    var i: nat, at: nat, inb: byte := 0, 0, 0;
    Origin(depth);
    while i < n
      invariant i <= n && FlatShows(out, j, v, i) && OtherRowsKept(out, j)
      invariant at == if PhaseOf(i, depth) == 0 then ByteOf(i, depth) else ByteOf(i, depth) + 1
      invariant PhaseOf(i, depth) != 0 ==> inb == Shifted(ByteAt(row, ByteOf(i, depth)), PhaseOf(i, depth))
    {
      SmallSample(row, depth, i);
      InRow(i, n, depth);
      ValueAt(row, n, depth, color, i);
      if PhaseOf(i, depth) == 0 {
        inb := buf[cur + at];
        at := at + 1;
        Unshifted(row, ByteOf(i, depth), inb);
      }
      out[j, i] := scale * HighBits(inb, depth);
      inb := ShiftOut(inb, depth);
      i := i + 1;
    }
  }

  lemma Origin(depth: nat)
    ensures PhaseOf(0, depth) == 0 && ByteOf(0, depth) == 0
  {
  }

  lemma Unshifted(row: seq<byte>, k: nat, b: byte)
    requires k < |row| && row[k] == b
    ensures Shifted(ByteAt(row, k), 0) == b
  {
  }

  function BigEndian(high: int, low: int): int {
    256 * high + low
  }

  function Word(buf: array<byte>, k: nat): nat
    requires k + 1 < buf.Length
    reads buf
  {
    BigEndian(buf[k], buf[k + 1])
  }

  /** Copies samples of one or two bytes. */
  method CopySamples(buf: array<byte>, cur: nat, out: array2<nat>, j: nat, n: nat, depth: nat, color: nat,
    ghost row: seq<byte>)
    requires (depth == 8 || depth == 16) && j < out.Length0 && n <= out.Length1
    requires cur + BytesFor(n, depth) <= buf.Length && row == buf[cur..cur + BytesFor(n, depth)]
    modifies out
    ensures FlatShows(out, j, Values(row, n, depth, color), n) && OtherRowsKept(out, j)
  {
    hide Sample, Values;
    ghost var v := Values(row, n, depth, color);
    for i := 0 to n
      invariant FlatShows(out, j, v, i) && OtherRowsKept(out, j)
    {
      ValueAt(row, n, depth, color, i);
      WideSample(row, i);
      out[j, i] := if depth == 8 then buf[cur + i] else Word(buf, cur + 2 * i);
    }
  }

  // ---------------------------------------------------------------------------------------
  // Samples and alpha

  /** A pixel of one or three samples, with alpha after them. */
  ghost predicate SpreadAt(r: seq<nat>, i: nat, imgN: nat, alpha: nat, v: seq<nat>) {
    if imgN == 1 then
      && i < |v| && 2 * i + 1 < |r| && r[2 * i] == v[i] && r[2 * i + 1] == alpha
    else
      && 3 * i + 2 < |v| && 4 * i + 3 < |r|
      && r[4 * i] == v[3 * i] && r[4 * i + 1] == v[3 * i + 1] && r[4 * i + 2] == v[3 * i + 2] && r[4 * i + 3] == alpha
  }

  ghost predicate SpreadFrom(r: seq<nat>, lo: nat, hi: nat, imgN: nat, alpha: nat, v: seq<nat>) {
    forall i: nat | lo <= i < hi :: SpreadAt(r, i, imgN, alpha, v)
  }

  /** One more pixel is written, before or after those already written. */
  lemma SpreadMore(r: seq<nat>, r': seq<nat>, lo: nat, hi: nat, at: nat, imgN: nat, alpha: nat, v: seq<nat>)
    requires |r| == |r'| && (imgN == 1 || imgN == 3) && (at + 1 == lo || at == hi >= lo)
    requires SpreadFrom(r, lo, hi, imgN, alpha, v) && SpreadAt(r', at, imgN, alpha, v)
    requires forall k: nat | k < |r| && !((imgN + 1) * at <= k < (imgN + 1) * at + (imgN + 1)) :: r'[k] == r[k]
    ensures SpreadFrom(r', if at < lo then at else lo, if at < lo then hi else at + 1, imgN, alpha, v)
  {
    forall i: nat | lo <= i < hi
      ensures SpreadAt(r', i, imgN, alpha, v)
    {
      assert SpreadAt(r, i, imgN, alpha, v);
    }
  }

  lemma SpreadIsRow(out: array2<nat>, j: nat, x: nat, imgN: nat, alpha: nat, v: seq<nat>)
    requires j < out.Length0 && (imgN == 1 || imgN == 3)
    requires SpreadFrom(RowOf(out, j), 0, x, imgN, alpha, v)
    ensures RowShows(RowOf(out, j), x, imgN, imgN + 1, alpha, v)
  {
    var outN := imgN + 1;
    forall i: nat | i < x
      ensures PixelShows(RowOf(out, j), i, imgN, outN, alpha, v)
    {
      assert SpreadAt(RowOf(out, j), i, imgN, alpha, v);
      forall c: nat | c < outN
        ensures ChannelShows(RowOf(out, j), i, imgN, outN, alpha, v, c)
      {
        if imgN == 1 {
          assert Index(i, 2, c) == 2 * i + c && Index(i, 1, c) == i + c;
        } else {
          assert Index(i, 4, c) == 4 * i + c && Index(i, 3, c) == 3 * i + c;
        }
      }
    }
  }

  /** Makes room for alpha after every pixel of a row, from its end backwards since the
      samples move within the row. */
  method AlphaInPlace(out: array2<nat>, j: nat, x: nat, imgN: nat, ghost v: seq<nat>)
    requires (imgN == 1 || imgN == 3) && |v| == imgN * x && out.Length1 == (imgN + 1) * x
    requires FlatShows(out, j, v, |v|)
    modifies out
    ensures SpreadFrom(RowOf(out, j), 0, x, imgN, 255, v)
    ensures OtherRowsKept(out, j)
  {
    if imgN == 1 {
      AlphaAfterGrey(out, j, x, v);
    } else {
      AlphaAfterColour(out, j, x, v);
    }
  }

  method AlphaAfterGrey(out: array2<nat>, j: nat, x: nat, ghost v: seq<nat>)
    requires |v| == x && out.Length1 == 2 * x && FlatShows(out, j, v, x)
    modifies out
    ensures SpreadFrom(RowOf(out, j), 0, x, 1, 255, v)
    ensures OtherRowsKept(out, j)
  {
    hide RowOf;
    var i: nat := x;
    while i > 0
      invariant i <= x && FlatShows(out, j, v, i) && OtherRowsKept(out, j)
      invariant SpreadFrom(RowOf(out, j), i, x, 1, 255, v)
    {
      hide SpreadFrom;
      i := i - 1;
      ghost var before := RowOf(out, j);
      out[j, 2 * i + 1] := 255;
      out[j, 2 * i] := out[j, i];
      SpreadMore(before, RowOf(out, j), i + 1, x, i, 1, 255, v);
    }
  }

  method AlphaAfterColour(out: array2<nat>, j: nat, x: nat, ghost v: seq<nat>)
    requires |v| == 3 * x && out.Length1 == 4 * x && FlatShows(out, j, v, 3 * x)
    modifies out
    ensures SpreadFrom(RowOf(out, j), 0, x, 3, 255, v)
    ensures OtherRowsKept(out, j)
  {
    hide RowOf;
    var i: nat := x;
    while i > 0
      invariant i <= x && FlatShows(out, j, v, 3 * i) && OtherRowsKept(out, j)
      invariant SpreadFrom(RowOf(out, j), i, x, 3, 255, v)
    {
      hide SpreadFrom;
      i := i - 1;
      ghost var before := RowOf(out, j);
      out[j, 4 * i + 3] := 255;
      out[j, 4 * i + 2] := out[j, 3 * i + 2];
      out[j, 4 * i + 1] := out[j, 3 * i + 1];
      out[j, 4 * i] := out[j, 3 * i];
      SpreadMore(before, RowOf(out, j), i + 1, x, i, 3, 255, v);
    }
  }

  /** Copies whole bytes and adds alpha, again from the end. */
  method SpreadBytes(buf: array<byte>, cur: nat, out: array2<nat>, j: nat, x: nat, imgN: nat, ghost v: seq<nat>)
    requires (imgN == 1 || imgN == 3) && |v| == imgN * x && out.Length1 == (imgN + 1) * x && j < out.Length0
    requires cur + |v| <= buf.Length && forall k: nat | k < |v| :: v[k] == buf[cur + k]
    modifies out
    ensures SpreadFrom(RowOf(out, j), 0, x, imgN, 255, v)
    ensures OtherRowsKept(out, j)
  {
    if imgN == 1 {
      SpreadGreyBytes(buf, cur, out, j, x, v);
    } else {
      SpreadColourBytes(buf, cur, out, j, x, v);
    }
  }

  method SpreadGreyBytes(buf: array<byte>, cur: nat, out: array2<nat>, j: nat, x: nat, ghost v: seq<nat>)
    requires |v| == x && out.Length1 == 2 * x && j < out.Length0
    requires cur + x <= buf.Length && forall k: nat | k < x :: v[k] == buf[cur + k]
    modifies out
    ensures SpreadFrom(RowOf(out, j), 0, x, 1, 255, v)
    ensures OtherRowsKept(out, j)
  {
    hide RowOf;
    var i: nat := x;
    while i > 0
      invariant i <= x && OtherRowsKept(out, j)
      invariant SpreadFrom(RowOf(out, j), i, x, 1, 255, v)
    {
      hide SpreadFrom;
      i := i - 1;
      ghost var before := RowOf(out, j);
      out[j, 2 * i + 1] := 255;
      out[j, 2 * i] := buf[cur + i];
      SpreadMore(before, RowOf(out, j), i + 1, x, i, 1, 255, v);
    }
  }

  method SpreadColourBytes(buf: array<byte>, cur: nat, out: array2<nat>, j: nat, x: nat, ghost v: seq<nat>)
    requires |v| == 3 * x && out.Length1 == 4 * x && j < out.Length0
    requires cur + 3 * x <= buf.Length && forall k: nat | k < 3 * x :: v[k] == buf[cur + k]
    modifies out
    ensures SpreadFrom(RowOf(out, j), 0, x, 3, 255, v)
    ensures OtherRowsKept(out, j)
  {
    hide RowOf;
    var i: nat := x;
    while i > 0
      invariant i <= x && OtherRowsKept(out, j)
      invariant SpreadFrom(RowOf(out, j), i, x, 3, 255, v)
    {
      hide SpreadFrom;
      i := i - 1;
      ghost var before := RowOf(out, j);
      out[j, 4 * i + 3] := 255;
      out[j, 4 * i + 2] := buf[cur + (3 * i + 2)];
      out[j, 4 * i + 1] := buf[cur + (3 * i + 1)];
      out[j, 4 * i] := buf[cur + 3 * i];
      SpreadMore(before, RowOf(out, j), i + 1, x, i, 3, 255, v);
    }
  }

  /** Copies samples of two bytes and adds alpha. */
  method SpreadWords(buf: array<byte>, cur: nat, out: array2<nat>, j: nat, x: nat, imgN: nat, ghost v: seq<nat>)
    requires (imgN == 1 || imgN == 3) && |v| == imgN * x && out.Length1 == (imgN + 1) * x && j < out.Length0
    requires cur + 2 * |v| <= buf.Length && forall k: nat | k < |v| :: v[k] == Word(buf, cur + 2 * k)
    modifies out
    ensures SpreadFrom(RowOf(out, j), 0, x, imgN, 0xffff, v)
    ensures OtherRowsKept(out, j)
  {
    if imgN == 1 {
      SpreadGreyWords(buf, cur, out, j, x, v);
    } else {
      SpreadColourWords(buf, cur, out, j, x, v);
    }
  }

  method SpreadGreyWords(buf: array<byte>, cur: nat, out: array2<nat>, j: nat, x: nat, ghost v: seq<nat>)
    requires |v| == x && out.Length1 == 2 * x && j < out.Length0
    requires cur + 2 * x <= buf.Length && forall k: nat | k < x :: v[k] == Word(buf, cur + 2 * k)
    modifies out
    ensures SpreadFrom(RowOf(out, j), 0, x, 1, 0xffff, v)
    ensures OtherRowsKept(out, j)
  {
    hide RowOf;
    for i := 0 to x
      invariant OtherRowsKept(out, j)
      invariant SpreadFrom(RowOf(out, j), 0, i, 1, 0xffff, v)
    {
      hide SpreadFrom, Word;
      ghost var before := RowOf(out, j);
      out[j, 2 * i] := Word(buf, cur + 2 * i);
      out[j, 2 * i + 1] := 0xffff;
      SpreadMore(before, RowOf(out, j), 0, i, i, 1, 0xffff, v);
    }
  }

  method SpreadColourWords(buf: array<byte>, cur: nat, out: array2<nat>, j: nat, x: nat, ghost v: seq<nat>)
    requires |v| == 3 * x && out.Length1 == 4 * x && j < out.Length0
    requires cur + 6 * x <= buf.Length && forall k: nat | k < 3 * x :: v[k] == Word(buf, cur + 2 * k)
    modifies out
    ensures SpreadFrom(RowOf(out, j), 0, x, 3, 0xffff, v)
    ensures OtherRowsKept(out, j)
  {
    hide RowOf;
    for i := 0 to x
      invariant OtherRowsKept(out, j)
      invariant SpreadFrom(RowOf(out, j), 0, i, 3, 0xffff, v)
    {
      hide SpreadFrom, Word;
      ghost var before := RowOf(out, j);
      out[j, 4 * i] := Word(buf, cur + 2 * (3 * i));
      out[j, 4 * i + 1] := Word(buf, cur + 2 * (3 * i + 1));
      out[j, 4 * i + 2] := Word(buf, cur + 2 * (3 * i + 2));
      out[j, 4 * i + 3] := 0xffff;
      SpreadMore(before, RowOf(out, j), 0, i, i, 3, 0xffff, v);
    }
  }

  /** Expands a rebuilt row into row j of the output. */
  method EmitRow(buf: array<byte>, cur: nat, out: array2<nat>, j: nat, x: nat, imgN: nat, outN: nat, depth: nat, color: nat)
    requires DepthOk(depth) && Channels(imgN, outN) && j < out.Length0 && out.Length1 == Index(x, outN, 0)
    requires cur + BytesFor(Index(x, imgN, 0), depth) <= buf.Length
    modifies out
    ensures var n := Index(x, imgN, 0);
      RowShows(RowOf(out, j), x, imgN, outN, Opaque(depth), Values(buf[cur..cur + BytesFor(n, depth)], n, depth, color))
    ensures OtherRowsKept(out, j)
  {
    hide Sample, Values, RowShows, SpreadAt, FlatShows;
    var n := Index(x, imgN, 0);
    ghost var row := buf[cur..cur + BytesFor(n, depth)];
    ghost var v := Values(row, n, depth, color);
    IndexNarrow(x, imgN);
    if depth < 8 {
      ExpandBits(buf, cur, out, j, n, depth, color, row);
      if imgN != outN {
        AlphaInPlace(out, j, x, imgN, v);
      }
    } else if imgN == outN {
      CopySamples(buf, cur, out, j, n, depth, color, row);
    } else {
      WideValues(row, n, depth, color);
      if depth == 8 {
        SpreadBytes(buf, cur, out, j, x, imgN, v);
      } else {
        SpreadWords(buf, cur, out, j, x, imgN, v);
      }
    }
    if imgN == outN {
      FlatIsRow(out, j, x, imgN, Opaque(depth), v);
    } else {
      SpreadIsRow(out, j, x, imgN, Opaque(depth), v);
    }
  }

  lemma IndexNarrow(x: nat, imgN: nat)
    ensures Index(x, imgN, 0) <= Index(x, imgN + 1, 0)
    ensures imgN == 1 || imgN == 3 ==> Index(x, imgN, 0) == imgN * x && Index(x, imgN + 1, 0) == (imgN + 1) * x
  {
    assert x * (imgN + 1) == x * imgN + x;
  }

  lemma WideValues(row: seq<byte>, n: nat, depth: nat, color: nat)
    requires (depth == 8 || depth == 16) && |row| == BytesFor(n, depth)
    ensures depth == 8 ==> |row| == n && forall k: nat | k < n :: Values(row, n, depth, color)[k] == row[k]
    ensures depth == 16 ==> |row| == 2 * n
    ensures depth == 16 ==> forall k: nat | k < n :: Values(row, n, depth, color)[k] == BigEndian(row[2 * k], row[2 * k + 1])
  {
    hide Sample;
    forall k: nat | k < n
      ensures depth == 8 ==> Values(row, n, depth, color)[k] == row[k]
      ensures depth == 16 ==> Values(row, n, depth, color)[k] == BigEndian(row[2 * k], row[2 * k + 1])
    {
      WideSample(row, k);
    }
  }
}
