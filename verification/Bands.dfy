/** Banded rendering: primitives are binned into bands of rows by a counting sort, and the
    bands are rendered concurrently.  A schedule says which band makes each step. */
module Bands {
  import opened Blend
  import opened Raster

  /** Band b meets the rows of the primitive. */
  predicate Meets(p: Prim, band: nat, b: int)
    requires band > 0
  {
    p.y0 / band <= b <= (p.y1 - 1) / band
  }

  /** The indices below n of the primitives that meet band b, in increasing order. */
  function Items(prims: seq<Prim>, band: nat, b: nat, n: nat): (s: seq<nat>)
    requires band > 0 && n <= |prims|
    ensures |s| <= n && forall k | 0 <= k < |s| :: s[k] < n
  {
    if n == 0 then []
    else Items(prims, band, b, n - 1) + if Meets(prims[n - 1], band, b) then [n - 1] else []
  }

  /** Where the items of band b start. */
  function Offset(prims: seq<Prim>, band: nat, b: nat): nat
    requires band > 0
  {
    if b == 0 then 0 else Offset(prims, band, b - 1) + |Items(prims, band, b - 1, |prims|)|
  }

  /** A pixel after the first n of the items are drawn over it. */
  function DrawnItems(g: Geometry, prims: seq<Prim>, items: seq<nat>, n: nat, y: int, x: int, d: Px): Px
    requires n <= |items| && forall k | 0 <= k < |items| :: items[k] < |prims|
  {
    if n == 0 then d
    else PixelStep(g, prims[items[n - 1]], y, x, DrawnItems(g, prims, items, n - 1, y, x, d))
  }

  /** How often band b is among the first n steps of the schedule. */
  function Occurs(schedule: seq<nat>, n: nat, b: nat): nat
    requires n <= |schedule|
  {
    if n == 0 then 0 else Occurs(schedule, n - 1, b) + if schedule[n - 1] == b then 1 else 0
  }

  predicate AllClipped(prims: seq<Prim>, H: nat, W: nat) {
    forall i | 0 <= i < |prims| :: Clipped(prims[i], H, W)
  }

  function BandCount(H: nat, band: nat): nat
    requires band > 0
  {
    (H + band - 1) / band
  }

  /** Every band makes exactly as many steps as it has items; they may interleave in any way. */
  ghost predicate Complete(schedule: seq<nat>, prims: seq<Prim>, band: nat, nb: nat)
    requires band > 0
  {
    && (forall t | 0 <= t < |schedule| :: schedule[t] < nb)
    && (forall b | 0 <= b < nb :: Occurs(schedule, |schedule|, b) == |Items(prims, band, b, |prims|)|)
  }

  // ---------------------------------------------------------------------------------------
  // Rows and bands

  lemma DivMono(a: int, b: int, d: nat)
    requires 0 <= a <= b && d > 0
    ensures 0 <= a / d <= b / d
  {
    DivBounds(a, d);
    DivBounds(b, d);
    if a / d > b / d {
      MulStep(b / d, a / d, d);
    }
  }

  lemma DivBounds(a: int, d: nat)
    requires 0 <= a && d > 0
    ensures 0 <= a / d && a / d * d <= a < a / d * d + d
  {
    var q: nat := a / d;
    assert a == q * d + a % d;
  }

  lemma MulStep(q: int, r: int, d: nat)
    requires q < r
    ensures q * d + d <= r * d
  {
    assert (r - q - 1) * d >= 0;
  }

  /** The rows of band b are those that divide to b. */
  lemma RowBand(y: int, band: nat, b: int)
    requires band > 0 && 0 <= y && 0 <= b
    ensures y / band == b <==> b * band <= y < b * band + band
  {
    DivBounds(y, band);
    if y / band < b {
      MulStep(y / band, b, band);
    } else if y / band > b {
      MulStep(b, y / band, band);
    }
  }

  /** A band between those of two rows has a row between them. */
  lemma RowWithin(first: int, last: int, band: nat, b: int) returns (y: int)
    requires band > 0 && 0 <= first <= last && first / band <= b <= last / band
    ensures first <= y <= last && y / band == b
  {
    DivBounds(first, band);
    if first / band == b {
      y := first;
    } else {
      y := b * band;
      DivBounds(last, band);
      MulStep(first / band, b, band);
      StartOf(b, band);
      if b < last / band {
        MulStep(b, last / band, band);
      }
    }
  }

  lemma StartOf(b: nat, band: nat)
    requires band > 0
    ensures 0 <= b * band && b * band / band == b
  {
    Products(0, b, band);
    RowBand(b * band, band, b);
  }

  /** The row lies in the band. */
  predicate InBand(y: int, band: nat, b: int)
    requires band > 0
  {
    y / band == b
  }

  lemma RowMeets(p: Prim, band: nat, b: int, y: int)
    requires band > 0 && 0 <= p.y0 <= y < p.y1 && InBand(y, band, b)
    ensures Meets(p, band, b)
  {
    DivMono(p.y0, y, band);
    DivMono(y, p.y1 - 1, band);
  }

  /** A band meets a primitive exactly when some row lies in both. */
  lemma MeetsIff(p: Prim, band: nat, b: int)
    requires band > 0 && 0 <= p.y0 < p.y1
    ensures Meets(p, band, b) <==> exists y :: p.y0 <= y < p.y1 && InBand(y, band, b)
  {
    if Meets(p, band, b) {
      var y := RowWithin(p.y0, p.y1 - 1, band, b);
      assert InBand(y, band, b);
    }
    hide InBand, Meets;
    forall y | p.y0 <= y < p.y1 && InBand(y, band, b)
      ensures Meets(p, band, b)
    {
      RowMeets(p, band, b, y);
    }
  }

  lemma LastBand(y: int, H: nat, band: nat)
    requires 0 <= y < H && band > 0
    ensures 0 <= y / band < BandCount(H, band)
  {
    DivBounds(y, band);
    var q := y / band;
    assert H + band - 1 >= q * band + band;
    DivMono(q * band + band, H + band - 1, band);
    RowBand(q * band + band, band, q + 1);
    assert (q + 1) * band == q * band + band;
  }

  // ---------------------------------------------------------------------------------------
  // Bands draw what the sequence draws

  /** On a row of band b, drawing the items of b is drawing everything. */
  lemma {:induction false} ItemsSuffice(g: Geometry, prims: seq<Prim>, band: nat, b: nat, n: nat, y: int, x: int, d: Px)
    requires band > 0 && n <= |prims| && 0 <= y && y / band == b
    requires forall i | 0 <= i < |prims| :: 0 <= prims[i].y0
    ensures var items := Items(prims, band, b, n);
      DrawnItems(g, prims, items, |items|, y, x, d) == Drawn(g, prims, n, y, x, d)
  {
    hide PixelStep;
    if n == 0 {
    } else {
      ItemsSuffice(g, prims, band, b, n - 1, y, x, d);
      var before, items := Items(prims, band, b, n - 1), Items(prims, band, b, n);
      DrawnItemsPrefix(g, prims, before, items, |before|, y, x, d);
      if !Meets(prims[n - 1], band, b) {
        OutsideBand(g, prims[n - 1], band, b, y, x, Drawn(g, prims, n - 1, y, x, d));
      }
    }
  }

  lemma OutsideBand(g: Geometry, p: Prim, band: nat, b: nat, y: int, x: int, d: Px)
    requires band > 0 && 0 <= y && y / band == b && 0 <= p.y0 && !Meets(p, band, b)
    ensures PixelStep(g, p, y, x, d) == d
  {
    if p.y0 <= y < p.y1 {
      DivMono(p.y0, y, band);
      DivMono(y, p.y1 - 1, band);
    }
  }

  lemma {:induction false} DrawnItemsPrefix(g: Geometry, prims: seq<Prim>, s: seq<nat>, t: seq<nat>, n: nat,
    y: int, x: int, d: Px)
    requires n <= |s| <= |t| && s == t[..|s|]
    requires forall k | 0 <= k < |t| :: t[k] < |prims|
    ensures DrawnItems(g, prims, s, n, y, x, d) == DrawnItems(g, prims, t, n, y, x, d)
  {
    hide PixelStep;
    if n == 0 {
    } else {
      DrawnItemsPrefix(g, prims, s, t, n - 1, y, x, d);
    }
  }

  // ---------------------------------------------------------------------------------------
  // The counting sort

  lemma {:induction false} OffsetMono(prims: seq<Prim>, band: nat, b: nat, c: nat)
    requires band > 0 && b <= c
    ensures Offset(prims, band, b) <= Offset(prims, band, c)
  {
    if b == c {
    } else {
      OffsetMono(prims, band, b, c - 1);
    }
  }

  lemma {:induction false} ItemsMono(prims: seq<Prim>, band: nat, b: nat, m: nat, n: nat)
    requires band > 0 && m <= n <= |prims|
    ensures |Items(prims, band, b, m)| <= |Items(prims, band, b, n)|
  {
    if m == n {
    } else {
      ItemsMono(prims, band, b, m, n - 1);
    }
  }

  /** How many primitives band c has seen while primitive i is entered in the bands below b. */
  function Seen(p: Prim, band: nat, i: nat, b: int, c: int): nat
    requires band > 0
  {
    if p.y0 / band <= c < b then i + 1 else i
  }

  lemma SeenEnds(prims: seq<Prim>, band: nat, i: nat, c: nat)
    requires band > 0 && i < |prims|
    ensures var p := prims[i];
      Items(prims, band, c, Seen(p, band, i, p.y0 / band, c)) == Items(prims, band, c, i)
      && Items(prims, band, c, Seen(p, band, i, (p.y1 - 1) / band + 1, c)) == Items(prims, band, c, i + 1)
  {
  }

  ghost predicate Counted(prims: seq<Prim>, band: nat, n: nat, counts: seq<nat>)
    requires band > 0 && n <= |prims|
  {
    |counts| > 0 && counts[0] == 0 &&
    forall c {:trigger counts[c]} | 1 <= c < |counts| :: counts[c] == |Items(prims, band, c - 1, n)|
  }

  ghost predicate Counting(prims: seq<Prim>, band: nat, i: nat, b: int, counts: seq<nat>)
    requires band > 0 && i < |prims|
  {
    |counts| > 0 && counts[0] == 0 &&
    forall c {:trigger counts[c]} | 1 <= c < |counts| ::
      counts[c] == |Items(prims, band, c - 1, Seen(prims[i], band, i, b, c - 1))|
  }

  /** Counts primitive i in every band it meets. */
  method CountPrim(prims: seq<Prim>, band: nat, i: nat, bstart: array<nat>)
    requires band > 0 && i < |prims| && bstart.Length > 0 && Counted(prims, band, i, bstart[..])
    requires 0 <= prims[i].y0 < prims[i].y1 && (prims[i].y1 - 1) / band < bstart.Length - 1
    modifies bstart
    ensures Counted(prims, band, i + 1, bstart[..])
  {
    hide Items;
    var p := prims[i];
    var b, e := p.y0 / band, (p.y1 - 1) / band;
    DivMono(p.y0, p.y1 - 1, band);
    while b <= e
      invariant p.y0 / band <= b <= e + 1
      invariant Counting(prims, band, i, b, bstart[..])
    {
      ItemsNext(prims, band, b, i);
      bstart[b + 1] := bstart[b + 1] + 1;
      b := b + 1;
    }
    forall c | 1 <= c < bstart.Length
      ensures bstart[c] == |Items(prims, band, c - 1, i + 1)|
    {
      SeenEnds(prims, band, i, c - 1);
      assert bstart[..][c] == bstart[c];
    }
  }

  lemma ItemsNext(prims: seq<Prim>, band: nat, b: nat, i: nat)
    requires band > 0 && i < |prims|
    ensures Meets(prims[i], band, b) ==> Items(prims, band, b, i + 1) == Items(prims, band, b, i) + [i]
    ensures !Meets(prims[i], band, b) ==> Items(prims, band, b, i + 1) == Items(prims, band, b, i)
  {
  }

  /** Turns the counts into the starts of the bands. */
  method PrefixSums(prims: seq<Prim>, band: nat, bstart: array<nat>)
    requires band > 0 && bstart.Length > 0 && Counted(prims, band, |prims|, bstart[..])
    modifies bstart
    ensures forall b | 0 <= b < bstart.Length :: bstart[b] == Offset(prims, band, b)
  {
    hide Items;
    ghost var counts := bstart[..];
    for b := 0 to bstart.Length - 1
      invariant forall c | 0 <= c <= b :: bstart[c] == Offset(prims, band, c)
      invariant forall c | b < c < bstart.Length :: bstart[c] == counts[c]
    {
      assert counts[b + 1] == |Items(prims, band, b, |prims|)|;
      bstart[b + 1] := bstart[b + 1] + bstart[b];
    }
  }

  /** The first m items of band c stand where they belong and its cursor behind them. */
  ghost predicate Placed(prims: seq<Prim>, band: nat, c: nat, m: nat, bcur: seq<nat>, bitems: seq<nat>)
    requires band > 0 && m <= |prims| && c < |bcur|
  {
    var s := Items(prims, band, c, m);
    var o := Offset(prims, band, c);
    bcur[c] == o + |s| <= |bitems| && bitems[o..o + |s|] == s
  }

  ghost predicate AllPlaced(prims: seq<Prim>, band: nat, n: nat, bcur: seq<nat>, bitems: seq<nat>)
    requires band > 0 && n <= |prims|
  {
    forall c | 0 <= c < |bcur| :: Placed(prims, band, c, n, bcur, bitems)
  }

  ghost predicate PlacedSoFar(prims: seq<Prim>, band: nat, i: nat, b: int, c: nat, bcur: seq<nat>, bitems: seq<nat>)
    requires band > 0 && i < |prims| && c < |bcur|
  {
    Placed(prims, band, c, Seen(prims[i], band, i, b, c), bcur, bitems)
  }

  ghost predicate Placing(prims: seq<Prim>, band: nat, i: nat, b: int, bcur: seq<nat>, bitems: seq<nat>)
    requires band > 0 && i < |prims|
  {
    forall c | 0 <= c < |bcur| :: PlacedSoFar(prims, band, i, b, c, bcur, bitems)
  }

  /** The item goes behind those of its band... */
  lemma PlaceHere(prims: seq<Prim>, band: nat, i: nat, b: nat, bcur: seq<nat>, bitems: seq<nat>)
    requires band > 0 && i < |prims| && b < |bcur| && Meets(prims[i], band, b)
    requires |bitems| == Offset(prims, band, |bcur|) && Placed(prims, band, b, i, bcur, bitems)
    ensures bcur[b] < |bitems|
    ensures Placed(prims, band, b, i + 1, bcur[b := bcur[b] + 1], bitems[bcur[b] := i])
  {
    hide Items, Offset;
    ItemsNext(prims, band, b, i);
    ItemsMono(prims, band, b, i + 1, |prims|);
    OffsetNext(prims, band, b);
    OffsetMono(prims, band, b + 1, |bcur|);
    var s, o := Items(prims, band, b, i), Offset(prims, band, b);
    var bitems' := bitems[bcur[b] := i];
    assert bitems'[o..o + |s| + 1] == bitems[o..o + |s|] + [i];
  }

  /** ... and is outside the part of every other. */
  lemma PlaceElsewhere(prims: seq<Prim>, band: nat, m: nat, b: nat, c: nat, i: nat, bcur: seq<nat>, bitems: seq<nat>)
    requires band > 0 && m <= |prims| && i < |prims| && b < |bcur| && c < |bcur| && b != c
    requires Meets(prims[i], band, b) && bcur[b] < |bitems|
    requires Placed(prims, band, b, i, bcur, bitems) && Placed(prims, band, c, m, bcur, bitems)
    ensures Placed(prims, band, c, m, bcur[b := bcur[b] + 1], bitems[bcur[b] := i])
  {
    hide Items, Offset;
    ItemsNext(prims, band, b, i);
    ItemsMono(prims, band, b, i + 1, |prims|);
    ItemsMono(prims, band, c, m, |prims|);
    OffsetNext(prims, band, b);
    OffsetNext(prims, band, c);
    if c < b {
      OffsetMono(prims, band, c + 1, b);
    } else {
      OffsetMono(prims, band, b + 1, c);
    }
    var s, o := Items(prims, band, c, m), Offset(prims, band, c);
    assert bitems[bcur[b] := i][o..o + |s|] == bitems[o..o + |s|];
  }

  /** Placing one item in band b finds room there and disturbs no other band. */
  lemma PlaceStep(prims: seq<Prim>, band: nat, i: nat, b: nat, bcur: seq<nat>, bitems: seq<nat>)
    requires band > 0 && i < |prims| && b < |bcur| && Meets(prims[i], band, b)
    requires |bitems| == Offset(prims, band, |bcur|)
    requires Placing(prims, band, i, b, bcur, bitems)
    ensures bcur[b] < |bitems|
    ensures Placing(prims, band, i, b + 1, bcur[b := bcur[b] + 1], bitems[bcur[b] := i])
  {
    hide Items, Offset, Placed;
    assert PlacedSoFar(prims, band, i, b, b, bcur, bitems);
    PlaceHere(prims, band, i, b, bcur, bitems);
    var next, bcur', bitems' := b + 1, bcur[b := bcur[b] + 1], bitems[bcur[b] := i];
    forall c: nat | c < |bcur|
      ensures PlacedSoFar(prims, band, i, next, c, bcur', bitems')
    {
      assert PlacedSoFar(prims, band, i, b, c, bcur, bitems);
      if c != b {
        PlaceElsewhere(prims, band, Seen(prims[i], band, i, b, c), b, c, i, bcur, bitems);
      }
    }
  }

  lemma OffsetNext(prims: seq<Prim>, band: nat, b: nat)
    requires band > 0
    ensures Offset(prims, band, b + 1) == Offset(prims, band, b) + |Items(prims, band, b, |prims|)|
  {
  }

  /** Enters primitive i in every band it meets. */
  method PlacePrim(prims: seq<Prim>, band: nat, i: nat, bcur: array<nat>, bitems: array<nat>)
    requires band > 0 && i < |prims| && bcur != bitems
    requires bitems.Length == Offset(prims, band, bcur.Length)
    requires AllPlaced(prims, band, i, bcur[..], bitems[..])
    requires 0 <= prims[i].y0 < prims[i].y1 && (prims[i].y1 - 1) / band < bcur.Length
    modifies bcur, bitems
    ensures AllPlaced(prims, band, i + 1, bcur[..], bitems[..])
  {
    hide Items, Offset, Placed, PlacedSoFar;
    var p := prims[i];
    StartPlacing(prims, band, i, bcur[..], bitems[..]);
    var b, e := p.y0 / band, (p.y1 - 1) / band;
    DivMono(p.y0, p.y1 - 1, band);
    ghost var cur, items := bcur[..], bitems[..];
    while b <= e
      invariant p.y0 / band <= b <= e + 1
      invariant bcur[..] == cur && bitems[..] == items && Placing(prims, band, i, b, cur, items)
    {
      PlaceStep(prims, band, i, b, cur, items);
      ghost var at := cur[b];
      bitems[bcur[b]] := i;
      bcur[b] := bcur[b] + 1;
      cur, items := cur[b := at + 1], items[at := i];
      b := b + 1;
    }
    EndPlacing(prims, band, i, cur, items);
  }

  lemma StartPlacing(prims: seq<Prim>, band: nat, i: nat, bcur: seq<nat>, bitems: seq<nat>)
    requires band > 0 && i < |prims| && AllPlaced(prims, band, i, bcur, bitems)
    ensures Placing(prims, band, i, prims[i].y0 / band, bcur, bitems)
  {
    hide Items, Offset;
    forall c: nat | c < |bcur|
      ensures PlacedSoFar(prims, band, i, prims[i].y0 / band, c, bcur, bitems)
    {
      assert Placed(prims, band, c, i, bcur, bitems);
    }
  }

  lemma EndPlacing(prims: seq<Prim>, band: nat, i: nat, bcur: seq<nat>, bitems: seq<nat>)
    requires band > 0 && i < |prims| && Placing(prims, band, i, (prims[i].y1 - 1) / band + 1, bcur, bitems)
    ensures AllPlaced(prims, band, i + 1, bcur, bitems)
  {
    hide Items, Offset;
    var n := i + 1;
    forall c: nat | c < |bcur|
      ensures Placed(prims, band, c, n, bcur, bitems)
    {
      assert PlacedSoFar(prims, band, i, (prims[i].y1 - 1) / band + 1, c, bcur, bitems);
      SeenEnds(prims, band, i, c);
    }
  }

  /** Bins the primitives by band, each band in drawing order. */
  method CountingSort(prims: seq<Prim>, band: nat, nb: nat) returns (bstart: array<nat>, bitems: array<nat>)
    requires band > 0
    requires forall i | 0 <= i < |prims| :: 0 <= prims[i].y0 < prims[i].y1 && (prims[i].y1 - 1) / band < nb
    ensures fresh(bstart) && fresh(bitems) && bstart.Length == nb + 1
    ensures forall b | 0 <= b <= nb :: bstart[b] == Offset(prims, band, b)
    ensures bitems.Length == Offset(prims, band, nb)
    ensures forall b | 0 <= b < nb :: Slice(bitems[..], Offset(prims, band, b), Offset(prims, band, b + 1))
                                   == Items(prims, band, b, |prims|)
  {
    hide Items, Offset, AllPlaced, Counted;
    bstart := new nat[nb + 1](_ => 0);
    NoneCounted(prims, band, bstart[..]);
    for i := 0 to |prims|
      invariant Counted(prims, band, i, bstart[..])
    {
      CountPrim(prims, band, i, bstart);
    }
    PrefixSums(prims, band, bstart);
    bitems := new nat[bstart[nb]];
    var bcur := new nat[nb](b requires 0 <= b < nb reads bstart => bstart[b]);
    NonePlaced(prims, band, bcur[..], bitems[..]);
    for i := 0 to |prims|
      invariant AllPlaced(prims, band, i, bcur[..], bitems[..])
      invariant forall b | 0 <= b <= nb :: bstart[b] == Offset(prims, band, b)
    {
      PlacePrim(prims, band, i, bcur, bitems);
    }
    AllSorted(prims, band, bcur[..], bitems[..]);
  }

  function Slice(s: seq<nat>, lo: nat, hi: nat): seq<nat> {
    if lo <= hi <= |s| then s[lo..hi] else []
  }

  lemma NoneCounted(prims: seq<Prim>, band: nat, counts: seq<nat>)
    requires band > 0 && |counts| > 0 && forall c | 0 <= c < |counts| :: counts[c] == 0
    ensures Counted(prims, band, 0, counts)
  {
  }

  lemma NonePlaced(prims: seq<Prim>, band: nat, bcur: seq<nat>, bitems: seq<nat>)
    requires band > 0 && |bitems| == Offset(prims, band, |bcur|)
    requires forall c | 0 <= c < |bcur| :: bcur[c] == Offset(prims, band, c)
    ensures AllPlaced(prims, band, 0, bcur, bitems)
  {
    hide Offset;
    forall c: nat | c < |bcur|
      ensures Placed(prims, band, c, 0, bcur, bitems)
    {
      OffsetMono(prims, band, c, |bcur|);
    }
  }

  lemma AllSorted(prims: seq<Prim>, band: nat, bcur: seq<nat>, bitems: seq<nat>)
    requires band > 0 && AllPlaced(prims, band, |prims|, bcur, bitems)
    ensures forall b | 0 <= b < |bcur| :: Slice(bitems, Offset(prims, band, b), Offset(prims, band, b + 1))
                                       == Items(prims, band, b, |prims|)
  {
    hide Items, Offset;
    forall b | 0 <= b < |bcur|
      ensures Slice(bitems, Offset(prims, band, b), Offset(prims, band, b + 1)) == Items(prims, band, b, |prims|)
    {
      assert Placed(prims, band, b, |prims|, bcur, bitems);
      OffsetNext(prims, band, b);
    }
  }

  // ---------------------------------------------------------------------------------------
  // Rendering

  lemma {:induction false} OccursMono(schedule: seq<nat>, m: nat, n: nat, b: nat)
    requires m <= n <= |schedule|
    ensures Occurs(schedule, m, b) <= Occurs(schedule, n, b)
  {
    if m == n {
    } else {
      OccursMono(schedule, m, n - 1, b);
    }
  }

  /** A pixel after the first t steps of the schedule. */
  ghost function BandPixel(g: Geometry, prims: seq<Prim>, band: nat, schedule: seq<nat>, t: nat, y: nat, x: int, d: Px): Px
    requires band > 0 && t <= |schedule|
  {
    var items := Items(prims, band, y / band, |prims|);
    var n := Occurs(schedule, t, y / band);
    if n <= |items| then DrawnItems(g, prims, items, n, y, x, d) else d
  }

  lemma BandStep(g: Geometry, prims: seq<Prim>, band: nat, schedule: seq<nat>, t: nat, y: nat, x: int, d: Px)
    requires band > 0 && t < |schedule|
    requires y / band == schedule[t] ==>
      Occurs(schedule, t, schedule[t]) < |Items(prims, band, schedule[t], |prims|)|
    ensures BandPixel(g, prims, band, schedule, t + 1, y, x, d) ==
      (var before := BandPixel(g, prims, band, schedule, t, y, x, d);
       var items := Items(prims, band, schedule[t], |prims|);
       if y / band == schedule[t]
       then PixelStep(g, prims[items[Occurs(schedule, t, schedule[t])]], y, x, before)
       else before)
  {
    hide Items, PixelStep;
  }

  lemma BandPixelEnds(g: Geometry, prims: seq<Prim>, band: nat, schedule: seq<nat>, H: nat, y: nat, x: int, d: Px)
    requires band > 0 && y < H && Complete(schedule, prims, band, BandCount(H, band))
    requires forall i | 0 <= i < |prims| :: 0 <= prims[i].y0
    ensures BandPixel(g, prims, band, schedule, 0, y, x, d) == d
    ensures BandPixel(g, prims, band, schedule, |schedule|, y, x, d) == Drawn(g, prims, |prims|, y, x, d)
  {
    hide Items, PixelStep, BandCount;
    LastBand(y, H, band);
    ItemsSuffice(g, prims, band, y / band, |prims|, y, x, d);
  }

  lemma ItemAt(prims: seq<Prim>, band: nat, b: nat, k: nat, bitems: seq<nat>)
    requires band > 0 && k < |Items(prims, band, b, |prims|)|
    requires Slice(bitems, Offset(prims, band, b), Offset(prims, band, b + 1)) == Items(prims, band, b, |prims|)
    ensures Offset(prims, band, b) + k < |bitems|
    ensures bitems[Offset(prims, band, b) + k] == Items(prims, band, b, |prims|)[k] < |prims|
  {
    hide Items, Offset;
    OffsetNext(prims, band, b);
  }

  /** Bands one after another: a schedule that always exists. */
  function BandByBand(prims: seq<Prim>, band: nat, nb: nat): (s: seq<nat>)
    requires band > 0
  {
    if nb == 0 then []
    else BandByBand(prims, band, nb - 1) + Times(nb - 1, |Items(prims, band, nb - 1, |prims|)|)
  }

  function Times(b: nat, n: nat): (s: seq<nat>)
    ensures |s| == n && forall k | 0 <= k < n :: s[k] == b
  {
    if n == 0 then [] else Times(b, n - 1) + [b]
  }

  lemma {:induction false} OccursAppend(s: seq<nat>, b: nat, n: nat, c: nat)
    ensures Occurs(s + Times(b, n), |s| + n, c) == Occurs(s, |s|, c) + if b == c then n else 0
  {
    if n == 0 {
      assert s + Times(b, 0) == s;
    } else {
      OccursAppend(s, b, n - 1, c);
      assert s + Times(b, n) == s + Times(b, n - 1) + [b];
      OccursPrefix(s + Times(b, n - 1), [b], |s| + n - 1, c);
    }
  }

  lemma {:induction false} OccursPrefix(s: seq<nat>, t: seq<nat>, n: nat, c: nat)
    requires n <= |s|
    ensures Occurs(s + t, n, c) == Occurs(s, n, c)
  {
    if n == 0 {
    } else {
      OccursPrefix(s, t, n - 1, c);
    }
  }

  lemma {:induction false} BandByBandCounts(prims: seq<Prim>, band: nat, nb: nat, c: nat)
    requires band > 0
    ensures var s := BandByBand(prims, band, nb);
      (forall t | 0 <= t < |s| :: s[t] < nb)
      && Occurs(s, |s|, c) == if c < nb then |Items(prims, band, c, |prims|)| else 0
  {
    hide Items;
    if nb == 0 {
    } else {
      BandByBandCounts(prims, band, nb - 1, c);
      OccursAppend(BandByBand(prims, band, nb - 1), nb - 1, |Items(prims, band, nb - 1, |prims|)|, c);
    }
  }

  lemma BandByBandComplete(prims: seq<Prim>, band: nat, nb: nat)
    requires band > 0
    ensures Complete(BandByBand(prims, band, nb), prims, band, nb)
  {
    hide Items, BandByBand;
    BandByBandCounts(prims, band, nb, 0);
    forall b: nat | b < nb
      ensures Occurs(BandByBand(prims, band, nb), |BandByBand(prims, band, nb)|, b)
           == |Items(prims, band, b, |prims|)|
    {
      BandByBandCounts(prims, band, nb, b);
    }
  }

  /** Renders the bands step by step as the schedule says.  Steps of different bands write
      different rows, so however they interleave each row ends up as its band draws it. */
  method RenderBands(g: Geometry, prims: seq<Prim>, fb: array2<Px>, band: nat, nb: nat,
    bstart: array<nat>, bitems: array<nat>, schedule: seq<nat>)
    requires band > 0 && AllClipped(prims, fb.Length0, fb.Length1) && nb == BandCount(fb.Length0, band)
    requires bstart.Length == nb + 1 && forall b | 0 <= b <= nb :: bstart[b] == Offset(prims, band, b)
    requires forall b | 0 <= b < nb :: Slice(bitems[..], Offset(prims, band, b), Offset(prims, band, b + 1))
                                    == Items(prims, band, b, |prims|)
    requires bitems.Length == Offset(prims, band, nb)
    requires Complete(schedule, prims, band, nb)
    modifies fb
    ensures forall i, j | 0 <= i < fb.Length0 && 0 <= j < fb.Length1 ::
        fb[i, j] == Drawn(g, prims, |prims|, i, j, old(fb[i, j]))
  {
    hide Items, Offset, PixelStep, Slice, BandPixel, BandCount, Drawn;
    var next := new nat[nb](_ => 0);
    forall i, j | 0 <= i < fb.Length0 && 0 <= j < fb.Length1
      ensures BandPixel(g, prims, band, schedule, 0, i, j, fb[i, j]) == fb[i, j]
    {
      BandPixelEnds(g, prims, band, schedule, fb.Length0, i, j, fb[i, j]);
    }
    for t := 0 to |schedule|
      invariant forall b | 0 <= b < nb :: next[b] == Occurs(schedule, t, b)
      invariant forall i, j | 0 <= i < fb.Length0 && 0 <= j < fb.Length1 ::
          fb[i, j] == BandPixel(g, prims, band, schedule, t, i, j, old(fb[i, j]))
    {
      var b := schedule[t];
      OccursMono(schedule, t + 1, |schedule|, b);
      assert next[b] == Occurs(schedule, t, b) < |Items(prims, band, b, |prims|)|;
      ItemAt(prims, band, b, next[b], bitems[..]);
      var ylo := b * band;
      var yhi := Min(fb.Length0, ylo + band);
      forall i, j | 0 <= i < fb.Length0 && 0 <= j < fb.Length1
        ensures BandPixel(g, prims, band, schedule, t + 1, i, j, old(fb[i, j])) ==
          if ylo <= i < yhi then PixelStep(g, prims[bitems[bstart[b] + next[b]]], i, j, fb[i, j]) else fb[i, j]
      {
        RowBand(i, band, b);
        BandStep(g, prims, band, schedule, t, i, j, old(fb[i, j]));
      }
      RenderPrim(g, prims[bitems[bstart[b] + next[b]]], fb, ylo, yhi);
      next[b] := next[b] + 1;
    }
    forall i, j | 0 <= i < fb.Length0 && 0 <= j < fb.Length1
      ensures fb[i, j] == Drawn(g, prims, |prims|, i, j, old(fb[i, j]))
    {
      BandPixelEnds(g, prims, band, schedule, fb.Length0, i, j, old(fb[i, j]));
    }
  }

  function BandHeight(H: nat, nthreads: nat): (band: nat)
    requires nthreads > 0
    ensures 8 <= band <= 64
  {
    Max(8, Min(64, H / (nthreads * 4)))
  }

  /** The share of n in a number of rows, if that is from 8 to 64, and otherwise the nearer of these two. */
  predicate IsShare(H: nat, n: nat, b: nat) {
    8 <= b <= 64 && (b > 8 ==> b * n <= H) && (b < 64 ==> H < (b + 1) * n)
  }

  predicate IsQuotient(a: nat, n: nat, q: nat) {
    q * n <= a < (q + 1) * n
  }

  /** A band has a quarter of a thread's share of the rows, within limits. */
  lemma BandHeightIs(H: nat, nthreads: nat)
    requires nthreads > 0
    ensures IsShare(H, nthreads * 4, BandHeight(H, nthreads))
  {
    hide IsShare, BandHeight;
    ShareIs(H, nthreads * 4);
    BandHeightOf(H, nthreads, nthreads * 4);
  }

  lemma ShareIs(H: nat, n: nat)
    requires n > 0
    ensures IsShare(H, n, Max(8, Min(64, H / n)))
  {
    hide IsQuotient, IsShare;
    QuotientIs(H, n);
    ClampedIs(H, n, H / n);
  }

  lemma BandHeightOf(H: nat, nthreads: nat, n: nat)
    requires nthreads > 0 && n == nthreads * 4
    ensures BandHeight(H, nthreads) == Max(8, Min(64, H / n))
  {
    hide Max, Min;
  }

  lemma ClampedIs(H: nat, n: nat, q: nat)
    requires IsQuotient(H, n, q)
    ensures IsShare(H, n, Max(8, Min(64, q)))
  {
    var b := Max(8, Min(64, q));
    if b > 8 {
      Products(b, q, n);
    }
    if b < 64 {
      Products(q + 1, b + 1, n);
    }
  }

  lemma QuotientIs(a: nat, n: nat)
    requires n > 0
    ensures IsQuotient(a, n, a / n)
  {
    var q, r := a / n, a % n;
    assert a == q * n + r;
    OneTimeMore(q, n);
  }

  lemma OneTimeMore(q: nat, n: nat)
    ensures (q + 1) * n == q * n + n
  {
  }

  lemma Products(a: nat, b: nat, n: nat)
    requires a <= b
    ensures a * n <= b * n
  {
  }

  /** There are as many bands as the rows need. */
  lemma BandsCover(H: nat, band: nat)
    requires band > 0
    ensures H <= BandCount(H, band) * band < H + band
  {
    QuotientIs(H + band - 1, band);
    OneTimeMore(BandCount(H, band), band);
  }

  /** Draws all primitives, directly or in bands; the framebuffer is the same. */
  method RenderSegment(g: Geometry, prims: seq<Prim>, fb: array2<Px>, nthreads: nat, schedule: seq<nat>)
    requires AllClipped(prims, fb.Length0, fb.Length1) && nthreads > 0
    requires var band := BandHeight(fb.Length0, nthreads);
      Complete(schedule, prims, band, BandCount(fb.Length0, band))
    modifies fb
    ensures forall i, j | 0 <= i < fb.Length0 && 0 <= j < fb.Length1 ::
        fb[i, j] == Drawn(g, prims, |prims|, i, j, old(fb[i, j]))
  {
    hide PixelStep, Items, Offset, Slice, BandCount, Occurs;
    var np := |prims|;
    if nthreads <= 1 || np < 32 {
      for k := 0 to np
        invariant forall i, j | 0 <= i < fb.Length0 && 0 <= j < fb.Length1 ::
            fb[i, j] == Drawn(g, prims, k, i, j, old(fb[i, j]))
      {
        RenderPrim(g, prims[k], fb, 0, fb.Length0);
      }
      return;
    }
    var band := BandHeight(fb.Length0, nthreads);
    var nb := BandCount(fb.Length0, band);
    forall i | 0 <= i < np
      ensures (prims[i].y1 - 1) / band < nb
    {
      LastBand(prims[i].y1 - 1, fb.Length0, band);
    }
    var bstart, bitems := CountingSort(prims, band, nb);
    RenderBands(g, prims, fb, band, nb, bstart, bitems, schedule);
  }
}
