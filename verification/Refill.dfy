/** When the inflater fetches input, and when it notices that the input has run out.  Bytes are
    fetched ahead of use, with zeros after the end, so whether a stream that runs into the zeros is
    refused depends on how far ahead the bytes were fetched. */
module Refill {
  import opened BitStream
  import opened Canonical
  import opened Common
  import opened Deflate

  /** How many bytes were fetched, zeros past the end included, and whether the sixteen zero bits
      that are granted once were. */
  datatype Fetch = Fetch(bytes: nat, granted: bool)

  /** The bits that are held when those before p are used. */
  function Held(f: Fetch, p: nat): int {
    8 * f.bytes + (if f.granted then 16 else 0) - p
  }

  /** Bytes are fetched until more than 24 bits are held. */
  function TopUp(f: Fetch, p: nat): (r: Fetch)
    ensures r.granted == f.granted && r.bytes >= f.bytes && Held(r, p) >= 25
    decreases 32 - Held(f, p)
  {
    if Held(f, p) > 24 then f else TopUp(f.(bytes := f.bytes + 1), p)
  }

  lemma TopUpStep(f: Fetch, p: nat)
    ensures Held(f, p) > 24 ==> TopUp(f, p) == f
    ensures Held(f, p) <= 24 ==> TopUp(f, p) == TopUp(f.(bytes := f.bytes + 1), p)
  {
  }

  /** Before n bits are received, enough are fetched. */
  function Received(f: Fetch, p: nat, n: nat): (r: Fetch)
    ensures r.granted == f.granted && r.bytes >= f.bytes
  {
    if Held(f, p) < n then TopUp(f, p) else f
  }

  /** Before a symbol is decoded, sixteen bits must be held.  When the length bytes of the input are
      used up, sixteen zero bits are granted instead, but not twice. */
  function Ready(f: Fetch, p: nat, length: nat): (r: Option<Fetch>)
    ensures r.Some? ==> r.value.bytes >= f.bytes
  {
    if Held(f, p) >= 16 then Some(f)
    else if f.bytes < length then Some(TopUp(f, p))
    else if !f.granted then Some(f.(granted := true))
    else None
  }

  /** At the end of a block, bits of the grant must not have been used. */
  predicate Overrun(f: Fetch, p: nat) {
    f.granted && Held(f, p) < 16
  }

  // ---------------------------------------------------------------------------------------
  // The schedule of a run

  ghost function MatchFetch(dist: seq<nat>, input: seq<byte>, l: nat, q: nat, f: Fetch): Option<Fetch>
    requires l < 29
  {
    var r := q + LengthExtra(l);
    match Ready(Received(f, q, LengthExtra(l)), r, |input|)
    case None => None
    case Some(g) =>
      match NextSymbol(dist, input, r)
      case None => None
      case Some(d) => if d >= 30 then None else Some(Received(g, r + dist[d], DistExtra(d)))
  }

  /** One symbol of a compressed block, at p. */
  ghost function SymbolFetch(lit: seq<nat>, dist: seq<nat>, input: seq<byte>, p: nat, f: Fetch): Option<Fetch> {
    match Ready(f, p, |input|)
    case None => None
    case Some(g) =>
      match NextSymbol(lit, input, p)
      case None => None
      case Some(z) =>
        var q := p + lit[z];
        if z < 256 then Some(g)
        else if z == 256 then if Overrun(g, q) then None else Some(g)
        else if z >= 286 then None
        else MatchFetch(dist, input, z - 257, q, g)
  }

  ghost function SymbolRunFetch(lit: seq<nat>, dist: seq<nat>, input: seq<byte>, p: nat, out: seq<byte>,
    f: Fetch, n: nat): Option<Fetch>
  {
    if n == 0 then Some(f)
    else
      match SymbolRun(lit, dist, input, p, out, n - 1)
      case More(q, _) =>
        var g := SymbolRunFetch(lit, dist, input, p, out, f, n - 1);
        if g.None? then None else SymbolFetch(lit, dist, input, q, g.value)
      case _ => None
  }

  ghost function CompressedFetch(lit: seq<nat>, dist: seq<nat>, input: seq<byte>, p: nat, out: seq<byte>,
    f: Fetch): Option<Fetch>
  {
    if n: nat :| SymbolRun(lit, dist, input, p, out, n).Done?
    then SymbolRunFetch(lit, dist, input, p, out, f, n)
    else None
  }

  /** The k lengths of the code length code, three bits each. */
  function LengthsOfLengthsFetch(p: nat, f: Fetch, k: nat): Fetch {
    if k == 0 then f else Received(LengthsOfLengthsFetch(p, f, k - 1), p + 3 * (k - 1), 3)
  }

  function ItemFetch(c: nat, q: nat, f: Fetch): Fetch {
    if c < 16 then f else Received(f, q, if c == 16 then 2 else if c == 17 then 3 else 7)
  }

  ghost function ReadLengthsFetch(clens: seq<nat>, input: seq<byte>, p: nat, got: seq<nat>, total: nat,
    f: Fetch): Option<Fetch>
    requires |got| <= total
    decreases total - |got|
  {
    if |got| == total then Some(f)
    else
      var g := Ready(f, p, |input|);
      if g.None? then None
      else
        match NextSymbol(clens, input, p)
        case None => None
        case Some(c) =>
          var item := LengthItem(input, c, p + clens[c], got);
          if item.None? || |got| + item.value.2 > total then None
          else
            ReadLengthsFetch(clens, input, item.value.0, got + Filled(item.value.1, item.value.2), total,
              ItemFetch(c, p + clens[c], g.value))
  }

  ghost function DynamicFetch(input: seq<byte>, p: nat, f: Fetch): Option<Fetch> {
    var hlit := Field(input, p, 5) + 257;
    var hdist := Field(input, p + 5, 5) + 1;
    var hclen := Field(input, p + 10, 4) + 4;
    var g := Received(Received(Received(f, p, 5), p + 5, 5), p + 10, 4);
    if hclen > 19 then None
    else
      ReadLengthsFetch(CodeLengths(input, p + 14, hclen), input, p + 14 + 3 * hclen, [], hlit + hdist,
        LengthsOfLengthsFetch(p + 14, g, hclen))
  }

  /** After a stored block nothing is held. */
  function StoredFetch(block: Step): Option<Fetch> {
    if block.Done? then Some(Fetch(block.pos / 8, false)) else None
  }

  ghost function BodyFetch(kind: nat, input: seq<byte>, p: nat, out: seq<byte>, f: Fetch): Option<Fetch> {
    if kind == 0 then StoredFetch(StoredBlock(input, p, out))
    else if kind == 1 then CompressedFetch(FixedLengths(), FixedDistances(), input, p, out, f)
    else if kind == 2 then
      var g := DynamicFetch(input, p, f);
      match DynamicCodes(input, p)
      case None => None
      case Some(c) => if g.None? then None else CompressedFetch(c.lit, c.dist, input, c.pos, out, g.value)
    else None
  }

  ghost function BlockFetch(input: seq<byte>, p: nat, out: seq<byte>, f: Fetch): Option<Fetch> {
    BodyFetch(Field(input, p + 1, 2), input, p + 3, out, Received(Received(f, p, 1), p + 1, 2))
  }

  /** What was fetched when n blocks from byte boundary p on are decoded; None if the decoder gives
      up on the way because the input has run out. */
  ghost function RunFetch(input: seq<byte>, p: nat, n: nat): Option<Fetch> {
    if n == 0 then Some(Fetch(p / 8, false))
    else
      match BlockRun(input, p, n - 1)
      case More(q, o) =>
        var g := RunFetch(input, p, n - 1);
        if g.None? then None else BlockFetch(input, q, o, g.value)
      case _ => None
  }

  /** The blocks from p on decode to out, and the decoder does not give up before their end. */
  ghost predicate Taken(input: seq<byte>, p: nat, out: seq<byte>) {
    exists n: nat, e: nat :: TakenAs(input, p, out, n, e)
  }

  ghost predicate TakenAs(input: seq<byte>, p: nat, out: seq<byte>, n: nat, e: nat) {
    BlockRun(input, p, n) == Done(e, out) && RunFetch(input, p, n).Some?
  }

  // ---------------------------------------------------------------------------------------
  // Giving up is final

  lemma {:induction false} SymbolsGivenUp(lit: seq<nat>, dist: seq<nat>, input: seq<byte>, p: nat, out: seq<byte>,
    f: Fetch, m: nat, n: nat)
    requires m <= n && SymbolRunFetch(lit, dist, input, p, out, f, m).None?
    ensures SymbolRunFetch(lit, dist, input, p, out, f, n).None?
  {
    hide SymbolFetch, SymbolRun;
    if m == n {
    } else {
      SymbolsGivenUp(lit, dist, input, p, out, f, m, n - 1);
    }
  }

  lemma SymbolFetchStart(lit: seq<nat>, dist: seq<nat>, input: seq<byte>, p: nat, out: seq<byte>, f: Fetch)
    ensures SymbolRunFetch(lit, dist, input, p, out, f, 0) == Some(f)
  {
  }

  /** What a symbol fetches, told from the symbol. */
  lemma SymbolFetchIs(lit: seq<nat>, dist: seq<nat>, input: seq<byte>, p: nat, f: Fetch)
    ensures var g := Ready(f, p, |input|);
      var z := NextSymbol(lit, input, p);
      SymbolFetch(lit, dist, input, p, f) ==
        if g.None? || z.None? then None
        else if z.value < 256 then g
        else if z.value == 256 then if Overrun(g.value, p + lit[z.value]) then None else g
        else if z.value >= 286 then None
        else MatchFetch(dist, input, z.value - 257, p + lit[z.value], g.value)
  {
    hide Ready, Overrun, NextSymbol, MatchFetch;
  }

  lemma NothingReceived(f: Fetch, p: nat)
    ensures Held(f, p) >= 0 ==> Received(f, p, 0) == f
  {
  }

  /** What a match fetches, told from the distance symbol. */
  lemma MatchFetchIs(dist: seq<nat>, input: seq<byte>, l: nat, q: nat, f: Fetch)
    requires l < 29
    ensures var r := q + LengthExtra(l);
      var g := Ready(Received(f, q, LengthExtra(l)), r, |input|);
      var d := NextSymbol(dist, input, r);
      MatchFetch(dist, input, l, q, f) ==
        if g.None? || d.None? || d.value >= 30 then None
        else Some(Received(g.value, r + dist[d.value], DistExtra(d.value)))
  {
    hide Ready, Received, NextSymbol, LengthExtra, DistExtra;
  }

  lemma ReadLengthsFetchStep(clens: seq<nat>, input: seq<byte>, p: nat, got: seq<nat>, total: nat, f: Fetch)
    requires |got| < total
    ensures var g := Ready(f, p, |input|);
      var c := NextSymbol(clens, input, p);
      ReadLengthsFetch(clens, input, p, got, total, f) ==
        if g.None? || c.None? then None
        else
          var q := p + clens[c.value];
          var item := LengthItem(input, c.value, q, got);
          if item.None? || |got| + item.value.2 > total then None
          else
            ReadLengthsFetch(clens, input, item.value.0, got + Filled(item.value.1, item.value.2), total,
              ItemFetch(c.value, q, g.value))
  {
    hide Ready, NextSymbol, LengthItem, Filled, ItemFetch;
  }

  lemma DynamicFetchIs(input: seq<byte>, p: nat, f: Fetch, total: nat, hclen: nat, h: Fetch)
    requires total == Field(input, p, 5) + 257 + (Field(input, p + 5, 5) + 1)
    requires hclen == Field(input, p + 10, 4) + 4 && hclen <= 19
    requires h == LengthsOfLengthsFetch(p + 14, Received(Received(Received(f, p, 5), p + 5, 5), p + 10, 4), hclen)
    ensures DynamicFetch(input, p, f) ==
      ReadLengthsFetch(CodeLengths(input, p + 14, hclen), input, p + 14 + 3 * hclen, [], total, h)
  {
    hide Field, CodeLengths, ReadLengthsFetch, LengthsOfLengthsFetch, Received;
  }

  lemma BlockFetchIs(input: seq<byte>, p: nat, out: seq<byte>, f: Fetch, kind: nat, g: Fetch)
    requires kind == Field(input, p + 1, 2) && g == Received(Received(f, p, 1), p + 1, 2)
    ensures kind == 0 ==> BlockFetch(input, p, out, f) == StoredFetch(StoredBlock(input, p + 3, out))
    ensures kind == 1 ==>
      BlockFetch(input, p, out, f) == CompressedFetch(FixedLengths(), FixedDistances(), input, p + 3, out, g)
    ensures kind == 2 && DynamicCodes(input, p + 3).Some? && DynamicFetch(input, p + 3, g).Some? ==>
      var c := DynamicCodes(input, p + 3).value;
      BlockFetch(input, p, out, f) ==
        CompressedFetch(c.lit, c.dist, input, c.pos, out, DynamicFetch(input, p + 3, g).value)
    ensures kind == 2 && (DynamicCodes(input, p + 3).None? || DynamicFetch(input, p + 3, g).None?) ==>
      BlockFetch(input, p, out, f).None?
  {
    hide Field, Received, StoredBlock, CompressedFetch, DynamicFetch, DynamicCodes, FixedLengths, FixedDistances;
  }

  lemma SymbolFetchNext(lit: seq<nat>, dist: seq<nat>, input: seq<byte>, p: nat, out: seq<byte>,
    f: Fetch, n: nat, q: nat, o: seq<byte>, g: Fetch)
    requires SymbolRun(lit, dist, input, p, out, n) == More(q, o)
    requires SymbolRunFetch(lit, dist, input, p, out, f, n) == Some(g)
    ensures SymbolRunFetch(lit, dist, input, p, out, f, n + 1) == SymbolFetch(lit, dist, input, q, g)
  {
    hide SymbolFetch, SymbolRun;
  }

  /** The schedule of a block is that of its symbols up to the end. */
  lemma CompressedFetchIs(lit: seq<nat>, dist: seq<nat>, input: seq<byte>, p: nat, out: seq<byte>, f: Fetch, n: nat)
    requires SymbolRun(lit, dist, input, p, out, n).Done?
    ensures CompressedFetch(lit, dist, input, p, out, f) == SymbolRunFetch(lit, dist, input, p, out, f, n)
  {
    hide SymbolRun, SymbolRunFetch;
    var m: nat :| SymbolRun(lit, dist, input, p, out, m).Done?
      && CompressedFetch(lit, dist, input, p, out, f) == SymbolRunFetch(lit, dist, input, p, out, f, m);
    if m < n {
      SymbolRunForward(lit, dist, input, p, out, m, n);
    } else if n < m {
      SymbolRunForward(lit, dist, input, p, out, n, m);
    }
  }

  /** If the decoder gives up at a symbol it gives up on the block. */
  lemma BlockGivenUp(lit: seq<nat>, dist: seq<nat>, input: seq<byte>, p: nat, out: seq<byte>,
    f: Fetch, n: nat, q: nat, o: seq<byte>, g: Fetch)
    requires SymbolRun(lit, dist, input, p, out, n) == More(q, o)
    requires SymbolRunFetch(lit, dist, input, p, out, f, n) == Some(g)
    ensures SymbolFetch(lit, dist, input, q, g).None? ==> CompressedFetch(lit, dist, input, p, out, f).None?
  {
    hide SymbolRun, SymbolRunFetch, SymbolFetch, CompressedFetch;
    SymbolFetchNext(lit, dist, input, p, out, f, n, q, o, g);
    if SymbolFetch(lit, dist, input, q, g).None? {
      if m: nat :| SymbolRun(lit, dist, input, p, out, m).Done? {
        CompressedFetchIs(lit, dist, input, p, out, f, m);
        if m < n {
          SymbolRunForward(lit, dist, input, p, out, m, n);
        }
        SymbolsGivenUp(lit, dist, input, p, out, f, n + 1, m);
      } else {
        NoBlockNoFetch(lit, dist, input, p, out, f);
      }
    }
  }

  lemma NoBlockNoFetch(lit: seq<nat>, dist: seq<nat>, input: seq<byte>, p: nat, out: seq<byte>, f: Fetch)
    requires forall m: nat :: !SymbolRun(lit, dist, input, p, out, m).Done?
    ensures CompressedFetch(lit, dist, input, p, out, f).None?
  {
    hide SymbolRun, SymbolRunFetch;
  }

  lemma RunFetchNext(input: seq<byte>, p: nat, n: nat, q: nat, o: seq<byte>, g: Fetch)
    requires BlockRun(input, p, n) == More(q, o) && RunFetch(input, p, n) == Some(g)
    ensures RunFetch(input, p, n + 1) == BlockFetch(input, q, o, g)
  {
    hide BlockFetch, BlockRun;
  }

  lemma {:induction false} RunGivenUp(input: seq<byte>, p: nat, m: nat, n: nat)
    requires m <= n && RunFetch(input, p, m).None?
    ensures RunFetch(input, p, n).None?
  {
    hide BlockFetch, BlockRun;
    if m == n {
    } else {
      RunGivenUp(input, p, m, n - 1);
    }
  }

  /** If the decoder gives up on a block, or there is none, nothing is taken. */
  lemma StreamGivenUp(input: seq<byte>, p: nat, n: nat, q: nat, o: seq<byte>, g: Fetch, out: seq<byte>)
    requires BlockRun(input, p, n) == More(q, o) && RunFetch(input, p, n) == Some(g)
    requires Taken(input, p, out)
    ensures var s := BlockStep(input, q, o);
      !s.Bad? && BlockFetch(input, q, o, g).Some? && |s.out| <= |out|
  {
    hide BlockFetch, BlockRun, BlockStep, RunFetch;
    var m: nat, e: nat :| TakenAs(input, p, out, m, e);
    EndsAs(input, p, m, e, out);
    InflatesGoesOn(input, p, n, q, o, out, e);
    if m <= n {
      if m < n {
        BlockRunForward(input, p, m, n);
      }
    } else {
      RunFetchNext(input, p, n, q, o, g);
      if BlockFetch(input, q, o, g).None? {
        RunGivenUp(input, p, n + 1, m);
      }
    }
  }

  lemma EndsAs(input: seq<byte>, p: nat, n: nat, e: nat, out: seq<byte>)
    requires BlockRun(input, p, n) == Done(e, out)
    ensures Inflates(input, p, out, e)
  {
    hide BlockRun;
  }

  lemma TakenOnce(input: seq<byte>, p: nat, out: seq<byte>)
    requires Taken(input, p, out)
    ensures forall out': seq<byte> :: Taken(input, p, out') ==> out' == out
  {
    hide BlockRun, RunFetch, Inflates;
    var n: nat, e: nat :| TakenAs(input, p, out, n, e);
    EndsAs(input, p, n, e, out);
    forall out': seq<byte> | Taken(input, p, out')
      ensures out' == out
    {
      var n': nat, e': nat :| TakenAs(input, p, out', n', e');
      EndsAs(input, p, n', e', out');
      InflatesOnce(input, p, out, e, out', e');
    }
  }

  // ---------------------------------------------------------------------------------------
  // The decoder does not give up within the input

  /** Bits are granted only when all of the input was fetched. */
  predicate Late(f: Fetch, length: nat) {
    f.granted ==> f.bytes >= length
  }

  lemma ReadyWithin(f: Fetch, p: nat, length: nat)
    requires Late(f, length) && p <= 8 * length
    ensures Ready(f, p, length).Some? && Late(Ready(f, p, length).value, length)
  {
  }

  lemma MatchWithin(dist: seq<nat>, input: seq<byte>, l: nat, q: nat, f: Fetch)
    requires l < 29 && Late(f, |input|)
    requires NextMatch(dist, input, l, q).Some? && NextMatch(dist, input, l, q).value.pos <= 8 * |input|
    ensures var g := MatchFetch(dist, input, l, q, f);
      g.Some? && Late(g.value, |input|)
  {
    hide NextSymbol, Field, LengthBase, LengthExtra, DistBase, DistExtra, Ready, Received;
    var r := q + LengthExtra(l);
    ReadyWithin(Received(f, q, LengthExtra(l)), r, |input|);
  }

  lemma SymbolWithin(lit: seq<nat>, dist: seq<nat>, input: seq<byte>, p: nat, out: seq<byte>, f: Fetch)
    requires Late(f, |input|)
    requires !SymbolStep(lit, dist, input, p, out).Bad? && SymbolStep(lit, dist, input, p, out).pos <= 8 * |input|
    ensures var g := SymbolFetch(lit, dist, input, p, f);
      g.Some? && Late(g.value, |input|)
  {
    hide NextSymbol, NextMatch, MatchFetch, Ready, Repeated;
    SymbolStepForward(lit, dist, input, p, out);
    ReadyWithin(f, p, |input|);
    var z := NextSymbol(lit, input, p).value;
    if 256 < z < 286 {
      MatchWithin(dist, input, z - 257, p + lit[z], Ready(f, p, |input|).value);
    }
  }

  lemma {:induction false} SymbolsWithin(lit: seq<nat>, dist: seq<nat>, input: seq<byte>, p: nat, out: seq<byte>,
    f: Fetch, n: nat)
    requires Late(f, |input|)
    requires !SymbolRun(lit, dist, input, p, out, n).Bad? && SymbolRun(lit, dist, input, p, out, n).pos <= 8 * |input|
    ensures var g := SymbolRunFetch(lit, dist, input, p, out, f, n);
      g.Some? && Late(g.value, |input|)
  {
    hide SymbolFetch, SymbolStep;
    if n == 0 {
    } else {
      var r := SymbolRun(lit, dist, input, p, out, n - 1);
      SymbolStepForward(lit, dist, input, r.pos, r.out);
      SymbolsWithin(lit, dist, input, p, out, f, n - 1);
      SymbolWithin(lit, dist, input, r.pos, r.out, SymbolRunFetch(lit, dist, input, p, out, f, n - 1).value);
    }
  }

  lemma CompressedWithin(lit: seq<nat>, dist: seq<nat>, input: seq<byte>, p: nat, out: seq<byte>, f: Fetch)
    requires Late(f, |input|)
    requires var b := CompressedBlock(lit, dist, input, p, out);
      !b.Bad? && b.pos <= 8 * |input|
    ensures var g := CompressedFetch(lit, dist, input, p, out, f);
      g.Some? && Late(g.value, |input|)
  {
    hide SymbolRun, SymbolRunFetch;
    var n: nat :| SymbolRun(lit, dist, input, p, out, n).Done?
      && CompressedBlock(lit, dist, input, p, out) == SymbolRun(lit, dist, input, p, out, n);
    CompressedFetchIs(lit, dist, input, p, out, f, n);
    SymbolsWithin(lit, dist, input, p, out, f, n);
  }

  lemma {:induction false} LengthsOfLengthsWithin(p: nat, f: Fetch, k: nat, length: nat)
    requires Late(f, length)
    ensures Late(LengthsOfLengthsFetch(p, f, k), length)
  {
    if k == 0 {
    } else {
      LengthsOfLengthsWithin(p, f, k - 1, length);
    }
  }

  lemma {:induction false} ReadLengthsWithin(clens: seq<nat>, input: seq<byte>, p: nat, got: seq<nat>, total: nat,
    f: Fetch)
    requires |got| <= total && Late(f, |input|)
    requires var r := ReadLengths(clens, input, p, got, total);
      r.Some? && r.value.0 <= 8 * |input|
    ensures var g := ReadLengthsFetch(clens, input, p, got, total, f);
      g.Some? && Late(g.value, |input|)
    decreases total - |got|
  {
    hide NextSymbol, Field, Filled, Ready, LengthItem;
    if |got| == total {
    } else {
      ReadLengthsForward(clens, input, p, got, total);
      ReadyWithin(f, p, |input|);
      var c := NextSymbol(clens, input, p).value;
      ReadLengthsStep(clens, input, p, got, total, c);
      ReadLengthsFetchStep(clens, input, p, got, total, f);
      var item := LengthItem(input, c, p + clens[c], got).value;
      ReadLengthsWithin(clens, input, item.0, got + Filled(item.1, item.2), total,
        ItemFetch(c, p + clens[c], Ready(f, p, |input|).value));
    }
  }

  lemma DynamicWithin(input: seq<byte>, p: nat, f: Fetch)
    requires Late(f, |input|)
    requires var c := DynamicCodes(input, p);
      c.Some? && c.value.pos <= 8 * |input|
    ensures var g := DynamicFetch(input, p, f);
      g.Some? && Late(g.value, |input|)
  {
    hide Field, CodeLengths, ReadLengths, ReadLengthsFetch, LengthsOfLengthsFetch, Received, Fits;
    var hclen := Field(input, p + 10, 4) + 4;
    var total := Field(input, p, 5) + 257 + (Field(input, p + 5, 5) + 1);
    var g := Received(Received(Received(f, p, 5), p + 5, 5), p + 10, 4);
    var h := LengthsOfLengthsFetch(p + 14, g, hclen);
    LengthsOfLengthsWithin(p + 14, g, hclen, |input|);
    DynamicFetchIs(input, p, f, total, hclen, h);
    ReadLengthsWithin(CodeLengths(input, p + 14, hclen), input, p + 14 + 3 * hclen, [], total, h);
  }

  lemma BlockWithin(input: seq<byte>, p: nat, out: seq<byte>, f: Fetch)
    requires Late(f, |input|)
    requires var s := BlockStep(input, p, out);
      !s.Bad? && s.pos <= 8 * |input|
    ensures var g := BlockFetch(input, p, out, f);
      g.Some? && Late(g.value, |input|)
  {
    hide Field, Bit, StoredBlock, CompressedBlock, CompressedFetch, DynamicCodes, DynamicFetch, Received,
      FixedLengths, FixedDistances;
    var kind := Field(input, p + 1, 2);
    var g := Received(Received(f, p, 1), p + 1, 2);
    BlockStepIs(input, p, out, Bit(input, p) == 1, kind);
    BlockFetchIs(input, p, out, f, kind, g);
    if kind == 1 {
      CompressedWithin(FixedLengths(), FixedDistances(), input, p + 3, out, g);
    } else if kind == 2 && DynamicCodes(input, p + 3).Some? {
      var c := DynamicCodes(input, p + 3).value;
      CompressedBlockForward(c.lit, c.dist, input, c.pos, out);
      DynamicWithin(input, p + 3, g);
      CompressedWithin(c.lit, c.dist, input, c.pos, out, DynamicFetch(input, p + 3, g).value);
    }
  }

  lemma {:induction false} RunWithin(input: seq<byte>, p: nat, n: nat)
    requires !BlockRun(input, p, n).Bad? && BlockRun(input, p, n).pos <= 8 * |input|
    ensures var g := RunFetch(input, p, n);
      g.Some? && Late(g.value, |input|)
  {
    hide BlockFetch, BlockStep;
    if n == 0 {
    } else {
      var r := BlockRun(input, p, n - 1);
      BlockStepForward(input, r.pos, r.out);
      RunWithin(input, p, n - 1);
      BlockWithin(input, r.pos, r.out, RunFetch(input, p, n - 1).value);
    }
  }

  /** A stream that ends within the input is taken. */
  lemma WithinIsTaken(input: seq<byte>, p: nat, out: seq<byte>, e: nat)
    requires Inflates(input, p, out, e) && e <= 8 * |input|
    ensures Taken(input, p, out)
  {
    hide BlockRun, RunFetch;
    var n: nat :| BlockRun(input, p, n) == Done(e, out);
    RunWithin(input, p, n);
    assert TakenAs(input, p, out, n, e);
  }
}
