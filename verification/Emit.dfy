/** Turning indexed vertices into primitives: the quad and triangle scan, its division into
    chunks, and the concatenation of what the chunks emit.  What float geometry decides is a
    parameter: whether a quad is consumed as a rectangle, and what is emitted. */
module Emit {
  import opened Common
  import opened Raster

  datatype TriData = TriData(v0: nat, v1: nat, v2: nat)

  datatype RectResult = Declined | Accepted(prim: Option<Prim>)

  datatype Emitter = Emitter(
    rect: (nat, nat, nat, nat) -> RectResult,
    tri: (nat, nat, nat) -> Option<(Prim, TriData)>)

  const CHUNK: nat := 6144

  /** Rectangles and triangles are told apart by the kind of the primitive. */
  ghost predicate Kinds(e: Emitter) {
    && (forall a, b, c, d :: e.rect(a, b, c, d).Accepted? && e.rect(a, b, c, d).prim.Some?
          ==> !IsTri(e.rect(a, b, c, d).prim.value))
    && (forall a, b, c :: e.tri(a, b, c).Some? ==> IsTri(e.tri(a, b, c).value.0))
  }

  // ---------------------------------------------------------------------------------------
  // The scan

  datatype Event = Rect(at: nat, prim: Option<Prim>) | Tri(at: nat, made: Option<(Prim, TriData)>)

  /** The six indices at i have the shape of a quad. */
  predicate IsQuad(idx: seq<nat>, i: nat)
    requires i + 6 <= |idx|
  {
    idx[i] == idx[i + 3] && idx[i + 2] == idx[i + 4]
  }

  /** A quad at i that ends by hi is consumed as a rectangle. */
  predicate TakesRect(e: Emitter, idx: seq<nat>, i: nat, hi: nat)
    requires hi <= |idx|
  {
    i + 6 <= hi && IsQuad(idx, i) && e.rect(idx[i], idx[i + 1], idx[i + 2], idx[i + 5]).Accepted?
  }

  function EventAt(e: Emitter, idx: seq<nat>, i: nat, hi: nat): Event
    requires i + 3 <= hi <= |idx|
  {
    if TakesRect(e, idx, i, hi)
    then Rect(i, e.rect(idx[i], idx[i + 1], idx[i + 2], idx[i + 5]).prim)
    else Tri(i, e.tri(idx[i], idx[i + 1], idx[i + 2]))
  }

  function Next(e: Emitter, idx: seq<nat>, i: nat, hi: nat): (j: nat)
    requires i + 3 <= hi <= |idx|
    ensures i < j <= hi
  {
    if TakesRect(e, idx, i, hi) then i + 6 else i + 3
  }

  /** What the scan of the indices from i to hi meets. */
  function Scan(e: Emitter, idx: seq<nat>, i: nat, hi: nat): seq<Event>
    requires hi <= |idx|
    decreases |idx| - i
  {
    if i + 3 > hi then [] else [EventAt(e, idx, i, hi)] + Scan(e, idx, Next(e, idx, i, hi), hi)
  }

  function PrimOf(event: Event, t: nat): (s: seq<Prim>)
    ensures |s| <= 1
  {
    match event
    case Rect(_, prim) => if prim.Some? then [prim.value] else []
    case Tri(_, made) => if made.Some? then [made.value.0.(tri := t)] else []
  }

  function TriOf(event: Event): (s: seq<TriData>)
    ensures |s| <= 1
  {
    if event.Tri? && event.made.Some? then [event.made.value.1] else []
  }

  /** The primitives of the events, the first triangle getting the number t. */
  function Prims(events: seq<Event>, t: nat): seq<Prim> {
    if events == [] then []
    else PrimOf(events[0], t) + Prims(events[1..], t + |TriOf(events[0])|)
  }

  function Tris(events: seq<Event>): seq<TriData> {
    if events == [] then [] else TriOf(events[0]) + Tris(events[1..])
  }

  /** Emits what count indices from first on stand for. */
  method EmitRange(e: Emitter, idx: seq<nat>, first: nat, count: nat) returns (P: seq<Prim>, T: seq<TriData>)
    requires first + count <= |idx|
    ensures P == Prims(Scan(e, idx, first, first + count), 0)
    ensures T == Tris(Scan(e, idx, first, first + count))
  {
    hide EventAt, Scan, Next, TakesRect, IsQuad, Prims, Tris;
    P, T := [], [];
    var i := 0;
    ghost var done, hi := [], first + count;
    NoEvents();
    while i + 3 <= count
      invariant 0 <= i <= count
      invariant done + Scan(e, idx, first + i, hi) == Scan(e, idx, first, hi)
      invariant P == Prims(done, 0) && T == Tris(done)
    {
      ScanStep(e, idx, done, first + i, hi);
      EventCases(e, idx, first + i, hi);
      done := done + [EventAt(e, idx, first + i, hi)];
      var isRect := false;
      if i + 6 <= count && idx[first + i] == idx[first + i + 3] && idx[first + i + 2] == idx[first + i + 4] {
        var r := e.rect(idx[first + i], idx[first + i + 1], idx[first + i + 2], idx[first + i + 5]);
        if r.Accepted? {
          isRect := true;
          P := P + if r.prim.Some? then [r.prim.value] else [];
        }
      }
      if isRect {
        i := i + 6;
        continue;
      }
      var made := e.tri(idx[first + i], idx[first + i + 1], idx[first + i + 2]);
      if made.Some? {
        T := T + [made.value.1];
        P := P + [made.value.0.(tri := |T| - 1)];
      }
      i := i + 3;
    }
    ScanEnd(e, idx, first + i, hi);
    assert done + [] == done;
  }

  lemma NoEvents()
    ensures Prims([], 0) == [] && Tris([]) == []
  {
  }

  lemma ScanEnd(e: Emitter, idx: seq<nat>, i: nat, hi: nat)
    requires i <= hi <= |idx| && i + 3 > hi
    ensures Scan(e, idx, i, hi) == []
  {
  }

  lemma ScanHead(e: Emitter, idx: seq<nat>, i: nat, hi: nat)
    requires i + 3 <= hi <= |idx|
    ensures Scan(e, idx, i, hi) == [EventAt(e, idx, i, hi)] + Scan(e, idx, Next(e, idx, i, hi), hi)
  {
    hide EventAt, Next;
  }

  /** One event more of a scan. */
  lemma ScanStep(e: Emitter, idx: seq<nat>, done: seq<Event>, i: nat, hi: nat)
    requires i + 3 <= hi <= |idx|
    ensures var event := EventAt(e, idx, i, hi);
      done + [event] + Scan(e, idx, Next(e, idx, i, hi), hi) == done + Scan(e, idx, i, hi)
      && Prims(done + [event], 0) == Prims(done, 0) + PrimOf(event, |Tris(done)|)
      && Tris(done + [event]) == Tris(done) + TriOf(event)
  {
    hide EventAt, Next, PrimOf, TriOf, Prims, Tris, Scan;
    var event := EventAt(e, idx, i, hi);
    ScanHead(e, idx, i, hi);
    Associative(done, [event], Scan(e, idx, Next(e, idx, i, hi), hi));
    PrimsAppend(done, [event], 0);
    TrisAppend(done, [event]);
    OneEvent(event, |Tris(done)|);
  }

  lemma EventCases(e: Emitter, idx: seq<nat>, i: nat, hi: nat)
    requires i + 3 <= hi <= |idx|
    ensures if i + 6 <= hi && idx[i] == idx[i + 3] && idx[i + 2] == idx[i + 4]
        && e.rect(idx[i], idx[i + 1], idx[i + 2], idx[i + 5]).Accepted?
      then
        Next(e, idx, i, hi) == i + 6
        && EventAt(e, idx, i, hi) == Rect(i, e.rect(idx[i], idx[i + 1], idx[i + 2], idx[i + 5]).prim)
      else
        Next(e, idx, i, hi) == i + 3
        && EventAt(e, idx, i, hi) == Tri(i, e.tri(idx[i], idx[i + 1], idx[i + 2]))
  {
  }

  lemma OneEvent(event: Event, t: nat)
    ensures Prims([event], t) == PrimOf(event, t) && Tris([event]) == TriOf(event)
  {
    hide PrimOf, TriOf;
    assert [event][1..] == [];
  }

  lemma Associative<T>(a: seq<T>, b: seq<T>, c: seq<T>)
    ensures a + (b + c) == a + b + c
  {
  }

  lemma {:induction false} TrisAppend(a: seq<Event>, b: seq<Event>)
    ensures Tris(a + b) == Tris(a) + Tris(b)
  {
    hide TriOf;
    if a == [] {
      assert a + b == b;
    } else {
      TrisAppend(a[1..], b);
      assert (a + b)[1..] == a[1..] + b;
      Associative(TriOf(a[0]), Tris(a[1..]), Tris(b));
    }
  }

  lemma {:induction false} PrimsAppend(a: seq<Event>, b: seq<Event>, t: nat)
    ensures Prims(a + b, t) == Prims(a, t) + Prims(b, t + |Tris(a)|)
  {
    hide PrimOf, TriOf;
    if a == [] {
      assert a + b == b;
    } else {
      var u := t + |TriOf(a[0])|;
      PrimsAppend(a[1..], b, u);
      assert (a + b)[1..] == a[1..] + b;
      Associative(PrimOf(a[0], t), Prims(a[1..], u), Prims(b, u + |Tris(a[1..])|));
    }
  }

  /** How many indices an event is made of. */
  function Width(event: Event): nat {
    if event.Rect? then 6 else 3
  }

  /** The six indices at i make the quad of a, b, c and d, of which the diagonal from a to c is drawn twice. */
  predicate QuadOf(idx: seq<nat>, i: nat, a: nat, b: nat, c: nat, d: nat) {
    i + 6 <= |idx| && idx[i..i + 6] == [a, b, c, a, c, d]
  }

  predicate TriangleOf(idx: seq<nat>, i: nat, a: nat, b: nat, c: nat) {
    i + 3 <= |idx| && idx[i..i + 3] == [a, b, c]
  }

  /** The event is what its indices stand for: a rectangle where a quad that ends by hi is taken for one, and a triangle
      only where none is. */
  ghost predicate Genuine(e: Emitter, idx: seq<nat>, event: Event, hi: nat) {
    && event.at + Width(event) <= hi <= |idx|
    && (event.Rect? ==> exists a, b, c, d ::
      QuadOf(idx, event.at, a, b, c, d) && e.rect(a, b, c, d) == Accepted(event.prim))
    && (event.Tri? ==> forall a, b, c, d ::
      QuadOf(idx, event.at, a, b, c, d) && event.at + 6 <= hi ==> e.rect(a, b, c, d).Declined?)
    && (event.Tri? ==> forall a, b, c :: TriangleOf(idx, event.at, a, b, c) ==> event.made == e.tri(a, b, c))
  }

  /** The events follow each other without a gap from i on, up to where less than a triangle is left. */
  predicate Gapless(events: seq<Event>, i: nat, hi: nat) {
    if events == [] then i <= hi < i + 3
    else events[0].at == i && Gapless(events[1..], i + Width(events[0]), hi)
  }

  lemma EventIsGenuine(e: Emitter, idx: seq<nat>, i: nat, hi: nat)
    requires i + 3 <= hi <= |idx|
    ensures Genuine(e, idx, EventAt(e, idx, i, hi), hi)
    ensures EventAt(e, idx, i, hi).at == i && Next(e, idx, i, hi) == i + Width(EventAt(e, idx, i, hi))
  {
    EventCases(e, idx, i, hi);
    var event := EventAt(e, idx, i, hi);
    forall a, b, c | TriangleOf(idx, i, a, b, c)
      ensures idx[i] == a && idx[i + 1] == b && idx[i + 2] == c
    {
      assert idx[i] == idx[i..i + 3][0] && idx[i + 1] == idx[i..i + 3][1] && idx[i + 2] == idx[i..i + 3][2];
    }
    forall a, b, c, d | QuadOf(idx, i, a, b, c, d)
      ensures idx[i] == idx[i + 3] == a && idx[i + 1] == b && idx[i + 2] == idx[i + 4] == c && idx[i + 5] == d
    {
      QuadIs(idx, i, a, b, c, d);
    }
    if event.Rect? {
      QuadIs(idx, i, idx[i], idx[i + 1], idx[i + 2], idx[i + 5]);
    }
  }

  lemma QuadIs(idx: seq<nat>, i: nat, a: nat, b: nat, c: nat, d: nat)
    requires i + 6 <= |idx|
    ensures QuadOf(idx, i, a, b, c, d) <==>
      idx[i] == idx[i + 3] == a && idx[i + 1] == b && idx[i + 2] == idx[i + 4] == c && idx[i + 5] == d
  {
    var s := idx[i..i + 6];
    assert s[0] == idx[i] && s[1] == idx[i + 1] && s[2] == idx[i + 2];
    assert s[3] == idx[i + 3] && s[4] == idx[i + 4] && s[5] == idx[i + 5];
  }

  ghost predicate AllGenuine(e: Emitter, idx: seq<nat>, events: seq<Event>, hi: nat) {
    forall k | 0 <= k < |events| :: Genuine(e, idx, events[k], hi)
  }

  /** A scan divides the indices among its events, in order, and every event is what its indices stand for. */
  lemma {:induction false} ScanDivides(e: Emitter, idx: seq<nat>, i: nat, hi: nat)
    requires i <= hi <= |idx|
    ensures Gapless(Scan(e, idx, i, hi), i, hi) && AllGenuine(e, idx, Scan(e, idx, i, hi), hi)
    decreases hi - i
  {
    hide Scan, EventAt, Next, Genuine;
    if i + 3 > hi {
      ScanEnd(e, idx, i, hi);
    } else {
      EventIsGenuine(e, idx, i, hi);
      ScanHead(e, idx, i, hi);
      var rest := Scan(e, idx, Next(e, idx, i, hi), hi);
      ScanDivides(e, idx, Next(e, idx, i, hi), hi);
      assert ([EventAt(e, idx, i, hi)] + rest)[1..] == rest;
    }
  }

  // ---------------------------------------------------------------------------------------
  // Chunks

  function ChunkEnd(n: nat, off: nat): nat {
    if off + CHUNK <= n then off + CHUNK else n
  }

  /** What the chunks from off on meet, each scanned by itself. */
  function ChunkScan(e: Emitter, idx: seq<nat>, off: nat): seq<Event>
    decreases |idx| - off
  {
    if off >= |idx| then []
    else Scan(e, idx, off, ChunkEnd(|idx|, off)) + ChunkScan(e, idx, off + CHUNK)
  }

  /** The scan that starts at i comes to position m. */
  predicate Lands(e: Emitter, idx: seq<nat>, i: nat, m: nat)
    decreases |idx| - i
  {
    i == m || (i < m && i + 3 <= |idx| && Lands(e, idx, Next(e, idx, i, |idx|), m))
  }

  /** The scan of all indices comes to the start of every chunk. */
  ghost predicate LandsOnChunks(e: Emitter, idx: seq<nat>) {
    forall k: nat | CHUNK * k < |idx| :: Lands(e, idx, 0, CHUNK * k)
  }

  /** Up to a position it lands on, a scan is the same whether it stops there or not. */
  lemma {:induction false} ScanSplit(e: Emitter, idx: seq<nat>, i: nat, m: nat)
    requires m <= |idx| && Lands(e, idx, i, m)
    ensures Scan(e, idx, i, |idx|) == Scan(e, idx, i, m) + Scan(e, idx, m, |idx|)
    decreases |idx| - i
  {
    if i >= m {
    } else {
      var j := Next(e, idx, i, |idx|);
      LandsAfter(e, idx, j, m);
      ScanSplit(e, idx, j, m);
      SameStep(e, idx, i, m);
    }
  }

  lemma LandsAfter(e: Emitter, idx: seq<nat>, i: nat, m: nat)
    requires Lands(e, idx, i, m)
    ensures i <= m
  {
  }

  lemma SameStep(e: Emitter, idx: seq<nat>, i: nat, m: nat)
    requires i + 3 <= |idx| && m <= |idx| && Next(e, idx, i, |idx|) <= m
    ensures EventAt(e, idx, i, m) == EventAt(e, idx, i, |idx|) && Next(e, idx, i, m) == Next(e, idx, i, |idx|)
  {
    hide IsQuad;
  }

  /** Landing on one position after another. */
  lemma {:induction false} LandsBetween(e: Emitter, idx: seq<nat>, i: nat, l: nat, m: nat)
    requires Lands(e, idx, i, l) && Lands(e, idx, i, m) && l <= m
    ensures Lands(e, idx, l, m)
    decreases |idx| - i
  {
    if i >= l {
    } else {
      LandsBetween(e, idx, Next(e, idx, i, |idx|), l, m);
    }
  }

  lemma {:induction false} ChunksFrom(e: Emitter, idx: seq<nat>, k: nat)
    requires LandsOnChunks(e, idx)
    ensures CHUNK * k < |idx| ==> ChunkScan(e, idx, CHUNK * k) == Scan(e, idx, CHUNK * k, |idx|)
    decreases |idx| - CHUNK * k
  {
    hide Lands, Scan;
    var off := CHUNK * k;
    if off >= |idx| {
    } else {
      var next := CHUNK * (k + 1);
      assert ChunkScan(e, idx, off) == Scan(e, idx, off, ChunkEnd(|idx|, off)) + ChunkScan(e, idx, next);
      ChunksFrom(e, idx, k + 1);
      if next < |idx| {
        assert Lands(e, idx, 0, CHUNK * k) && Lands(e, idx, 0, CHUNK * (k + 1));
        LandsBetween(e, idx, 0, off, next);
        ScanSplit(e, idx, off, next);
      } else {
        assert ChunkScan(e, idx, next) == [];
      }
    }
  }

  // Events are numbered by where they start, so a scan that meets an event came to it.

  ghost predicate Met(events: seq<Event>, m: nat) {
    exists k :: 0 <= k < |events| && events[k].at == m
  }

  lemma {:induction false} MetLands(e: Emitter, idx: seq<nat>, i: nat, m: nat)
    requires Met(Scan(e, idx, i, |idx|), m)
    ensures Lands(e, idx, i, m)
    decreases |idx| - i
  {
    hide EventAt;
    var events := Scan(e, idx, i, |idx|);
    var k :| 0 <= k < |events| && events[k].at == m;
    if i + 3 > |idx| {
    } else {
      EventStarts(e, idx, i, |idx|);
      var j := Next(e, idx, i, |idx|);
      if k > 0 {
        assert events[k] == Scan(e, idx, j, |idx|)[k - 1];
        assert Met(Scan(e, idx, j, |idx|), m);
        MetLands(e, idx, j, m);
        LandsAfter(e, idx, j, m);
      }
    }
  }

  lemma EventStarts(e: Emitter, idx: seq<nat>, i: nat, hi: nat)
    requires i + 3 <= hi <= |idx|
    ensures EventAt(e, idx, i, hi).at == i
  {
  }

  lemma {:induction false} ChunkMet(e: Emitter, idx: seq<nat>, j: nat, k: nat)
    requires j <= k && CHUNK * k + 3 <= |idx|
    ensures Met(ChunkScan(e, idx, CHUNK * j), CHUNK * k)
    decreases k - j
  {
    hide EventAt, Next;
    var off := CHUNK * j;
    var here := Scan(e, idx, off, ChunkEnd(|idx|, off));
    if j == k {
      EventStarts(e, idx, off, ChunkEnd(|idx|, off));
      assert here[0].at == off && ChunkScan(e, idx, off)[0] == here[0];
    } else {
      ChunkMet(e, idx, j + 1, k);
      var rest := ChunkScan(e, idx, CHUNK * (j + 1));
      var i :| 0 <= i < |rest| && rest[i].at == CHUNK * k;
      assert ChunkScan(e, idx, off) == here + rest;
      assert ChunkScan(e, idx, off)[|here| + i] == rest[i];
    }
  }

  /** A scan that starts at a multiple of three ends at the last one. */
  lemma {:induction false} LandsAtEnd(e: Emitter, idx: seq<nat>, i: nat)
    requires i <= |idx| && i % 3 == 0
    ensures Lands(e, idx, i, |idx| - |idx| % 3)
    decreases |idx| - i
  {
    if i + 3 > |idx| {
    } else {
      LandsAtEnd(e, idx, Next(e, idx, i, |idx|));
      LandsAfter(e, idx, Next(e, idx, i, |idx|), |idx| - |idx| % 3);
    }
  }

  /** Scanning chunk by chunk meets what one scan meets exactly when that scan comes to the
      start of every chunk. */
  lemma ChunksIff(e: Emitter, idx: seq<nat>)
    ensures ChunkScan(e, idx, 0) == Scan(e, idx, 0, |idx|) <==> LandsOnChunks(e, idx)
  {
    hide Lands, Scan, ChunkScan;
    if LandsOnChunks(e, idx) {
      ChunksFrom(e, idx, 0);
      EmptyScans(e, idx);
    }
    if ChunkScan(e, idx, 0) == Scan(e, idx, 0, |idx|) {
      forall k: nat | CHUNK * k < |idx|
        ensures Lands(e, idx, 0, CHUNK * k)
      {
        if CHUNK * k + 3 <= |idx| {
          ChunkMet(e, idx, 0, k);
          MetLands(e, idx, 0, CHUNK * k);
        } else {
          LandsAtEnd(e, idx, 0);
        }
      }
    }
  }

  lemma EmptyScans(e: Emitter, idx: seq<nat>)
    ensures |idx| == 0 ==> ChunkScan(e, idx, 0) == Scan(e, idx, 0, 0) == []
  {
  }

  // ---------------------------------------------------------------------------------------
  // A quad that is cut

  /** One triangle, and after it 1024 quads, each of four vertices of its own: the quad of a, a + 1, a + 2
      and a + 3 is indexed as a, a + 1, a + 2, a, a + 2, a + 3. */
  function QuadIndex(i: nat): nat {
    if i < 3 then i
    else
      var a, r := Corner((i - 3) / 6), (i - 3) % 6;
      if r < 3 then a + r else if r == 3 then a else a + r - 2
  }

  function Corner(m: nat): nat {
    3 + 4 * m
  }

  function QuadList(): (idx: seq<nat>)
    ensures |idx| == CHUNK + 3 && forall i | 0 <= i < |idx| :: idx[i] == QuadIndex(i)
  {
    seq(CHUNK + 3, i requires 0 <= i => QuadIndex(i))
  }

  /** Takes each of these quads for a rectangle and emits it, emits the first triangle, and emits the
      triangles of a quad that is cut. */
  ghost predicate TakesQuads(e: Emitter) {
    && e.tri(0, 1, 2).Some?
    && (forall m: nat {:trigger Corner(m)} | m < 1024 :: EmitsQuad(e, Corner(m)))
  }

  predicate EmitsQuad(e: Emitter, a: nat) {
    && e.rect(a, a + 1, a + 2, a + 3).Accepted? && e.rect(a, a + 1, a + 2, a + 3).prim.Some?
    && e.tri(a, a + 1, a + 2).Some? && e.tri(a, a + 2, a + 3).Some?
  }

  predicate Emits(event: Event) {
    if event.Rect? then event.prim.Some? else event.made.Some?
  }

  predicate AllEmit(events: seq<Event>) {
    forall i | 0 <= i < |events| :: Emits(events[i])
  }

  lemma {:induction false} AllEmitted(events: seq<Event>, t: nat)
    requires AllEmit(events)
    ensures |Prims(events, t)| == |events|
  {
    if events == [] {
    } else {
      AllEmitted(events[1..], t + |TriOf(events[0])|);
    }
  }

  lemma QuadIndexAt(m: nat, r: nat)
    requires r < 6
    ensures QuadIndex(3 + 6 * m + r) == if r < 3 then Corner(m) + r else if r == 3 then Corner(m) else Corner(m) + r - 2
  {
    assert (3 + 6 * m + r - 3) / 6 == m && (3 + 6 * m + r - 3) % 6 == r;
  }

  lemma QuadAt(m: nat)
    requires m < 1024
    ensures var idx, i, a := QuadList(), 3 + 6 * m, Corner(m);
      && idx[i] == a && idx[i + 1] == a + 1 && idx[i + 2] == a + 2
      && idx[i + 3] == a && idx[i + 4] == a + 2 && idx[i + 5] == a + 3
  {
    hide QuadIndex, QuadList, Corner;
    QuadIndexAt(m, 0);
    QuadIndexAt(m, 1);
    QuadIndexAt(m, 2);
    QuadIndexAt(m, 3);
    QuadIndexAt(m, 4);
    QuadIndexAt(m, 5);
  }

  lemma NextQuad(e: Emitter, m: nat, hi: nat)
    requires TakesQuads(e) && m < 1024 && 3 + 6 * m + 6 <= hi <= CHUNK + 3
    ensures var idx, i := QuadList(), 3 + 6 * m;
      && Next(e, idx, i, hi) == i + 6 && Emits(EventAt(e, idx, i, hi))
      && Scan(e, idx, i, hi) == [EventAt(e, idx, i, hi)] + Scan(e, idx, i + 6, hi)
  {
    hide QuadList;
    QuadAt(m);
    assert EmitsQuad(e, Corner(m));
  }

  lemma NextTriangle(e: Emitter, idx: seq<nat>, i: nat, hi: nat)
    requires i + 3 <= hi <= |idx| && (i + 6 <= hi ==> !IsQuad(idx, i))
    ensures Next(e, idx, i, hi) == i + 3
    ensures Scan(e, idx, i, hi) == [Tri(i, e.tri(idx[i], idx[i + 1], idx[i + 2]))] + Scan(e, idx, i + 3, hi)
  {
    hide IsQuad;
  }

  lemma FirstTriangle(e: Emitter, hi: nat)
    requires TakesQuads(e) && 9 <= hi <= CHUNK + 3
    ensures var idx := QuadList();
      && Next(e, idx, 0, hi) == 3
      && Scan(e, idx, 0, hi) == [Tri(0, e.tri(0, 1, 2))] + Scan(e, idx, 3, hi)
  {
    hide QuadList, Scan, Next;
    QuadAt(0);
    assert QuadList()[0] == QuadIndex(0) && QuadList()[1] == QuadIndex(1) && QuadList()[2] == QuadIndex(2);
    NextTriangle(e, QuadList(), 0, hi);
  }

  /** From quad m on there is one event for each whole quad, and one for the first half of the last. */
  lemma {:induction false} QuadScan(e: Emitter, m: nat, hi: nat)
    requires TakesQuads(e) && m <= 1024 && (hi == CHUNK || hi == CHUNK + 3) && 3 + 6 * m <= hi
    ensures var s := Scan(e, QuadList(), 3 + 6 * m, hi);
      AllEmit(s) && |s| == 1024 - m
    decreases 1024 - m
  {
    hide QuadList, EventAt, Next;
    if m < 1023 || (m == 1023 && hi == CHUNK + 3) {
      NextQuad(e, m, hi);
      QuadScan(e, m + 1, hi);
    } else if m == 1023 {
      QuadAt(m);
      assert EmitsQuad(e, Corner(m));
      NextTriangle(e, QuadList(), CHUNK - 3, CHUNK);
      assert Scan(e, QuadList(), CHUNK, CHUNK) == [];
    }
  }

  /** The second chunk holds the other half of the last quad. */
  lemma SecondHalf(e: Emitter)
    requires TakesQuads(e)
    ensures var s := Scan(e, QuadList(), CHUNK, CHUNK + 3);
      AllEmit(s) && |s| == 1
  {
    hide QuadList, EventAt, Next;
    QuadAt(1023);
    assert EmitsQuad(e, Corner(1023));
    NextTriangle(e, QuadList(), CHUNK, CHUNK + 3);
    assert Scan(e, QuadList(), CHUNK + 3, CHUNK + 3) == [];
  }

  lemma {:induction false} OffByThree(e: Emitter, m: nat)
    requires TakesQuads(e) && m <= 1024
    ensures !Lands(e, QuadList(), 3 + 6 * m, CHUNK)
    decreases 1024 - m
  {
    hide QuadList, Next;
    if m == 1024 {
    } else {
      NextQuad(e, m, CHUNK + 3);
      OffByThree(e, m + 1);
    }
  }

  lemma TwoChunks(e: Emitter, idx: seq<nat>)
    requires CHUNK < |idx| < 2 * CHUNK
    ensures ChunkScan(e, idx, 0) == Scan(e, idx, 0, CHUNK) + Scan(e, idx, CHUNK, |idx|)
  {
    hide Scan;
    assert ChunkScan(e, idx, CHUNK + CHUNK) == [];
    assert ChunkScan(e, idx, CHUNK) == Scan(e, idx, CHUNK, |idx|) + [];
    assert ChunkScan(e, idx, 0) == Scan(e, idx, 0, CHUNK) + ChunkScan(e, idx, CHUNK);
  }

  /** One scan meets 1025 events, the two chunks meet 1026. */
  lemma CutCounts(e: Emitter)
    requires TakesQuads(e)
    ensures var idx := QuadList();
      && AllEmit(Scan(e, idx, 0, |idx|)) && |Scan(e, idx, 0, |idx|)| == 1025
      && AllEmit(ChunkScan(e, idx, 0)) && |ChunkScan(e, idx, 0)| == 1026
  {
    hide Scan, Next, QuadList, ChunkScan;
    FirstTriangle(e, CHUNK + 3);
    QuadScan(e, 0, CHUNK + 3);
    FirstTriangle(e, CHUNK);
    QuadScan(e, 0, CHUNK);
    SecondHalf(e);
    TwoChunks(e, QuadList());
  }

  /** A chunk size that is a multiple of six does not keep quads whole: one triangle in front of enough
      quads moves every quad by three indices, and one of them is cut into two triangles.  Whatever emits
      the quads and triangles of the list emits other primitives then than in one scan. */
  lemma QuadsCanBeCut(e: Emitter)
    requires TakesQuads(e)
    ensures var idx := QuadList();
      !LandsOnChunks(e, idx) && Prims(ChunkScan(e, idx, 0), 0) != Prims(Scan(e, idx, 0, |idx|), 0)
  {
    hide Scan, ChunkScan, Prims, Next, QuadList;
    var idx := QuadList();
    FirstTriangle(e, |idx|);
    OffByThree(e, 0);
    assert !Lands(e, idx, 0, CHUNK * 1);
    CutCounts(e);
    AllEmitted(Scan(e, idx, 0, |idx|), 0);
    AllEmitted(ChunkScan(e, idx, 0), 0);
  }

  /** There are such emitters: one that takes just these quads. */
  lemma SomeTakesQuads() returns (e: Emitter)
    ensures Kinds(e) && TakesQuads(e)
    ensures forall a, b, c, d :: e.rect(a, b, c, d).Accepted? ==> b == a + 1 && c == a + 2 && d == a + 3
  {
    var p := Prim(RectSolid, 0, 1, 0, 1, 0xFF_FFFF, 255, 0, 0, 0, 0, 0);
    e := Emitter(
      (a: nat, b: nat, c: nat, d: nat) => if b == a + 1 && c == a + 2 && d == a + 3 then Accepted(Some(p)) else Declined,
      (a: nat, b: nat, c: nat) => Some((p.(kind := TriFlat), TriData(a, b, c))));
  }

  // ---------------------------------------------------------------------------------------
  // Concatenation

  function RebaseOne(p: Prim, t: nat): Prim {
    if IsTri(p) then p.(tri := p.tri + t) else p
  }

  function Rebase(P: seq<Prim>, t: nat): (s: seq<Prim>)
    ensures |s| == |P|
  {
    if P == [] then [] else [RebaseOne(P[0], t)] + Rebase(P[1..], t)
  }

  ghost predicate EventKinds(events: seq<Event>) {
    forall i | 0 <= i < |events| ::
      && (events[i].Rect? && events[i].prim.Some? ==> !IsTri(events[i].prim.value))
      && (events[i].Tri? && events[i].made.Some? ==> IsTri(events[i].made.value.0))
  }

  lemma {:induction false} RebaseAppend(P: seq<Prim>, Q: seq<Prim>, t: nat)
    ensures Rebase(P + Q, t) == Rebase(P, t) + Rebase(Q, t)
  {
    hide *;
    RebaseNone(t);
    if P == [] {
      assert P + Q == Q && [] + Rebase(Q, t) == Rebase(Q, t);
    } else {
      RebaseAppend(P[1..], Q, t);
      assert (P + Q)[1..] == P[1..] + Q;
      RebaseStep(P, t);
      RebaseStep(P + Q, t);
      assert [RebaseOne(P[0], t)] + (Rebase(P[1..], t) + Rebase(Q, t)) == Rebase(P, t) + Rebase(Q, t);
    }
  }

  lemma RebaseNone(t: nat)
    ensures Rebase([], t) == []
  {
  }

  lemma RebaseStep(P: seq<Prim>, t: nat)
    requires P != []
    ensures Rebase(P, t) == [RebaseOne(P[0], t)] + Rebase(P[1..], t)
  {
  }

  lemma NoRebase(s: nat, t: nat)
    ensures Rebase(Prims([], s), t) == Prims([], s + t)
  {
  }

  lemma SplitEvents(events: seq<Event>, t: nat)
    requires events != []
    ensures Prims(events, t) == PrimOf(events[0], t) + Prims(events[1..], t + |TriOf(events[0])|)
  {
  }

  lemma RebaseEvent(event: Event, s: nat, t: nat)
    requires EventKinds([event])
    ensures Rebase(PrimOf(event, s), t) == PrimOf(event, s + t)
  {
    assert [event][0] == event;
  }

  /** Numbering triangles from t on is numbering them from zero and then adding t. */
  lemma {:induction false} RebasePrims(events: seq<Event>, s: nat, t: nat)
    requires EventKinds(events)
    ensures Rebase(Prims(events, s), t) == Prims(events, s + t)
  {
    hide Rebase, PrimOf, TriOf, Prims;
    if events == [] {
      NoRebase(s, t);
    } else {
      var n := s + |TriOf(events[0])|;
      RebasePrims(events[1..], n, t);
      assert EventKinds([events[0]]);
      SplitEvents(events, s);
      SplitEvents(events, s + t);
      RebaseAppend(PrimOf(events[0], s), Prims(events[1..], n), t);
      RebaseEvent(events[0], s, t);
    }
  }

  /** Event k made the triangle q, whatever its number, with data d. */
  predicate MadeAt(events: seq<Event>, k: nat, q: Prim, d: TriData)
    requires k < |events|
  {
    events[k].Tri? && events[k].made.Some?
    && q == events[k].made.value.0.(tri := q.tri) && d == events[k].made.value.1
  }

  ghost predicate Made(events: seq<Event>, q: Prim, d: TriData) {
    exists k | 0 <= k < |events| :: MadeAt(events, k, q, d)
  }

  lemma SomeEvent(events: seq<Event>, t: nat)
    requires Prims(events, t) != []
    ensures events != []
  {
  }

  lemma SplitTris(events: seq<Event>)
    requires events != []
    ensures Tris(events) == TriOf(events[0]) + Tris(events[1..])
  {
  }

  lemma FirstMade(events: seq<Event>, t: nat)
    requires events != [] && EventKinds(events) && PrimOf(events[0], t) != [] && IsTri(PrimOf(events[0], t)[0])
    ensures PrimOf(events[0], t)[0].tri == t && TriOf(events[0]) != []
    ensures Made(events, PrimOf(events[0], t)[0], TriOf(events[0])[0])
  {
    assert MadeAt(events, 0, PrimOf(events[0], t)[0], TriOf(events[0])[0]);
  }

  lemma MadeLater(events: seq<Event>, q: Prim, d: TriData)
    requires events != [] && Made(events[1..], q, d)
    ensures Made(events, q, d)
  {
    var k :| 0 <= k < |events[1..]| && MadeAt(events[1..], k, q, d);
    var n := k + 1;
    assert events[n] == events[1..][k];
    assert MadeAt(events, n, q, d);
  }

  /** Every triangle primitive refers to the data emitted with it. */
  lemma {:induction false} OwnData(events: seq<Event>, t: nat, i: nat)
    requires EventKinds(events) && i < |Prims(events, t)| && IsTri(Prims(events, t)[i])
    ensures t <= Prims(events, t)[i].tri < t + |Tris(events)|
    ensures var q := Prims(events, t)[i];
      Made(events, q, Tris(events)[q.tri - t])
  {
    hide Prims, Tris, MadeAt, Made, TriOf, PrimOf;
    SomeEvent(events, t);
    SplitEvents(events, t);
    SplitTris(events);
    var head, next := PrimOf(events[0], t), t + |TriOf(events[0])|;
    var q := Prims(events, t)[i];
    if i < |head| {
      FirstMade(events, t);
    } else {
      OwnData(events[1..], next, i - |head|);
      var d := Tris(events[1..])[q.tri - next];
      MadeLater(events, q, d);
    }
  }

  // Which primitive is which.

  /** How many of the first k events emit something. */
  function Emitted(events: seq<Event>, k: nat): nat
    requires k <= |events|
  {
    if k == 0 then 0 else Emitted(events, k - 1) + if Emits(events[k - 1]) then 1 else 0
  }

  /** How many of them emit a triangle. */
  function TrianglesTo(events: seq<Event>, k: nat): nat
    requires k <= |events|
  {
    if k == 0 then 0
    else TrianglesTo(events, k - 1) + if events[k - 1].Tri? && events[k - 1].made.Some? then 1 else 0
  }

  lemma {:induction false} SizesTo(events: seq<Event>, t: nat, k: nat)
    requires k <= |events|
    ensures |Prims(events[..k], t)| == Emitted(events, k) && |Tris(events[..k])| == TrianglesTo(events, k)
  {
    hide Prims, Tris;
    if k == 0 {
      NothingOf(t);
    } else {
      SizesTo(events, t, k - 1);
      var last := events[k - 1];
      assert events[..k] == events[..k - 1] + [last];
      PrimsAppend(events[..k - 1], [last], t);
      TrisAppend(events[..k - 1], [last]);
      OneEvent(last, t + |Tris(events[..k - 1])|);
    }
  }

  lemma NothingOf(t: nat)
    ensures Prims([], t) == [] && Tris([]) == []
  {
  }

  /** Every event that emits something has its own primitive, in the order of the events, and a triangle the number of
      its data. */
  lemma PrimAt(events: seq<Event>, t: nat, k: nat)
    requires k < |events| && Emits(events[k])
    ensures var i, j := Emitted(events, k), TrianglesTo(events, k);
      && i < |Prims(events, t)| == Emitted(events, |events|) && |Tris(events)| == TrianglesTo(events, |events|)
      && (events[k].Rect? ==> Prims(events, t)[i] == events[k].prim.value)
      && (events[k].Tri? ==> (Prims(events, t)[i] == events[k].made.value.0.(tri := t + j)
        && j < |Tris(events)| && Tris(events)[j] == events[k].made.value.1))
  {
    hide Prims, Tris, Emitted, TrianglesTo;
    var before, rest := events[..k], events[k..];
    assert events == before + rest && rest[0] == events[k] && events[..|events|] == events;
    SizesTo(events, t, k);
    SizesTo(events, t, |events|);
    PrimsAppend(before, rest, t);
    TrisAppend(before, rest);
    SplitEvents(rest, t + TrianglesTo(events, k));
    SplitTris(rest);
  }

  // Sizes and contents of the first k chunks.

  function Poff(cprims: seq<seq<Prim>>, k: nat): nat
    requires k <= |cprims|
  {
    if k == 0 then 0 else Poff(cprims, k - 1) + |cprims[k - 1]|
  }

  function Toff(ctris: seq<seq<TriData>>, k: nat): nat
    requires k <= |ctris|
  {
    if k == 0 then 0 else Toff(ctris, k - 1) + |ctris[k - 1]|
  }

  function FlatPrims(cprims: seq<seq<Prim>>, ctris: seq<seq<TriData>>, k: nat): (s: seq<Prim>)
    requires k <= |cprims| == |ctris|
    ensures |s| == Poff(cprims, k)
  {
    if k == 0 then []
    else FlatPrims(cprims, ctris, k - 1) + Rebase(cprims[k - 1], Toff(ctris, k - 1))
  }

  function FlatTris(ctris: seq<seq<TriData>>, k: nat): (s: seq<TriData>)
    requires k <= |ctris|
    ensures |s| == Toff(ctris, k)
  {
    if k == 0 then [] else FlatTris(ctris, k - 1) + ctris[k - 1]
  }

  lemma {:induction false} OffMono(cprims: seq<seq<Prim>>, ctris: seq<seq<TriData>>, k: nat, m: nat)
    requires k <= m <= |cprims| == |ctris|
    ensures Poff(cprims, k) <= Poff(cprims, m) && Toff(ctris, k) <= Toff(ctris, m)
  {
    if k == m {
    } else {
      OffMono(cprims, ctris, k, m - 1);
    }
  }

  /** Chunk k stands, rebased, where it belongs. */
  ghost predicate Copied(cprims: seq<seq<Prim>>, ctris: seq<seq<TriData>>, k: nat, prims: seq<Prim>, tris: seq<TriData>)
    requires k < |cprims| == |ctris|
    requires |prims| == Poff(cprims, |cprims|) && |tris| == Toff(ctris, |ctris|)
  {
    OffMono(cprims, ctris, k + 1, |cprims|);
    && prims[Poff(cprims, k)..Poff(cprims, k + 1)] == Rebase(cprims[k], Toff(ctris, k))
    && tris[Toff(ctris, k)..Toff(ctris, k + 1)] == ctris[k]
  }

  lemma {:induction false} AllCopied(cprims: seq<seq<Prim>>, ctris: seq<seq<TriData>>, m: nat, prims: seq<Prim>, tris: seq<TriData>)
    requires m <= |cprims| == |ctris|
    requires |prims| == Poff(cprims, |cprims|) && |tris| == Toff(ctris, |ctris|)
    requires forall k | 0 <= k < m :: Copied(cprims, ctris, k, prims, tris)
    ensures Poff(cprims, m) <= |prims| && Toff(ctris, m) <= |tris|
    ensures prims[..Poff(cprims, m)] == FlatPrims(cprims, ctris, m)
    ensures tris[..Toff(ctris, m)] == FlatTris(ctris, m)
  {
    hide Rebase;
    OffMono(cprims, ctris, m, |cprims|);
    if m == 0 {
    } else {
      AllCopied(cprims, ctris, m - 1, prims, tris);
      assert Copied(cprims, ctris, m - 1, prims, tris);
      assert prims[..Poff(cprims, m)] == prims[..Poff(cprims, m - 1)] + prims[Poff(cprims, m - 1)..Poff(cprims, m)];
      assert tris[..Toff(ctris, m)] == tris[..Toff(ctris, m - 1)] + tris[Toff(ctris, m - 1)..Toff(ctris, m)];
    }
  }

  /** Replacing the part of one chunk leaves that of every other as it is. */
  lemma CopyElsewhere(cprims: seq<seq<Prim>>, ctris: seq<seq<TriData>>, k: nat, c: nat,
    prims: seq<Prim>, tris: seq<TriData>, prims': seq<Prim>, tris': seq<TriData>)
    requires k < |cprims| == |ctris| && c < |cprims| && c != k
    requires |prims| == |prims'| == Poff(cprims, |cprims|) && |tris| == |tris'| == Toff(ctris, |ctris|)
    requires forall i | 0 <= i < |prims| && !(Poff(cprims, k) <= i < Poff(cprims, k + 1)) :: prims'[i] == prims[i]
    requires forall i | 0 <= i < |tris| && !(Toff(ctris, k) <= i < Toff(ctris, k + 1)) :: tris'[i] == tris[i]
    requires Copied(cprims, ctris, c, prims, tris)
    ensures Copied(cprims, ctris, c, prims', tris')
  {
    hide Rebase, Poff, Toff;
    OffMono(cprims, ctris, c, c + 1);
    OffMono(cprims, ctris, c + 1, |cprims|);
    if c < k {
      OffMono(cprims, ctris, c + 1, k);
    } else {
      OffMono(cprims, ctris, k + 1, c);
    }
    assert prims'[Poff(cprims, c)..Poff(cprims, c + 1)] == prims[Poff(cprims, c)..Poff(cprims, c + 1)];
    assert tris'[Toff(ctris, c)..Toff(ctris, c + 1)] == tris[Toff(ctris, c)..Toff(ctris, c + 1)];
  }

  lemma {:induction false} RebaseAt(P: seq<Prim>, t: nat, i: nat)
    requires i < |P|
    ensures Rebase(P, t)[i] == RebaseOne(P[i], t)
  {
    hide RebaseOne;
    if i == 0 {
    } else {
      RebaseAt(P[1..], t, i - 1);
    }
  }

  /** Copies a chunk to its place in both arrays and renumbers its triangles. */
  method CopyAt(P: seq<Prim>, T: seq<TriData>, poff: nat, toff: nat, prims: array<Prim>, tris: array<TriData>)
    requires poff + |P| <= prims.Length && toff + |T| <= tris.Length
    modifies prims, tris
    ensures forall i | 0 <= i < |P| :: prims[poff + i] == Rebase(P, toff)[i]
    ensures forall i | 0 <= i < prims.Length && !(poff <= i < poff + |P|) :: prims[i] == old(prims[i])
    ensures forall i | 0 <= i < tris.Length :: tris[i] == if toff <= i < toff + |T| then T[i - toff] else old(tris[i])
  {
    hide Rebase, RebaseOne;
    forall i | 0 <= i < |T| {
      tris[toff + i] := T[i];
    }
    forall i | 0 <= i < |P| {
      prims[poff + i] := P[i];
    }
    for i := 0 to |P|
      invariant forall j | 0 <= j < i :: prims[poff + j] == RebaseOne(P[j], toff)
      invariant forall j | i <= j < |P| :: prims[poff + j] == P[j]
      invariant forall j | 0 <= j < prims.Length && !(poff <= j < poff + |P|) :: prims[j] == old(prims[j])
      modifies prims
    {
      RebaseKind(P[i], toff);
      if IsTri(prims[poff + i]) {
        prims[poff + i] := prims[poff + i].(tri := prims[poff + i].tri + toff);
      }
    }
    forall i | 0 <= i < |P|
      ensures prims[poff + i] == Rebase(P, toff)[i]
    {
      RebaseAt(P, toff, i);
    }
  }

  /** Copies chunk k into its part of both arrays. */
  method CopyChunk(ghost cprims: seq<seq<Prim>>, ghost ctris: seq<seq<TriData>>, k: nat,
    P: seq<Prim>, T: seq<TriData>, poff: nat, toff: nat, prims: array<Prim>, tris: array<TriData>)
    requires k < |cprims| == |ctris| && P == cprims[k] && T == ctris[k]
    requires poff == Poff(cprims, k) && toff == Toff(ctris, k)
    requires prims.Length == Poff(cprims, |cprims|) && tris.Length == Toff(ctris, |ctris|)
    modifies prims, tris
    ensures Copied(cprims, ctris, k, prims[..], tris[..])
    ensures forall c | 0 <= c < |cprims| && old(Copied(cprims, ctris, c, prims[..], tris[..])) ::
      Copied(cprims, ctris, c, prims[..], tris[..])
  {
    hide Rebase, RebaseOne, Copied;
    ghost var before, before' := prims[..], tris[..];
    OffMono(cprims, ctris, k + 1, |cprims|);
    CopyAt(P, T, poff, toff, prims, tris);
    CopiedNow(cprims, ctris, k, prims[..], tris[..]);
    forall c | 0 <= c < |cprims| && Copied(cprims, ctris, c, before, before') && c != k
      ensures Copied(cprims, ctris, c, prims[..], tris[..])
    {
      CopyElsewhere(cprims, ctris, k, c, before, before', prims[..], tris[..]);
    }
  }

  lemma RebaseKind(p: Prim, t: nat)
    ensures RebaseOne(p, t) == if IsTri(p) then p.(tri := p.tri + t) else p
  {
  }

  lemma CopiedNow(cprims: seq<seq<Prim>>, ctris: seq<seq<TriData>>, k: nat, prims: seq<Prim>, tris: seq<TriData>)
    requires k < |cprims| == |ctris|
    requires |prims| == Poff(cprims, |cprims|) && |tris| == Toff(ctris, |ctris|)
    requires Poff(cprims, k + 1) <= |prims| && Toff(ctris, k + 1) <= |tris|
    requires forall i | 0 <= i < |cprims[k]| :: prims[Poff(cprims, k) + i] == Rebase(cprims[k], Toff(ctris, k))[i]
    requires forall i | 0 <= i < |ctris[k]| :: tris[Toff(ctris, k) + i] == ctris[k][i]
    ensures Copied(cprims, ctris, k, prims, tris)
  {
    hide Rebase;
  }

  method Offsets(cprims: seq<seq<Prim>>, ctris: seq<seq<TriData>>) returns (poff: array<nat>, toff: array<nat>)
    requires |cprims| == |ctris|
    ensures fresh(poff) && fresh(toff) && poff.Length == toff.Length == |cprims| + 1
    ensures forall j {:trigger poff[j]} {:trigger toff[j]} | 0 <= j <= |cprims| ::
        poff[j] == Poff(cprims, j) && toff[j] == Toff(ctris, j)
  {
    var n := |cprims|;
    poff, toff := new nat[n + 1], new nat[n + 1];
    poff[0], toff[0] := 0, 0;
    for k := 0 to n
      invariant forall j {:trigger poff[j]} {:trigger toff[j]} | 0 <= j <= k ::
          poff[j] == Poff(cprims, j) && toff[j] == Toff(ctris, j)
    {
      poff[k + 1] := poff[k] + |cprims[k]|;
      toff[k + 1] := toff[k] + |ctris[k]|;
    }
  }

  /** Concatenates what the chunks emitted.  The chunks may be copied in any order: each has a
      part of the result to itself. */
  method Concat(cprims: seq<seq<Prim>>, ctris: seq<seq<TriData>>, order: seq<nat>)
    returns (prims: array<Prim>, tris: array<TriData>)
    requires |cprims| == |ctris|
    requires forall k | 0 <= k < |order| :: order[k] < |cprims|
    requires forall k | 0 <= k < |cprims| :: k in order
    ensures prims[..] == FlatPrims(cprims, ctris, |cprims|)
    ensures tris[..] == FlatTris(ctris, |ctris|)
  {
    hide Copied, FlatPrims, FlatTris, Poff, Toff;
    var n := |cprims|;
    var poff, toff := Offsets(cprims, ctris);
    prims := new Prim[poff[n]];
    tris := new TriData[toff[n]];
    for t := 0 to |order|
      invariant forall j {:trigger poff[j]} {:trigger toff[j]} | 0 <= j <= n ::
          poff[j] == Poff(cprims, j) && toff[j] == Toff(ctris, j)
      invariant forall j | 0 <= j < t :: Copied(cprims, ctris, order[j], prims[..], tris[..])
    {
      var k := order[t];
      CopyChunk(cprims, ctris, k, cprims[k], ctris[k], poff[k], toff[k], prims, tris);
    }
    forall k | 0 <= k < n
      ensures Copied(cprims, ctris, k, prims[..], tris[..])
    {
      assert k in order;
      var j :| 0 <= j < |order| && order[j] == k;
    }
    AllCopied(cprims, ctris, n, prims[..], tris[..]);
    assert prims[..] == prims[..][..Poff(cprims, n)] && tris[..] == tris[..][..Toff(ctris, n)];
  }

  // ---------------------------------------------------------------------------------------
  // The whole command

  function ChunkCount(n: nat): nat {
    (n + CHUNK - 1) / CHUNK
  }

  /** What the first k chunks meet. */
  function ScanTo(e: Emitter, idx: seq<nat>, k: nat): seq<Event>
    requires k <= ChunkCount(|idx|)
  {
    if k == 0 then []
    else ScanTo(e, idx, k - 1) + Scan(e, idx, CHUNK * (k - 1), ChunkEnd(|idx|, CHUNK * (k - 1)))
  }

  lemma {:induction false} ScanToRest(e: Emitter, idx: seq<nat>, k: nat)
    requires k <= ChunkCount(|idx|)
    ensures ScanTo(e, idx, k) + ChunkScan(e, idx, CHUNK * k) == ChunkScan(e, idx, 0)
  {
    hide Scan;
    if k == 0 {
      assert ScanTo(e, idx, 0) + ChunkScan(e, idx, 0) == ChunkScan(e, idx, 0);
    } else {
      ScanToRest(e, idx, k - 1);
      var off := CHUNK * (k - 1);
      assert off + CHUNK == CHUNK * k;
      Associative(ScanTo(e, idx, k - 1), Scan(e, idx, off, ChunkEnd(|idx|, off)), ChunkScan(e, idx, off + CHUNK));
    }
  }

  lemma {:induction false} ScanKinds(e: Emitter, idx: seq<nat>, i: nat, hi: nat)
    requires Kinds(e) && hi <= |idx|
    ensures EventKinds(Scan(e, idx, i, hi))
    decreases |idx| - i
  {
    if i + 3 > hi {
    } else {
      ScanKinds(e, idx, Next(e, idx, i, hi), hi);
    }
  }

  /** Emits the chunks one by one and concatenates them in any order.  The result is what the
      chunks meet, with the triangles numbered through. */
  method EmitAll(e: Emitter, idx: seq<nat>, order: seq<nat>) returns (prims: array<Prim>, tris: array<TriData>)
    requires Kinds(e)
    requires forall k | 0 <= k < |order| :: order[k] < ChunkCount(|idx|)
    requires forall k | 0 <= k < ChunkCount(|idx|) :: k in order
    ensures prims[..] == Prims(ChunkScan(e, idx, 0), 0) && tris[..] == Tris(ChunkScan(e, idx, 0))
    ensures LandsOnChunks(e, idx) ==>
      prims[..] == Prims(Scan(e, idx, 0, |idx|), 0) && tris[..] == Tris(Scan(e, idx, 0, |idx|))
  {
    hide Scan, Rebase, Prims, Tris, EventKinds, LandsOnChunks;
    var cprims, ctris := [], [];
    var off, k := 0, 0;
    NoEvents();
    while off < |idx|
      invariant off == CHUNK * k && k <= ChunkCount(|idx|) && k == |cprims| == |ctris|
      invariant FlatPrims(cprims, ctris, k) == Prims(ScanTo(e, idx, k), 0)
      invariant FlatTris(ctris, k) == Tris(ScanTo(e, idx, k))
      invariant off >= |idx| ==> k == ChunkCount(|idx|)
      decreases |idx| - off
    {
      var P, T := EmitRange(e, idx, off, ChunkEnd(|idx|, off) - off);
      ghost var here := Scan(e, idx, off, ChunkEnd(|idx|, off));
      ScanKinds(e, idx, off, ChunkEnd(|idx|, off));
      PrimsAppend(ScanTo(e, idx, k), here, 0);
      TrisAppend(ScanTo(e, idx, k), here);
      RebasePrims(here, 0, Toff(ctris, k));
      FlatSnoc(cprims, ctris, P, T);
      cprims, ctris := cprims + [P], ctris + [T];
      off, k := off + CHUNK, k + 1;
    }
    ScanToRest(e, idx, k);
    assert ScanTo(e, idx, k) + [] == ScanTo(e, idx, k);
    ChunksIff(e, idx);
    prims, tris := Concat(cprims, ctris, order);
  }

  lemma FlatSnoc(cprims: seq<seq<Prim>>, ctris: seq<seq<TriData>>, P: seq<Prim>, T: seq<TriData>)
    requires |cprims| == |ctris|
    ensures var k := |cprims|;
      FlatPrims(cprims + [P], ctris + [T], k + 1) == FlatPrims(cprims, ctris, k) + Rebase(P, Toff(ctris, k))
      && FlatTris(ctris + [T], k + 1) == FlatTris(ctris, k) + T
  {
    hide Rebase;
    FlatPrefix(cprims, ctris, P, T, |cprims|);
  }

  lemma {:induction false} FlatPrefix(cprims: seq<seq<Prim>>, ctris: seq<seq<TriData>>, P: seq<Prim>, T: seq<TriData>, k: nat)
    requires k <= |cprims| == |ctris|
    ensures Toff(ctris + [T], k) == Toff(ctris, k)
    ensures FlatPrims(cprims + [P], ctris + [T], k) == FlatPrims(cprims, ctris, k)
    ensures FlatTris(ctris + [T], k) == FlatTris(ctris, k)
  {
    hide Rebase;
    if k == 0 {
    } else {
      FlatPrefix(cprims, ctris, P, T, k - 1);
    }
  }
}
