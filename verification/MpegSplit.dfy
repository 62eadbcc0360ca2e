/** How the packets that come out depend on the pieces in which a stream arrives: taking packets
    stops at a header that is not valid, and goes on when the next piece is written. */
module MpegSplit {
  import opened BitStream
  import opened Common
  import opened MpegBuffer
  import opened MpegStream

  /** All packets of s, for a caller who does not stop at headers that are not valid. */
  function All(s: seq<byte>, st: State): (r: Trace)
    requires st.pos <= |s|
    ensures r.end.Waits?
    decreases |s| - st.pos, if st.Scan? || st.Header? then 0 else 1
  {
    ActProgress(s, st);
    var o := Act(s, st);
    if o.Gives? then
      var r := All(s, o.next);
      Trace([o.packet] + r.packets, r.end)
    else if o.Refused? then All(s, o.next)
    else Trace([], o)
  }

  lemma AllIs(s: seq<byte>, st: State)
    requires st.pos <= |s|
    ensures var o := Act(s, st);
      if o.Gives? then
        o.next.pos <= |s| && All(s, st) == Trace([o.packet] + All(s, o.next).packets, All(s, o.next).end)
      else if o.Refused? then o.next.pos <= |s| && All(s, st) == All(s, o.next)
      else All(s, st) == Trace([], o)
  {
    hide Step, Act;
    ActProgress(s, st);
  }

  /** What was taken, and where the reader is. */
  datatype Fed = Fed(packets: seq<Packet>, st: State)

  /** What comes out of the pieces when all packets are taken after each. */
  function Feed(chunks: seq<seq<byte>>): (r: Fed)
    ensures r.st.pos <= |Concat(chunks)|
  {
    if chunks == [] then Fed([], Scan(0))
    else
      var before := Feed(chunks[..|chunks| - 1]);
      var r := Run(Concat(chunks), before.st);
      Fed(before.packets + r.packets, Rest(r.end))
  }

  // ---------------------------------------------------------------------------------------
  // What all splittings have in common

  lemma AllWaitsSame(s: seq<byte>, st: State, st': State)
    requires st.pos <= |s| && st'.pos <= |s| && Step(s, st) == Step(s, st')
    ensures All(s, st) == All(s, st')
  {
    hide *;
    ActSame(s, st, st');
    AllIs(s, st);
    AllIs(s, st');
  }

  /** Taking what has arrived and then the rest is taking everything. */
  lemma {:induction false} RunThenAll(s: seq<byte>, t: seq<byte>, st: State)
    requires st.pos <= |s| && Fits(s + t, st)
    ensures var r := Run(s, st);
      var more := All(s + t, Rest(r.end));
      All(s + t, st) == Trace(r.packets + more.packets, more.end) && Fits(s + t, Rest(r.end))
    decreases |s| - st.pos, if st.Scan? || st.Header? then 0 else 1
  {
    hide Step, GoesOn, Run, All, Fits;
    Progress(s, st);
    MoreBytes(s, t, st);
    GoesOnIs(s, t, st);
    RunIs(s, st);
    AllIs(s + t, st);
    FitsIs(s + t, st);
    match Step(s, st)
    case Gives(p, next) =>
      RunThenAll(s, t, next);
      var r := Run(s, next);
      var more := All(s + t, Rest(r.end)).packets;
      assert [p] + (r.packets + more) == [p] + r.packets + more;
    case Waits(st') =>
      WaitsSame(s + t, st, st');
      AllWaitsSame(s + t, st, st');
      assert [] + All(s + t, st').packets == All(s + t, st').packets;
    case Refused(next) =>
      assert [] + All(s + t, next).packets == All(s + t, next).packets;
    case Long(_) =>
  }

  /** What comes out of pieces is what comes first of the whole. */
  lemma {:induction false} FeedThenAll(chunks: seq<seq<byte>>, rest: seq<byte>)
    requires Fits(Concat(chunks) + rest, Scan(0))
    ensures var f := Feed(chunks);
      var more := All(Concat(chunks) + rest, f.st);
      All(Concat(chunks) + rest, Scan(0)) == Trace(f.packets + more.packets, more.end)
      && Fits(Concat(chunks) + rest, f.st)
  {
    hide Run, All, Fits;
    var n := |chunks|;
    var s := Concat(chunks) + rest;
    if n == 0 {
      assert [] + All(s, Scan(0)).packets == All(s, Scan(0)).packets;
    } else {
      var t := chunks[n - 1] + rest;
      assert Concat(chunks[..n - 1]) + t == s;
      FeedThenAll(chunks[..n - 1], t);
      var before := Feed(chunks[..n - 1]);
      RunThenAll(Concat(chunks), rest, before.st);
      var r := Run(Concat(chunks), before.st);
      var more := All(s, Rest(r.end)).packets;
      assert before.packets + (r.packets + more) == before.packets + r.packets + more;
    }
  }

  /** Up to the first header that is not valid, everything comes out of any pieces. */
  lemma {:induction false} FeedHasRun(chunks: seq<seq<byte>>)
    requires Fits(Concat(chunks), Scan(0))
    ensures var f := Feed(chunks);
      var r := Run(Concat(chunks), Scan(0));
      r.packets <= f.packets && (r.end.Waits? ==> f == Fed(r.packets, r.end.st))
  {
    hide Run, Fits;
    var n := |chunks|;
    if n == 0 {
      NothingYet();
    } else {
      RunMore(Concat(chunks[..n - 1]), chunks[n - 1], Scan(0));
      FeedHasRun(chunks[..n - 1]);
    }
  }

  lemma NothingYet()
    ensures Run([], Scan(0)) == Trace([], Waits(Scan(0)))
  {
    var none: seq<byte> := [];
    assert NextCode(none, 0) == (-1, 0);
    assert Step(none, Scan(0)) == Waits(Scan(0));
  }

  /** Whatever the pieces, at least the packets up to the first header that is not valid come out, and
      nothing but the first of all packets. */
  lemma FeedBetween(chunks: seq<seq<byte>>)
    requires Fits(Concat(chunks), Scan(0))
    ensures Run(Concat(chunks), Scan(0)).packets <= Feed(chunks).packets <= All(Concat(chunks), Scan(0)).packets
  {
    hide Run, All, Feed, Fits;
    FeedHasRun(chunks);
    assert Concat(chunks) + [] == Concat(chunks);
    FeedThenAll(chunks, []);
  }

  // ---------------------------------------------------------------------------------------
  // When the splitting matters

  /** The bytes in one piece, and then n times nothing. */
  function Patient(s: seq<byte>, n: nat): (chunks: seq<seq<byte>>)
    ensures |chunks| == n + 1
  {
    if n == 0 then [s] else Patient(s, n - 1) + [[]]
  }

  lemma {:induction false} PatientWhole(s: seq<byte>, n: nat)
    ensures Concat(Patient(s, n)) == s
  {
    if n == 0 {
      assert Patient(s, 0)[..0] == [];
    } else {
      PatientWhole(s, n - 1);
      assert Patient(s, n)[..n] == Patient(s, n - 1);
    }
  }

  /** Waiting is final until more bytes come. */
  lemma {:induction false} WaitsOn(s: seq<byte>, st: State)
    requires st.pos <= |s| && Fits(s, st) && Run(s, st).end.Waits?
    ensures var st' := Run(s, st).end.st;
      Run(s, st') == All(s, st') == Trace([], Waits(st'))
    decreases |s| - st.pos, if st.Scan? || st.Header? then 0 else 1
  {
    hide Step, GoesOn, Run, All, Fits;
    Progress(s, st);
    RunIs(s, st);
    FitsIs(s, st);
    MoreBytes(s, [], st);
    GoesOnIs(s, [], st);
    assert s + [] == s;
    match Step(s, st)
    case Gives(_, next) => WaitsOn(s, next);
    case Waits(st') => RunIs(s, st'); AllIs(s, st');
    case Refused(_) =>
    case Long(_) =>
  }

  /** Each time the reader stops at a header that is not valid it has come further. */
  lemma {:induction false} PatientFurther(s: seq<byte>, n: nat)
    requires Fits(s, Scan(0))
    ensures var f := Feed(Patient(s, n));
      f.st.pos <= |s| && (f.st.pos > n || All(s, f.st).packets == [])
  {
    hide Run, All, Fits;
    PatientWhole(s, n);
    var chunks := Patient(s, n);
    assert s + [] == s;
    FeedThenAll(chunks, []);
    var before := Feed(chunks[..n]);
    if n == 0 {
      assert chunks[..0] == [];
    } else {
      assert chunks[..n] == Patient(s, n - 1);
      PatientWhole(s, n - 1);
      PatientFurther(s, n - 1);
      FeedThenAll(chunks[..n], []);
    }
    var r := Run(s, before.st);
    RunThenAll(s, [], before.st);
    if r.end.Waits? {
      WaitsOn(s, before.st);
    }
  }

  /** The packets depend on the pieces just when packets follow a header that is not valid. */
  lemma SplitMatters(s: seq<byte>)
    requires Fits(s, Scan(0))
    ensures (forall chunks: seq<seq<byte>> :: Concat(chunks) == s ==> Feed(chunks).packets == Run(s, Scan(0)).packets)
        <==> All(s, Scan(0)).packets == Run(s, Scan(0)).packets
  {
    hide Run, All, Feed, Fits;
    forall chunks: seq<seq<byte>> | Concat(chunks) == s
      ensures Run(s, Scan(0)).packets <= Feed(chunks).packets <= All(s, Scan(0)).packets
    {
      FeedBetween(chunks);
    }
    var patient := Patient(s, |s|);
    PatientWhole(s, |s|);
    PatientFurther(s, |s|);
    assert s + [] == s;
    FeedThenAll(patient, []);
    assert Feed(patient).packets == All(s, Scan(0)).packets;
  }

  /** Without such a header all pieces give the packets of the whole. */
  lemma SplitDoesNotMatter(chunks: seq<seq<byte>>)
    requires Fits(Concat(chunks), Scan(0)) && Run(Concat(chunks), Scan(0)).end.Waits?
    ensures Feed(chunks).packets == Run(Concat(chunks), Scan(0)).packets
  {
    hide Run, Feed, Fits;
    FeedHasRun(chunks);
  }
}
