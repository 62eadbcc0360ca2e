/** System streams from the side of the multiplexer: packets with stuffing, buffer sizes and time stamps, and
    between them other start codes and bytes.  Demultiplexing gives the packets back. */
module MpegMux {
  import opened BitLists
  import opened BitStream
  import opened Common
  import opened MpegBuffer
  import opened MpegDemux
  import opened MpegSplit
  import opened MpegStream
  import opened MsbBits

  /** A packet, something with a start code that is no packet, or bytes without a start code. */
  datatype Unit =
    | Send(kind: byte, stuffing: nat, size: seq<byte>, stamps: seq<byte>, payload: seq<byte>)
    | Other(code: byte)
    | Bytes(bytes: seq<byte>)
  {
    predicate Ok() {
      match this
      case Send(kind, stuffing, size, stamps, payload) =>
        && IsKind(kind) && SizeOk(size) && StampsOk(stamps)
        && stuffing + |size| + |stamps| + |payload| <= 0xFFFF
      case Other(code) => !IsKind(code)
      case Bytes(bytes) => 0 !in bytes
    }
  }

  /** Private data, four audio streams and one video stream. */
  predicate IsKind(code: byte) {
    code == 0xBD || code == 0xC0 || code == 0xC1 || code == 0xC2 || code == 0xC3 || code == 0xE0
  }

  /** A buffer size begins with the bits 01. */
  predicate SizeOk(size: seq<byte>) {
    size == [] || (|size| == 2 && size[0] / 64 == 1)
  }

  /** No time stamp; one, which begins with 0010; or two, the first of which begins with 0011. */
  predicate StampsOk(stamps: seq<byte>) {
    || stamps == [0x0F]
    || (|stamps| == 5 && stamps[0] / 16 == 2)
    || (|stamps| == 10 && stamps[0] / 16 == 3)
  }

  function Stuffing(n: nat): (s: seq<byte>)
    ensures |s| == n && forall i | 0 <= i < n :: s[i] == 0xFF
  {
    seq(n, i => 0xFF)
  }

  function LengthBytes(n: nat): (s: seq<byte>)
    requires n <= 0xFFFF
    ensures |s| == 2
  {
    [n / 256, n % 256]
  }

  /** What comes before the payload, after the start code. */
  function HeaderBytes(u: Unit): seq<byte>
    requires u.Send? && u.Ok()
  {
    LengthBytes(u.stuffing + |u.size| + |u.stamps| + |u.payload|) + Stuffing(u.stuffing) + u.size + u.stamps
  }

  function UnitBytes(u: Unit): seq<byte>
    requires u.Ok()
  {
    match u
    case Send(kind, _, _, _, payload) => [0, 0, 1, kind] + (HeaderBytes(u) + payload)
    case Other(code) => [0, 0, 1, code]
    case Bytes(bytes) => bytes
  }

  predicate AllOk(units: seq<Unit>) {
    forall i | 0 <= i < |units| :: units[i].Ok()
  }

  function Mux(units: seq<Unit>): seq<byte>
    requires AllOk(units)
  {
    if units == [] then [] else UnitBytes(units[0]) + Mux(units[1..])
  }

  function Packets(units: seq<Unit>): seq<Packet> {
    if units == [] then []
    else (if units[0].Send? then [Packet(units[0].kind, units[0].payload)] else []) + Packets(units[1..])
  }

  // ---------------------------------------------------------------------------------------
  // Reading a unit

  /** The parts of a header. */
  lemma HeaderParts(s: seq<byte>, p: nat, u: Unit)
    requires u.Send? && u.Ok() && HasAt(s, p, HeaderBytes(u) + u.payload)
    ensures var i := p + 2 + u.stuffing;
      var j := i + |u.size|;
      && HasAt(s, p, LengthBytes(u.stuffing + |u.size| + |u.stamps| + |u.payload|))
      && HasAt(s, p + 2, Stuffing(u.stuffing)) && HasAt(s, i, u.size) && HasAt(s, j, u.stamps)
      && HasAt(s, j + |u.stamps|, u.payload)
  {
    hide HasAt, LengthBytes, SizeOk, StampsOk;
    var n := LengthBytes(u.stuffing + |u.size| + |u.stamps| + |u.payload|);
    HasParts(s, p, HeaderBytes(u), u.payload);
    HasParts(s, p, n + Stuffing(u.stuffing) + u.size, u.stamps);
    HasParts(s, p, n + Stuffing(u.stuffing), u.size);
    HasParts(s, p, n, Stuffing(u.stuffing));
  }

  lemma StuffingRead(s: seq<byte>, p: nat, u: Unit)
    requires u.Send? && u.Ok() && HasAt(s, p, HeaderBytes(u) + u.payload)
    ensures p + 2 <= |s| && RunLength(s, p + 2, 0xff) == u.stuffing
  {
    HeaderParts(s, p, u);
    hide HeaderBytes;
    var i := p + 2 + u.stuffing;
    forall m | p + 2 <= m < i
      ensures s[m] == 0xff
    {
      HasByte(s, p + 2, Stuffing(u.stuffing), m - p - 2);
    }
    if u.size == [] {
      HasByte(s, i, u.stamps, 0);
    } else {
      HasByte(s, i, u.size, 0);
    }
    RunOf(s, p + 2, u.stuffing, 0xff);
  }

  lemma LengthRead(s: seq<byte>, p: nat, u: Unit)
    requires u.Send? && u.Ok() && HasAt(s, p, HeaderBytes(u) + u.payload)
    ensures p + 2 <= |s| && Word(s[p], s[p + 1]) == u.stuffing + |u.size| + |u.stamps| + |u.payload|
  {
    HeaderParts(s, p, u);
    hide HeaderBytes;
    var n := u.stuffing + |u.size| + |u.stamps| + |u.payload|;
    HasByte(s, p, LengthBytes(n), 0);
    HasByte(s, p, LengthBytes(n), 1);
  }

  /** The bits that tell what follows. */
  lemma MarksRead(s: seq<byte>, p: nat, u: Unit)
    requires u.Send? && u.Ok() && HasAt(s, p, HeaderBytes(u) + u.payload)
    ensures var i := p + 2 + u.stuffing;
      var j := i + |u.size|;
      && i < |s| && (Digits(s, 8 * i, 2) == 1 <==> u.size != []) && (u.size != [] ==> |u.size| == 2)
      && j + |u.stamps| <= |s| && Digits(s, 8 * j + 2, 2) != 1 && StampSize(Digits(s, 8 * j + 2, 2)) == |u.stamps|
  {
    hide HeaderBytes, Digits, HasAt, StampsOk, SizeOk, StampSize, LengthBytes, Stuffing;
    HeaderParts(s, p, u);
    var i := p + 2 + u.stuffing;
    var j := i + |u.size|;
    StampByte(u.stamps);
    HasByte(s, j, u.stamps, 0);
    HasWithin(s, j, u.stamps);
    TwoBitsAt(s, j);
    SizeByte(u.size);
    if u.size != [] {
      HasByte(s, i, u.size, 0);
      TwoBitsAt(s, i);
    }
  }

  lemma HasWithin(s: seq<byte>, p: nat, t: seq<byte>)
    requires HasAt(s, p, t)
    ensures p + |t| <= |s|
  {
  }

  lemma StampByte(stamps: seq<byte>)
    requires StampsOk(stamps)
    ensures stamps != [] && stamps[0] / 64 == 0
    ensures (stamps[0] / 16) % 4 != 1 && StampSize((stamps[0] / 16) % 4) == |stamps|
  {
  }

  lemma SizeByte(size: seq<byte>)
    requires SizeOk(size)
    ensures size != [] ==> |size| == 2 && size[0] / 64 == 1
  {
  }

  /** The fields of a header that is all there. */
  lemma FieldsRead(s: seq<byte>, p: nat, u: Unit)
    requires u.Send? && u.Ok() && HasAt(s, p, HeaderBytes(u) + u.payload)
    ensures p + 2 <= |s| && ReadFields(s, p) == Reading(8 * (p + |HeaderBytes(u)|), |u.payload|, true)
  {
    hide Digits, HasAt, StampsOk, SizeOk, StampSize, RunLength, Word, PastStamps, Unit.Ok;
    StuffingRead(s, p, u);
    LengthRead(s, p, u);
    MarksRead(s, p, u);
    HeaderSize(u);
    var i := p + 2 + u.stuffing;
    var j := i + |u.size|;
    var marker := Digits(s, 8 * j + 2, 2);
    StampSizes(marker);
    PastThere(s, 8 * j + 4, marker);
    SmallLength(u);
  }

  lemma HeaderSize(u: Unit)
    requires u.Send? && u.Ok()
    ensures |HeaderBytes(u)| == 2 + u.stuffing + |u.size| + |u.stamps|
  {
  }

  lemma SmallLength(u: Unit)
    requires u.Send? && u.Ok()
    ensures |u.payload| % WORD == |u.payload|
  {
  }

  lemma StampSizes(marker: nat)
    ensures StampSize(marker) == 1 || StampSize(marker) == 5 || StampSize(marker) == 10
  {
  }

  lemma PastThere(s: seq<byte>, q: nat, marker: nat)
    requires q + 8 * StampSize(marker) <= 8 * |s| + 4
    ensures PastStamps(s, q, marker) + 4 == q + 8 * StampSize(marker)
  {
  }

  // ---------------------------------------------------------------------------------------
  // Reading a stream

  /** A start code at p is what is found first. */
  lemma StartRead(s: seq<byte>, p: nat, code: byte)
    requires HasAt(s, p, [0, 0, 1, code]) && p + 5 <= |s|
    ensures NextCode(s, p) == (code as int, p + 4)
  {
    var t: seq<byte> := [0, 0, 1, code];
    HasByte(s, p, t, 0);
    HasByte(s, p, t, 1);
    HasByte(s, p, t, 2);
    HasByte(s, p, t, 3);
  }

  /** Bytes without a zero have no part in a start code. */
  lemma {:induction false} BytesPassed(s: seq<byte>, p: nat, bytes: seq<byte>)
    requires HasAt(s, p, bytes) && 0 !in bytes && p + |bytes| + 5 <= |s|
    ensures NextCode(s, p) == NextCode(s, p + |bytes|)
    decreases |bytes|
  {
    if bytes == [] {
    } else {
      HasByte(s, p, bytes, 0);
      assert [bytes[0]] + bytes[1..] == bytes;
      HasParts(s, p, [bytes[0]], bytes[1..]);
      BytesPassed(s, p + 1, bytes[1..]);
    }
  }

  lemma KindsAre(code: byte)
    ensures IsPacketCode(code) <==> IsKind(code)
  {
  }

  /** What a unit leads to, when sixteen bytes follow it. */
  lemma UnitRead(s: seq<byte>, p: nat, u: Unit)
    requires u.Ok() && HasAt(s, p, UnitBytes(u)) && p + |UnitBytes(u)| + 16 <= |s|
    ensures var e := p + |UnitBytes(u)|;
      if u.Send? then Act(s, Scan(p)) == Gives(Packet(u.kind, u.payload), Scan(e)) else Step(s, Scan(p)) == Step(s, Scan(e))
  {
    hide HasAt, Step, NextCode, IsPacketCode, IsKind, HeaderBytes, SizeOk, StampsOk;
    match u
    case Send(kind, _, _, _, payload) =>
      HasParts(s, p, [0, 0, 1, kind], HeaderBytes(u) + payload);
      StartRead(s, p, kind);
      StepScan(s, p);
      KindsAre(kind);
      SendRead(s, p, u);
    case Other(code) =>
      StartRead(s, p, code);
      StepScan(s, p);
      KindsAre(code);
    case Bytes(bytes) =>
      BytesPassed(s, p, bytes);
      StepScan(s, p);
      StepScan(s, p + |bytes|);
  }

  lemma SendRead(s: seq<byte>, p: nat, u: Unit)
    requires u.Send? && u.Ok() && HasAt(s, p + 4, HeaderBytes(u) + u.payload) && p + |UnitBytes(u)| + 16 <= |s|
    requires Step(s, Scan(p)) == Step(s, Header(p + 4, u.kind))
    ensures Act(s, Scan(p)) == Gives(Packet(u.kind, u.payload), Scan(p + |UnitBytes(u)|))
  {
    hide Step, Parse, ReadFields, AfterReading, HeaderBytes, IsKind, SizeOk, StampsOk, HasAt;
    FieldsRead(s, p + 4, u);
    HasParts(s, p + 4, HeaderBytes(u), u.payload);
    StepHeader(s, p + 4, u.kind);
    AllThere(s, p + 4 + |HeaderBytes(u)|, u.kind, u.payload);
  }

  lemma AllThere(s: seq<byte>, q: nat, kind: int, payload: seq<byte>)
    requires HasAt(s, q, payload)
    ensures AfterReading(s, kind, Reading(8 * q, |payload|, true)) == Gives(Packet(kind, payload), Scan(q + |payload|))
  {
    assert 8 * q / 8 == q && (8 * (q + |payload|) + 7) / 8 == q + |payload|;
  }

  lemma NoUnits()
    ensures AllOk([]) && Mux([]) == [] && Packets([]) == []
  {
  }

  lemma FirstUnit(units: seq<Unit>)
    requires units != [] && AllOk(units)
    ensures units[0].Ok() && AllOk(units[1..]) && Mux(units) == UnitBytes(units[0]) + Mux(units[1..])
    ensures Packets(units)
         == (if units[0].Send? then [Packet(units[0].kind, units[0].payload)] else []) + Packets(units[1..])
  {
    hide UnitBytes, Unit.Ok;
  }

  /** Whatever is multiplexed comes out, and what follows it comes out after it. */
  lemma {:induction false} StreamRead(s: seq<byte>, p: nat, units: seq<Unit>)
    requires AllOk(units) && HasAt(s, p, Mux(units)) && p + |Mux(units)| + 16 <= |s|
    ensures var r := Run(s, Scan(p + |Mux(units)|));
      Run(s, Scan(p)) == Trace(Packets(units) + r.packets, r.end)
    decreases units
  {
    hide HasAt, Step, Act, Run, UnitBytes, Unit.Ok, Mux, Packets, AllOk;
    NoUnits();
    if units == [] {
      assert [] + Run(s, Scan(p)).packets == Run(s, Scan(p)).packets;
    } else {
      var u, rest := units[0], units[1..];
      FirstUnit(units);
      HasParts(s, p, UnitBytes(u), Mux(rest));
      UnitRead(s, p, u);
      var e := p + |UnitBytes(u)|;
      StreamRead(s, e, rest);
      var r := Run(s, Scan(p + |Mux(units)|)).packets;
      if u.Send? {
        RunIs(s, Scan(p));
        assert [Packet(u.kind, u.payload)] + (Packets(rest) + r) == [Packet(u.kind, u.payload)] + Packets(rest) + r;
      } else {
        WaitsSame(s, Scan(p), Scan(e));
        assert [] + Packets(rest) == Packets(rest);
      }
    }
  }

  /** Sixteen bytes without a start code after the last packet. */
  const TAIL: seq<byte> := [1, 1, 1, 1, 1, 1, 1, 1, 1, 1, 1, 1, 1, 1, 1, 1]

  lemma TailRead(s: seq<byte>, p: nat)
    requires HasAt(s, p, TAIL) && |s| == p + 16
    ensures Run(s, Scan(p)) == Trace([], Waits(Scan(p + 12)))
  {
    hide Step;
    assert 0 !in TAIL[..11];
    assert TAIL == TAIL[..11] + TAIL[11..];
    HasParts(s, p, TAIL[..11], TAIL[11..]);
    BytesPassed(s, p, TAIL[..11]);
    HasByte(s, p, TAIL, 11);
    NextStep(s, p + 11);
    NextStep(s, p + 12);
    StepScan(s, p);
    RunIs(s, Scan(p));
  }

  /** What is multiplexed comes out of the decoder. */
  method Demultiplex(units: seq<Unit>, capacity: nat) returns (packets: seq<Packet>)
    requires AllOk(units) && capacity > 0 && |Mux(units)| + 16 < LIMIT
    ensures packets == Packets(units)
  {
    hide Step, Run, Feed, Mux, Packets, AllOk;
    var s := Mux(units) + TAIL;
    assert HasAt(s, 0, Mux(units)) && HasAt(s, |Mux(units)|, TAIL);
    StreamRead(s, 0, units);
    TailRead(s, |Mux(units)|);
    OnePiece(s);
    packets := Play([s], capacity);
    assert Packets(units) + [] == Packets(units);
  }

  lemma OnePiece(s: seq<byte>)
    ensures Concat([s]) == s && Feed([s]).packets == Run(s, Scan(0)).packets
  {
    hide Run;
    var one: seq<seq<byte>> := [s];
    assert one[..0] == [] && one[0] == s;
    assert Concat(one) == [] + s == s;
    assert Feed(one).packets == [] + Run(s, Scan(0)).packets;
  }
}
