/** The demultiplexer, which picks packets out of what has been written to its buffer and can be
    asked again after more is written. */
module MpegDemux {
  import opened BitStream
  import opened Common
  import opened MsbBits
  import opened MpegBuffer
  import opened MpegSplit
  import opened MpegStream

  // A buffer never comes to hold this much.
  const LIMIT: nat := 0x0400_0000_0000_0000

  class Demux {
    const buffer: Buffer
    var startCode: int
    var currentLength: nat
    var nextType: int
    var nextLength: nat

    ghost predicate Valid()
      reads this, buffer, buffer.bytes
    {
      && buffer.Valid() && |buffer.all| < LIMIT
      && 8 * currentLength + buffer.Pos() <= 8 * |buffer.all|
      && LengthOk(nextLength)
      && (startCode != -1 ==> buffer.Pos() % 8 == 0 && currentLength == 0 && nextLength == 0)
      && (currentLength > 0 ==> nextLength == 0)
    }

    /** Where the machine is; a packet given is skipped only at the next call.  Only after a header that
        is not valid can the position be inside a byte. */
    ghost function Now(): State
      reads `startCode, `currentLength, `nextType, `nextLength, buffer`bitIndex, buffer`gone
    {
      var p := buffer.Pos() / 8 + currentLength;
      var within := buffer.Pos() % 8 != 0;
      if nextLength != 0 then if within then Astray(p, nextType, nextLength) else Payload(p, nextType, nextLength)
      else if startCode != -1 then Header(p, startCode)
      else Scan(if within then p + 1 else p)
    }

    constructor (buffer: Buffer)
      requires buffer.Valid() && |buffer.all| < LIMIT && buffer.Pos() == 0
      ensures Valid() && Now() == Scan(0) && this.buffer == buffer
    {
      this.buffer := buffer;
      startCode, currentLength, nextType, nextLength := -1, 0, 0, 0;
    }

    /** Appends data to the stream. */
    method Write(data: seq<byte>)
      requires Valid() && |buffer.all| + |data| < LIMIT && buffer.mode != FixedMemory
      modifies buffer, buffer.bytes
      ensures Valid() && buffer.all == old(buffer.all) + data && Now() == old(Now())
      ensures buffer.bytes == old(buffer.bytes) || fresh(buffer.bytes)
    {
      hide Buffer.Valid;
      var n := buffer.Write(data);
    }

    /** Takes packets until none is given: all that have arrived, or those before a header that is not
        valid. */
    method Drain() returns (packets: seq<Packet>)
      requires Valid() && Now().pos <= |buffer.all|
      modifies this`startCode, this`currentLength, this`nextType, this`nextLength, buffer`hasEnded, buffer`bitIndex
      ensures Valid()
      ensures var r := Run(buffer.all, old(Now()));
        packets == r.packets && Now() == Rest(r.end)
    {
      hide Step, Act, Run, Buffer.Valid, Now;
      ghost var s, st := buffer.all, Now();
      packets := [];
      var more := true;
      while more
        invariant Valid() && Now().pos <= |s|
        invariant more ==> Run(s, st) == Trace(packets + Run(s, Now()).packets, Run(s, Now()).end)
        invariant !more ==> Run(s, st).packets == packets && Now() == Rest(Run(s, st).end)
        decreases more, |s| - Now().pos, if Now().Payload? then 1 else 0
      {
        ghost var here := Now();
        ActProgress(s, here);
        RunIs(s, here);
        var packet := Decode();
        DidAct(s, here, packet);
        if packet == None {
          more := false;
          assert packets + [] == packets;
        } else {
          assert packets + ([packet.value] + Run(s, Now()).packets) == packets + [packet.value] + Run(s, Now()).packets;
          packets := packets + [packet.value];
        }
      }
    }

    /** Gives the payload of the packet whose header was read, when all of it is there. */
    method GetPacket() returns (packet: Option<Packet>)
      requires Valid() && currentLength == 0 && startCode == -1
      modifies this`currentLength, this`nextLength, buffer`hasEnded
      ensures Valid()
      ensures if old(buffer.Pos()) + 8 * old(nextLength) <= 8 * |buffer.all|
        then nextLength == 0 && currentLength == old(nextLength) && packet.Some?
          && packet.value == Packet(nextType, buffer.all[buffer.Pos() / 8..buffer.Pos() / 8 + currentLength])
        else packet == None && nextLength == old(nextLength) && currentLength == 0
    {
      hide Buffer.Valid, Buffer.Pos;
      buffer.Facts();
      BitsOf(nextLength);
      var bits := (8 * nextLength) % WORD;
      var ok := buffer.Has(bits);
      if !ok {
        return None;
      }
      packet := Some(Packet(nextType, ReadAhead(nextLength)));
      currentLength := nextLength;
      nextLength := 0;
    }

    /** The n bytes that begin in the byte at hand. */
    function ReadAhead(n: nat): (s: seq<byte>)
      requires buffer.Valid() && buffer.Pos() + 8 * n <= 8 * |buffer.all|
      reads buffer, buffer.bytes
      ensures var p := buffer.Pos() / 8;
        p + n <= |buffer.all| && s == buffer.all[p..p + n]
    {
      var at := buffer.bitIndex / 8;
      assert buffer.Pos() / 8 == buffer.gone + at;
      buffer.bytes[at..at + n]
    }

    /** What was done is what the machine does. */
    ghost predicate Did(o: Outcome, packet: Option<Packet>)
      reads `startCode, `currentLength, `nextType, `nextLength, buffer`bitIndex, buffer`gone
    {
      match o
      case Gives(p, st) => packet == Some(p) && Now() == st
      case Waits(st) => packet == None && Now() == st
      case Refused(st) => packet == None && Now() == st
      case Long(done) => !done.Long? && Did(done, packet)
    }

    lemma DidAct(s: seq<byte>, st: State, packet: Option<Packet>)
      requires st.pos <= |s| && Did(Step(s, st), packet)
      ensures var o := Act(s, st);
        && (o.Gives? ==> packet == Some(o.packet) && Now() == o.next)
        && (o.Waits? ==> packet == None && Now() == o.st)
        && (o.Refused? ==> packet == None && Now() == o.next)
    {
      hide Step, Now;
    }

    /** Reads the header of a packet, and gives the packet if it is all there. */
    method DecodePacket(code: int) returns (packet: Option<Packet>)
      requires Valid() && currentLength == 0 && nextLength == 0 && code == startCode != -1
      modifies this`startCode, this`currentLength, this`nextType, this`nextLength, buffer`hasEnded, buffer`bitIndex
      ensures Valid() && Did(Step(buffer.all, Header(old(buffer.Pos()) / 8, code)), packet)
    {
      hide Step, Parse, Buffer.Valid, Buffer.Pos, ReadFields, LengthOk, AfterReading, Did;
      ghost var s, p := buffer.all, buffer.Pos() / 8;
      var ok := buffer.Has(128);
      if !ok {
        StepNoHeader(s, p, code);
        DidWait(Header(p, code));
        return None;
      }
      StepHeader(s, p, code);
      var valid := ReadHeader(code);
      ghost var r := ReadFields(s, p);
      buffer.Facts();
      if valid {
        packet := GetPacket();
      } else {
        packet := None;
      }
      DidRead(code, r, packet);
      DidLong(AfterReading(s, code, r), packet);
    }

    lemma DidWait(st: State)
      requires Now() == st
      ensures Did(Waits(st), None)
    {
    }

    lemma DidLong(o: Outcome, packet: Option<Packet>)
      requires Did(o, packet) && !o.Long?
      ensures Did(Long(o), packet)
    {
    }

    /** After the fields of a header are read. */
    lemma DidRead(code: int, r: Reading, packet: Option<Packet>)
      requires buffer.Valid() && buffer.Pos() == r.end && startCode == -1 && nextType == code
      requires if r.valid && r.end + 8 * r.len <= 8 * |buffer.all|
        then nextLength == 0 && currentLength == r.len && packet.Some?
          && packet.value == Packet(code, buffer.all[r.end / 8..r.end / 8 + r.len])
        else packet == None && nextLength == r.len && currentLength == 0
      ensures var o := AfterReading(buffer.all, code, r);
        !o.Long? && Did(o, packet)
    {
      hide Buffer.Valid, Buffer.Pos;
    }

    /** Gives the next packet, or nothing if what has arrived does not hold all of it. */
    method Decode() returns (packet: Option<Packet>)
      requires Valid()
      modifies this`startCode, this`currentLength, this`nextType, this`nextLength, buffer`hasEnded, buffer`bitIndex
      ensures Valid()
      ensures old(Now()).pos <= |buffer.all| && Did(Step(buffer.all, old(Now())), packet)
    {
      hide Step, Buffer.Valid, NextCode, IsPacketCode, Parse;
      ghost var s, st := buffer.all, Now();
      SkipCurrent();
      buffer.Facts();
      if nextLength != 0 {
        StepPayload(s, st);
        packet := GetPacket();
        return;
      }
      if startCode != -1 {
        packet := DecodePacket(startCode);
        return;
      }
      var found := FindPacket();
      if !found {
        return None;
      }
      packet := DecodePacket(startCode);
    }

    /** Skips the packet given before. */
    method SkipCurrent()
      requires Valid()
      modifies this`currentLength, buffer`hasEnded, buffer`bitIndex
      ensures Valid() && currentLength == 0 && Now() == old(Now())
    {
      hide Buffer.Valid;
      if currentLength != 0 {
        // All of it is there: it was when it was given.
        var here := buffer.Has(8 * currentLength);
        if !here {
          assert false;
        }
        buffer.Skip(8 * currentLength);
        currentLength := 0;
      }
    }

    /** Looks for the start code of a packet. */
    method FindPacket() returns (found: bool)
      requires Valid() && startCode == -1 && currentLength == 0 && nextLength == 0
      modifies this`startCode, buffer`hasEnded, buffer`bitIndex
      ensures Valid() && found == (startCode != -1) && buffer.Pos() % 8 == 0
      ensures var p := (old(buffer.Pos()) + 7) / 8;
        p <= |buffer.all| && Step(buffer.all, Scan(p)) ==
          if found then Step(buffer.all, Header(buffer.Pos() / 8, startCode)) else Waits(Scan(buffer.Pos() / 8))
    {
      hide Step, Buffer.Valid, NextCode, Buffer.Pos, IsPacketCode;
      ghost var s, p := buffer.all, (buffer.Pos() + 7) / 8;
      startCode := buffer.NextStartCode();
      StepScan(s, p);
      ghost var q := NextCode(s, p).1;
      while startCode != -1 && !IsPacketCode(startCode)
        invariant buffer.Valid() && p <= q <= |s| && buffer.Pos() == 8 * q
        invariant Step(s, Scan(p)) == if startCode == -1 then Waits(Scan(q))
          else if IsPacketCode(startCode) then Step(s, Header(q, startCode)) else Step(s, Scan(q))
        decreases |s| - q, startCode != -1
      {
        StepScan(s, q);
        NextFurther(s, q);
        startCode := buffer.NextStartCode();
        q := NextCode(s, q).1;
      }
      found := startCode != -1;
    }

    /** Reads a time stamp: 33 bits in three parts, the first of which is shifted as a 32-bit number. */
    method DecodeTime() returns (clock: int)
      requires buffer.Valid()
      modifies buffer`hasEnded, buffer`bitIndex
      ensures buffer.Valid() && buffer.Pos() == PastTime(buffer.all, old(buffer.Pos()))
      ensures var q, s := old(buffer.Pos()), buffer.all;
        q + 36 <= 8 * |s| ==> clock == Clock(Digits(s, q, 3), Digits(s, q + 4, 15), Digits(s, q + 20, 15))
    {
      hide Digits, Buffer.Valid, Buffer.Pos, ToInt, Past, Peek;
      ghost var s, q := buffer.all, buffer.Pos();
      if q + 36 <= 8 * |s| {
        TimeParts(s, q);
      }
      var high := ReadPart(3);
      clock := ToInt(0x4000_0000 * high);
      var middle := ReadPart(15);
      clock := clock + 0x8000 * middle;
      var low := ReadPart(15);
      clock := clock + low;
    }

    /** Reads n bits and goes past the marker bit after them. */
    method ReadPart(n: nat) returns (v: nat)
      requires buffer.Valid()
      modifies buffer`hasEnded, buffer`bitIndex
      ensures buffer.Valid() && v == Peek(buffer.all, old(buffer.Pos()), n)
      ensures buffer.Pos() == Past(buffer.all, Past(buffer.all, old(buffer.Pos()), n), 1)
    {
      hide Digits, Buffer.Valid, Buffer.Pos;
      v := buffer.Read(n);
      buffer.Skip(1);
    }

    /** Reads the header of a packet up to its payload, if its marker is valid. */
    method ReadHeader(code: int) returns (valid: bool)
      requires Valid() && buffer.Pos() % 8 == 0 && buffer.Pos() / 8 + 16 <= |buffer.all|
      modifies this`startCode, this`nextType, this`nextLength, buffer`hasEnded, buffer`bitIndex
      ensures buffer.Valid() && startCode == -1 && nextType == code && LengthOk(nextLength)
      ensures ReadFields(buffer.all, old(buffer.Pos()) / 8) == Reading(buffer.Pos(), nextLength, valid)
    {
      hide Digits, RunLength, Buffer.Valid, Buffer.Pos, LengthOk, StampSize, Word, Peek, Past, PastStamps;
      ghost var s, p := buffer.all, buffer.Pos() / 8;
      startCode := -1;
      nextType := code;
      var length := ReadLength(p);
      var used: nat;
      ghost var q := buffer.Pos();
      valid, used := ReadStamps();
      LengthWord(length - used);
      nextLength := (length - used) % WORD;
    }

    /** Reads the length, the stuffing and the buffer size of a header at byte p. */
    method ReadLength(ghost p: nat) returns (length: int)
      requires Valid() && buffer.Pos() == 8 * p && p + 16 <= |buffer.all|
      modifies buffer`hasEnded, buffer`bitIndex
      ensures buffer.Valid() && length + LIMIT + 2 >= 0 && length < 0x1_0000
      ensures var s := buffer.all;
        var k := RunLength(s, p + 2, 0xff);
        var q := 8 * (p + 2 + k);
        var sized := Peek(s, q, 2) == 1;
        && length == Word(s[p], s[p + 1]) - k - (if sized then 2 else 0)
        && buffer.Pos() == if sized then Past(s, Past(s, q, 2), 16) else Past(s, q, 2)
    {
      hide Digits, RunLength, Buffer.Valid, Buffer.Pos, LengthOk, Word;
      WordAt(buffer.all, p);
      length := buffer.Read(16);
      var stuffing := buffer.SkipBytes(0xff);
      length := length - stuffing;
      var two := buffer.Read(2);
      if two == 1 {
        buffer.Skip(16);
        length := length - 2;
      }
    }

    /** Reads the marker of the time stamps and past them; used says how many bytes they take. */
    method ReadStamps() returns (valid: bool, used: nat)
      requires buffer.Valid()
      modifies buffer`hasEnded, buffer`bitIndex
      ensures buffer.Valid() && used <= 10
      ensures var s, q := buffer.all, old(buffer.Pos());
        var marker := Peek(s, q, 2);
        && valid == (marker != 1)
        && used == (if valid then StampSize(marker) else 0)
        && buffer.Pos() == if valid then PastStamps(s, Past(s, q, 2), marker) else Past(s, q, 2)
    {
      hide Digits, Buffer.Valid, Buffer.Pos, PastTime;
      TwoBits(buffer.all, buffer.Pos());
      var marker := buffer.Read(2);
      valid, used := true, 0;
      if marker == 3 {
        var _ := DecodeTime();
        buffer.Skip(40);
        used := 10;
      } else if marker == 2 {
        var _ := DecodeTime();
        used := 5;
      } else if marker == 0 {
        buffer.Skip(4);
        used := 1;
      } else {
        valid := false;
      }
    }
  }

  /** The parts of a time stamp, if all of it is there. */
  lemma TimeParts(s: seq<byte>, q: nat)
    requires q + 36 <= 8 * |s|
    ensures Past(s, Past(s, q, 3), 1) == q + 4 && Past(s, Past(s, q + 4, 15), 1) == q + 20
    ensures Peek(s, q, 3) == Digits(s, q, 3) && Peek(s, q + 4, 15) == Digits(s, q + 4, 15)
    ensures Peek(s, q + 20, 15) == Digits(s, q + 20, 15)
  {
    hide Digits;
  }

  /** A number cut to 32 bits with a sign. */
  function ToInt(v: int): (r: int)
    ensures -0x8000_0000 <= r < 0x8000_0000
  {
    (v + 0x8000_0000) % 0x1_0000_0000 - 0x8000_0000
  }

  function Clock(high: nat, middle: nat, low: nat): int {
    ToInt(0x4000_0000 * high) + 0x8000 * middle + low
  }

  /** The clock is the number of 33 bits that the stamp holds just when its first two bits are zero. */
  lemma ClockIs(high: nat, middle: nat, low: nat)
    requires high < 8
    ensures Clock(high, middle, low) == 0x4000_0000 * high + 0x8000 * middle + low <==> high < 2
  {
  }

  /** Data that arrive in any pieces, with packets taken after each until none is given. */
  method Play(chunks: seq<seq<byte>>, capacity: nat) returns (packets: seq<Packet>)
    requires capacity > 0 && |Concat(chunks)| < LIMIT
    ensures packets == Feed(chunks).packets
  {
    hide Step, Run, All, Buffer.Valid, Demux.Now;
    var buffer := new Buffer(capacity, Ring);
    var demux := new Demux(buffer);
    packets := [];
    ConcatEnds(chunks);
    for i := 0 to |chunks|
      invariant demux.Valid() && fresh(demux) && fresh(demux.buffer) && fresh(demux.buffer.bytes)
      invariant demux.buffer.mode == Ring && demux.buffer.all == Concat(chunks[..i])
      invariant Feed(chunks[..i]) == Fed(packets, demux.Now())
    {
      assert chunks[..i + 1][..i] == chunks[..i];
      ghost var rest := ConcatSplit(chunks, i + 1);
      demux.Write(chunks[i]);
      var more := demux.Drain();
      packets := packets + more;
    }
    assert chunks[..|chunks|] == chunks;
  }

  // ---------------------------------------------------------------------------------------
  // A header that is not valid, and then bytes that pass for a payload

  const STRAY: seq<byte> := [0, 0, 1, 0xE0, 0, 13, 0x10, 7, 7, 7, 7, 7, 7, 7, 7, 7, 7, 7, 7, 7]

  lemma StrayParse(s: seq<byte>)
    requires s == STRAY
    ensures Step(s, Scan(0)) == Refused(Astray(6, VIDEO_1, 13))
    ensures Step(s, Astray(6, VIDEO_1, 13)) == Gives(Packet(VIDEO_1, s[6..19]), Scan(20))
    ensures Step(s, Scan(20)) == Waits(Scan(20))
  {
    hide RunLength;
    assert NextCode(s, 0) == (VIDEO_1, 4) by {
      NextStep(s, 0);
    }
    var h := s[4..20];
    RunStep(h, 2, 0xff);
    assert RunLength(h, 2, 0xff) == 0;
    assert h[0] == 0 && h[1] == 13 && h[2] == 0x10;
    assert Parse(h) == Invalid(2, 13);
    assert Step(s, Header(4, VIDEO_1)) == Refused(Astray(6, VIDEO_1, 13));
    NextStep(s, 20);
  }

  lemma StrayRuns(s: seq<byte>)
    requires s == STRAY
    ensures Run(s, Scan(0)) == Trace([], Refused(Astray(6, VIDEO_1, 13)))
    ensures Run(s, Astray(6, VIDEO_1, 13)) == Trace([Packet(VIDEO_1, s[6..19])], Waits(Scan(20)))
    ensures All(s, Scan(0)) == Trace([Packet(VIDEO_1, s[6..19])], Waits(Scan(20)))
  {
    hide Step, Run, All, Fits;
    StrayParse(s);
    assert |s| == 20;
    RunIs(s, Scan(0));
    RunIs(s, Astray(6, VIDEO_1, 13));
    RunIs(s, Scan(20));
    AllIs(s, Scan(0));
    AllIs(s, Astray(6, VIDEO_1, 13));
    AllIs(s, Scan(20));
  }

  lemma StrayFeeds(s: seq<byte>)
    requires s == STRAY
    ensures Concat([s]) == Concat([s, []]) == s
    ensures Feed([s]) == Fed([], Astray(6, VIDEO_1, 13))
    ensures Feed([s, []]) == Fed([Packet(VIDEO_1, s[6..19])], Scan(20))
  {
    hide Run, STRAY;
    StrayRuns(s);
    var one, two: seq<seq<byte>> := [s], [s, []];
    assert one[..0] == [] && one[0] == s;
    assert two[..1] == one && two[1] == [];
    assert Concat(one) == [] + s == s;
    assert Concat(two) == s + [] == s;
  }

  /** The same bytes, once in one piece and once with nothing written after it. */
  method PlayTwice(capacity: nat) returns (whole: seq<Packet>, parts: seq<Packet>)
    requires capacity > 0
    ensures whole == [] && parts == [Packet(VIDEO_1, STRAY[6..19])]
  {
    hide Run, All, Feed, Concat;
    StrayRuns(STRAY);
    StrayFeeds(STRAY);
    whole := Play([STRAY], capacity);
    parts := Play([STRAY, []], capacity);
  }

  // ---------------------------------------------------------------------------------------
  // A header that goes on after sixteen bytes

  lemma {:induction false} RunOf(s: seq<byte>, p: nat, n: nat, v: byte)
    requires p + n <= |s| && (p + n == |s| || s[p + n] != v) && forall i | p <= i < p + n :: s[i] == v
    ensures RunLength(s, p, v) == n
    decreases n
  {
    if n == 0 {
    } else {
      RunOf(s, p + 1, n - 1, v);
    }
  }

  /** A start code, a length of 32 and fourteen bytes of stuffing. */
  predicate Stuffed(s: seq<byte>) {
    && |s| >= 20 && s[0] == 0 && s[1] == 0 && s[2] == 1 && s[3] == 0xE0 && s[4] == 0 && s[5] == 32
    && forall i | 6 <= i < 20 :: s[i] == 0xff
  }

  /** All fields of the header at byte p are there. */
  predicate HeaderThere(s: seq<byte>, p: nat)
    requires p + 2 <= |s|
  {
    var i := p + 2 + RunLength(s, p + 2, 0xff);
    var j := if i < |s| && Digits(s, 8 * i, 2) == 1 then i + 2 else i;
    var marker := Peek(s, 8 * j + 2, 2);
    i < |s| && j < |s| && (marker == 1 || j + StampSize(marker) <= |s|)
  }

  /** Where reading a header ends whose fields are all there. */
  lemma ReadThere(s: seq<byte>, p: nat)
    requires p + 2 <= |s| && HeaderThere(s, p)
    ensures var i := p + 2 + RunLength(s, p + 2, 0xff);
      var j := if Digits(s, 8 * i, 2) == 1 then i + 2 else i;
      var marker := Digits(s, 8 * j + 2, 2);
      ReadFields(s, p).end == (if marker == 1 then 8 * j + 4 else 8 * (j + StampSize(marker)))
        && ReadFields(s, p).valid == (marker != 1)
  {
    hide Digits, RunLength, Word, StampSize, PastStamps;
  }

  lemma {:induction false} RunAtLeast(s: seq<byte>, p: nat, n: nat, v: byte)
    requires p + n <= |s| && forall i | p <= i < p + n :: s[i] == v
    ensures RunLength(s, p, v) >= n
    decreases n
  {
    if n == 0 {
    } else {
      RunAtLeast(s, p + 1, n - 1, v);
    }
  }

  lemma {:induction false} RunAll(s: seq<byte>, p: nat, v: byte)
    requires p <= |s|
    ensures forall i | p <= i < p + RunLength(s, p, v) :: s[i] == v
    decreases |s| - p
  {
    if p == |s| || s[p] != v {
    } else {
      RunAll(s, p + 1, v);
    }
  }

  /** Reading a header that goes on after sixteen bytes ends after them, if all of it is there. */
  lemma LongEnds(s: seq<byte>, p: nat)
    requires p + 16 <= |s| && Parse(s[p..p + 16]).TooLong? && HeaderThere(s, p)
    ensures ReadFields(s, p).end > 8 * (p + 16)
  {
    hide Digits, RunLength, ReadFields, Word;
    ReadThere(s, p);
    var h := s[p..p + 16];
    var i := 2 + RunLength(h, 2, 0xff);
    if i == 16 {
      RunAll(h, 2, 0xff);
      forall m | p + 2 <= m < p + 16
        ensures s[m] == 0xff
      {
        assert h[m - p] == s[m];
      }
      RunAtLeast(s, p + 2, 14, 0xff);
    } else {
      RunWithin(s, p, 16, 2, 0xff);
      assert h[i] == s[p + i];
      TwoBitsAt(s, p + i);
      var j := if 64 <= h[i] < 128 then i + 2 else i;
      if j < 16 {
        assert h[j] == s[p + j];
        TwoBitsAt(s, p + j);
      }
    }
  }

  /** A header that goes on after sixteen bytes is read in one way when a call comes after the sixteenth, and in
      another when it comes after all of it: in the first case what follows is taken to begin earlier. */
  lemma LongSplits(s: seq<byte>, t: seq<byte>, p: nat, code: int)
    requires |s| == p + 16 && Parse(s[p..]).TooLong? && HeaderThere(s + t, p)
    ensures Step(s, Header(p, code)) == Long(AfterReading(s, code, ReadFields(s, p)))
    ensures Step(s + t, Header(p, code)) == Long(AfterReading(s + t, code, ReadFields(s + t, p)))
    ensures ReadFields(s, p).end <= 8 * |s| < ReadFields(s + t, p).end
  {
    hide *;
    SixteenBytes(s, t, p);
    StepHeader(s, p, code);
    StepHeader(s + t, p, code);
    LongEnds(s + t, p);
  }

  lemma SixteenBytes(s: seq<byte>, t: seq<byte>, p: nat)
    requires |s| == p + 16
    ensures s[p..p + 16] == s[p..] == (s + t)[p..p + 16] && p + 16 <= |s + t|
  {
  }

  lemma StuffedIsLong(s: seq<byte>, end: nat)
    requires Stuffed(s) && (|s| == 20 || (|s| >= 21 && s[20] < 16)) && end == 8 * 20 + if |s| == 20 then 0 else 8
    ensures Step(s, Scan(0)) == Long(AfterReading(s, VIDEO_1, Reading(end, 17, true)))
  {
    hide RunLength, Digits, AfterReading;
    NextStep(s, 0);
    var h := s[4..20];
    RunIs14(h, s);
    if |s| > 20 {
      TwoBitsAt(s, 20);
    }
    assert Parse(h).TooLong?;
    assert ReadFields(s, 4) == Reading(end, 17, true);
  }

  lemma RunIs14(h: seq<byte>, s: seq<byte>)
    requires Stuffed(s) && h == s[4..20] && (|s| == 20 || s[20] != 0xff)
    ensures RunLength(h, 2, 0xff) == 14 && RunLength(s, 6, 0xff) == 14
  {
    RunOf(h, 2, 14, 0xff);
    RunOf(s, 6, 14, 0xff);
  }

  /** The packet of such a stream, when it arrives in two pieces and in one. */
  lemma StuffedRuns(s: seq<byte>, t: seq<byte>)
    requires Stuffed(s) && |s| == 20 && |t| == 18 && t[0] < 16
    ensures Run(s, Scan(0)) == Trace([], Waits(Payload(20, VIDEO_1, 17)))
    ensures Run(s + t, Payload(20, VIDEO_1, 17)) == Trace([Packet(VIDEO_1, (s + t)[20..37])], Waits(Scan(37)))
    ensures Run(s + t, Scan(0)) == Trace([Packet(VIDEO_1, (s + t)[21..38])], Waits(Scan(38)))
  {
    hide Step, Run, AfterReading, Stuffed;
    var u := s + t;
    StuffedBoth(s, t);
    StuffedIsLong(s, 160);
    StuffedIsLong(u, 168);
    AfterStuffed(s, u);
    RunIs(s, Scan(0));
    StepPayload(u, Payload(20, VIDEO_1, 17));
    RunIs(u, Payload(20, VIDEO_1, 17));
    RunIs(u, Scan(0));
    TooFew(u, 37);
    RunIs(u, Scan(37));
    TooFew(u, 38);
    RunIs(u, Scan(38));
  }

  lemma TooFew(s: seq<byte>, p: nat)
    requires p <= |s| < p + 5
    ensures Step(s, Scan(p)) == Waits(Scan(p))
  {
    NextStep(s, p);
  }

  lemma StuffedBoth(s: seq<byte>, t: seq<byte>)
    requires Stuffed(s) && |s| == 20 && |t| >= 18
    ensures Stuffed(s + t) && (s + t)[20] == t[0]
  {
  }

  lemma AfterStuffed(s: seq<byte>, u: seq<byte>)
    requires |s| == 20 && |u| >= 38
    ensures AfterReading(s, VIDEO_1, Reading(160, 17, true)) == Waits(Payload(20, VIDEO_1, 17))
    ensures AfterReading(u, VIDEO_1, Reading(168, 17, true)) == Gives(Packet(VIDEO_1, u[21..38]), Scan(38))
  {
  }

  lemma StuffedFeeds(s: seq<byte>, t: seq<byte>)
    requires Stuffed(s) && |s| == 20 && |t| == 18 && t[0] < 16
    ensures |Concat([s, t])| == |Concat([s + t])| == 38
    ensures Feed([s, t]).packets == [Packet(VIDEO_1, (s + t)[20..37])]
    ensures Feed([s + t]).packets == [Packet(VIDEO_1, (s + t)[21..38])]
  {
    hide Run, Stuffed;
    StuffedRuns(s, t);
    var one, first, two: seq<seq<byte>> := [s + t], [s], [s, t];
    assert one[..0] == [] && one[0] == s + t;
    assert Concat(one) == [] + (s + t) == s + t;
    assert first[..0] == [] && first[0] == s;
    assert Concat(first) == [] + s == s;
    assert Feed(first) == Fed([], Payload(20, VIDEO_1, 17));
    assert two[..1] == first && two[1] == t;
    assert Concat(two) == s + t;
    assert Feed(two).packets == [] + Run(s + t, Payload(20, VIDEO_1, 17)).packets;
  }

  /** The same bytes, once in two pieces and once in one. */
  method PlayLong(s: seq<byte>, t: seq<byte>, capacity: nat) returns (pieces: seq<Packet>, whole: seq<Packet>)
    requires Stuffed(s) && |s| == 20 && |t| == 18 && t[0] < 16 && capacity > 0
    ensures pieces == [Packet(VIDEO_1, (s + t)[20..37])] && whole == [Packet(VIDEO_1, (s + t)[21..38])]
  {
    hide Run, Feed, Concat, Stuffed;
    StuffedFeeds(s, t);
    pieces := Play([s, t], capacity);
    whole := Play([s + t], capacity);
  }

  /** The bits of a length taken below zero are still more than there can be. */
  lemma BitsOf(n: nat)
    requires LengthOk(n)
    ensures n < 0x1_0000 ==> (8 * n) % WORD == 8 * n
    ensures n >= 0x1_0000 ==> (8 * n) % WORD >= 8 * LIMIT
  {
    if n >= 0x1_0000 {
      assert 8 * n - 7 * WORD == (8 * n) % WORD;
    }
  }

  lemma StepScan(s: seq<byte>, p: nat)
    requires p <= |s|
    ensures var n := NextCode(s, p);
      Step(s, Scan(p)) == if n.0 == -1 then Waits(Scan(n.1))
        else if IsPacketCode(n.0) then Step(s, Header(n.1, n.0)) else Step(s, Scan(n.1))
  {
  }

  lemma LengthWord(n: int)
    requires -2 * LIMIT <= n < 0x1_0000
    ensures 0 <= n % WORD && LengthOk(n % WORD)
  {
    assert n % WORD == if n >= 0 then n else n + WORD;
  }

  /** A length is a small number, or one taken below zero. */
  predicate LengthOk(n: nat) {
    n < 0x1_0000 || WORD - 2 * LIMIT <= n < WORD
  }
}
