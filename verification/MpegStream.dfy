/** The packets of an MPEG system stream (section 2.4.3.3 of ISO/IEC 11172-1), as a machine over
    the bytes that have arrived. */
module MpegStream {
  import opened BitStream
  import opened MsbBits
  import opened MpegBuffer

  const PRIVATE: int := 0xBD
  const AUDIO_1: int := 0xC0
  const AUDIO_4: int := 0xC3
  const VIDEO_1: int := 0xE0

  // Lengths are unsigned words.
  const WORD: nat := 0x1_0000_0000_0000_0000

  /** Lengths are words of 64 bits. */
  lemma WordIs()
    ensures WORD == Pow2(64)
  {
    hide Pow2;
    WordSizes();
    ShiftPow2(32, 32);
    ShiftedWord(0x1_0000_0000, 0);
    ShiftedWord(0x1_0000_0000, 8);
    ShiftedWord(0x1_0000_0000, 16);
    ShiftedWord(0x1_0000_0000, 24);
    FewLeft(0x1_0000_0000);
  }

  lemma ShiftedWord(v: nat, n: nat)
    ensures ShiftLeft(v, n + 8) == 256 * ShiftLeft(v, n)
  {
    ShiftLeftNext(v, n);
    ShiftLeftNext(v, n + 1);
    ShiftLeftNext(v, n + 2);
    ShiftLeftNext(v, n + 3);
    ShiftLeftNext(v, n + 4);
    ShiftLeftNext(v, n + 5);
    ShiftLeftNext(v, n + 6);
    ShiftLeftNext(v, n + 7);
  }

  datatype Packet = Packet(kind: int, payload: seq<byte>)

  /** What comes next: a start code, the header of a packet, or its payload.  A reader that is astray
      stands inside byte pos, after a header that is not valid, and takes what follows for a payload. */
  datatype State = Scan(pos: nat) | Header(pos: nat, code: int) | Payload(pos: nat, kind: int, len: nat)
                 | Astray(pos: nat, kind: int, len: nat)

  /** What a step does.  Of a header that goes on after sixteen bytes it is said what reading it gives, which
      depends on how much of it has arrived. */
  datatype Outcome = Waits(st: State) | Gives(packet: Packet, next: State) | Refused(next: State) | Long(done: Outcome)

  datatype Parsed = Info(size: nat, len: nat) | Invalid(at: nat, len: nat) | TooLong

  predicate IsPacketCode(code: int) {
    code == VIDEO_1 || code == PRIVATE || AUDIO_1 <= code <= AUDIO_4
  }

  /** The size of the time stamps by their marker. */
  function StampSize(marker: nat): nat {
    if marker == 3 then 10 else if marker == 2 then 5 else 1
  }

  /** The header after a start code: its length field, stuffing bytes, the buffer size and the
      time stamps.  It is looked at only as far as sixteen bytes.  Of one that is not valid the place
      of the marker and the length so far are kept. */
  function Parse(h: seq<byte>): Parsed
    requires |h| == 16
  {
    var i := 2 + RunLength(h, 2, 0xff);
    if i >= 16 then TooLong
    else
      var j := if 64 <= h[i] < 128 then i + 2 else i;
      if j >= 16 then TooLong
      else
        var marker := (h[j] / 16) % 4;
        var end := j + StampSize(marker);
        if marker == 1 then Invalid(j, (Word(h[0], h[1]) - (j - 2)) % WORD)
        else if end > 16 then TooLong
        else Info(end, (Word(h[0], h[1]) - (end - 2)) % WORD)
  }

  function Word(high: int, low: int): int {
    256 * high + low
  }

  // ---------------------------------------------------------------------------------------
  // A header as it is read

  /** The n bits at bit q, or zero without them, and where reading them leads. */
  function Peek(s: seq<byte>, q: nat, n: nat): nat {
    if q + n <= 8 * |s| then Digits(s, q, n) else 0
  }

  function Past(s: seq<byte>, q: nat, n: nat): (r: nat)
    ensures q <= r <= q + n && (q <= 8 * |s| ==> r <= 8 * |s|)
  {
    if q + n <= 8 * |s| then q + n else q
  }

  function PastTime(s: seq<byte>, q: nat): (r: nat)
    ensures q <= r && (q <= 8 * |s| ==> r <= 8 * |s|)
    ensures q + 36 <= 8 * |s| ==> r == q + 36
  {
    Past(s, Past(s, Past(s, Past(s, Past(s, Past(s, q, 3), 1), 15), 1), 15), 1)
  }

  function PastStamps(s: seq<byte>, q: nat, marker: nat): (r: nat)
    ensures q <= r && (q <= 8 * |s| ==> r <= 8 * |s|)
    ensures q + 8 * StampSize(marker) <= 8 * |s| + 4 ==> r + 4 == q + 8 * StampSize(marker)
  {
    if marker == 3 then Past(s, PastTime(s, q), 40) else if marker == 2 then PastTime(s, q) else Past(s, q, 4)
  }

  /** Where reading a header ends, the length it leaves, and whether its marker is valid. */
  datatype Reading = Reading(end: nat, len: nat, valid: bool)

  function ReadFields(s: seq<byte>, p: nat): (r: Reading)
    requires p + 2 <= |s|
    ensures 8 * (p + 2) <= r.end <= 8 * |s|
  {
    var k := RunLength(s, p + 2, 0xff);
    var q0 := 8 * (p + 2 + k);
    var q1 := Past(s, q0, 2);
    var sized := Peek(s, q0, 2) == 1;
    var q2 := if sized then Past(s, q1, 16) else q1;
    var length := Word(s[p], s[p + 1]) - k - if sized then 2 else 0;
    var marker := Peek(s, q2, 2);
    var q3 := Past(s, q2, 2);
    if marker == 1 then Reading(q3, length % WORD, false)
    else Reading(PastStamps(s, q3, marker), (length - StampSize(marker)) % WORD, true)
  }

  function StandsAt(q: nat, code: int, len: nat): State {
    if len == 0 then Scan((q + 7) / 8) else if q % 8 == 0 then Payload(q / 8, code, len) else Astray(q / 8, code, len)
  }

  /** What follows a header that was read. */
  function AfterReading(s: seq<byte>, code: int, r: Reading): Outcome {
    if !r.valid then Refused(StandsAt(r.end, code, r.len))
    else if r.end + 8 * r.len > 8 * |s| then Waits(StandsAt(r.end, code, r.len))
    else Gives(Packet(code, s[r.end / 8..r.end / 8 + r.len]), StandsAt(r.end + 8 * r.len, code, 0))
  }

  /** What the machine does with the bytes s: it gives a packet or waits for more. */
  function Step(s: seq<byte>, st: State): Outcome
    requires st.pos <= |s|
    decreases |s| - st.pos, if st.Scan? || st.Header? then 1 else 0
  {
    match st
    case Scan(p) =>
      var n := NextCode(s, p);
      NextFurther(s, p);
      if n.0 == -1 then Waits(Scan(n.1))
      else if IsPacketCode(n.0) then Step(s, Header(n.1, n.0))
      else Step(s, Scan(n.1))
    case Header(p, code) =>
      if p + 16 > |s| then Waits(st)
      else
        var parsed := Parse(s[p..p + 16]);
        ParsedSize(s[p..p + 16]);
        if parsed.Invalid? then Refused(AfterInvalid(p + parsed.at, code, parsed.len))
        else if parsed.TooLong? then Long(AfterReading(s, code, ReadFields(s, p)))
        else Step(s, Payload(p + parsed.size, code, parsed.len))
    case Payload(p, kind, len) =>
      if p + len > |s| then Waits(st) else Gives(Packet(kind, s[p..p + len]), Scan(p + len))
    case Astray(p, kind, len) =>
      if p + len + 1 > |s| then Waits(st) else Gives(Packet(kind, s[p..p + len]), Scan(p + len + 1))
  }

  /** Where a header that is not valid leaves the reader: inside the byte with the marker. */
  function AfterInvalid(p: nat, code: int, len: nat): State {
    if len == 0 then Scan(p + 1) else Astray(p, code, len)
  }

  // ---------------------------------------------------------------------------------------
  // More bytes

  lemma {:induction false} MoreCodes(s: seq<byte>, t: seq<byte>, p: nat)
    requires p <= |s|
    ensures NextCode(s, p).0 != -1 ==> NextCode(s + t, p) == NextCode(s, p)
    ensures NextCode(s, p).0 == -1 ==> NextCode(s + t, p) == NextCode(s + t, NextCode(s, p).1)
    decreases |s| - p
  {
    if p + 5 > |s| || StartAt(s, p) {
    } else {
      MoreCodes(s, t, p + 1);
    }
  }

  lemma SameSlice(s: seq<byte>, t: seq<byte>, p: nat, n: nat)
    requires p + n <= |s|
    ensures (s + t)[p..p + n] == s[p..p + n]
  {
  }

  /** What more bytes do: a machine that waits goes on from where it waits, and what was decided stays. */
  ghost predicate GoesOn(s: seq<byte>, t: seq<byte>, st: State, before: Outcome)
    requires st.pos <= |s|
  {
    match before
    case Waits(st') => st'.pos <= |s| && Step(s + t, st) == Step(s + t, st')
    case Long(_) => Step(s + t, st).Long?
    case other => Step(s + t, st) == other
  }

  lemma MorePayload(s: seq<byte>, t: seq<byte>, st: State)
    requires st.pos <= |s| && (st.Payload? || st.Astray?)
    ensures GoesOn(s, t, st, Step(s, st))
  {
    if st.pos + st.len <= |s| {
      SameSlice(s, t, st.pos, st.len);
    }
  }

  lemma HeaderStep(s: seq<byte>, p: nat, code: int, h: seq<byte>)
    requires p + 16 <= |s| && h == s[p..p + 16]
    ensures Parse(h).Info? ==>
      3 <= Parse(h).size <= 16 && Step(s, Header(p, code)) == Step(s, Payload(p + Parse(h).size, code, Parse(h).len))
    ensures Parse(h).Invalid? ==> Step(s, Header(p, code)) == Refused(AfterInvalid(p + Parse(h).at, code, Parse(h).len))
    ensures Parse(h).TooLong? ==> Step(s, Header(p, code)).Long?
  {
    hide Parse, AfterInvalid, ReadFields, AfterReading;
    ParsedSize(h);
  }

  lemma Decided(s: seq<byte>, t: seq<byte>, st: State)
    requires st.pos <= |s| && !Step(s, st).Waits?
    ensures Step(s + t, st) == Step(s, st) || (Step(s, st).Long? && Step(s + t, st).Long?) ==> GoesOn(s, t, st, Step(s, st))
  {
    hide Step;
  }

  lemma MoreHeader(s: seq<byte>, t: seq<byte>, p: nat, code: int)
    requires p <= |s|
    ensures GoesOn(s, t, Header(p, code), Step(s, Header(p, code)))
  {
    hide *;
    if p + 16 <= |s| {
      var h := s[p..p + 16];
      SameSlice(s, t, p, 16);
      HeaderStep(s, p, code, h);
      HeaderStep(s + t, p, code, h);
      if Parse(h).Info? {
        var next := Payload(p + Parse(h).size, code, Parse(h).len);
        MorePayload(s, t, next);
        SameGoesOn(s, t, Header(p, code), next);
      } else {
        Decided(s, t, Header(p, code));
      }
    } else {
      StepNoHeader(s, p, code);
      Undecided(s, t, Header(p, code));
    }
  }

  lemma Undecided(s: seq<byte>, t: seq<byte>, st: State)
    requires st.pos <= |s| && Step(s, st) == Waits(st)
    ensures GoesOn(s, t, st, Step(s, st))
  {
    hide Step;
  }

  /** More bytes change nothing about what was decided. */
  lemma {:induction false} MoreBytes(s: seq<byte>, t: seq<byte>, st: State)
    requires st.pos <= |s|
    ensures GoesOn(s, t, st, Step(s, st))
    decreases |s| - st.pos, if st.Scan? || st.Header? then 1 else 0
  {
    hide NextCode, IsPacketCode;
    match st
    case Scan(p) =>
      hide GoesOn;
      var n := NextCode(s, p);
      NextFurther(s, p);
      MoreCodes(s, t, p);
      if n.0 == -1 {
        ScanGoesOn(s, t, p);
      } else {
        var next := if IsPacketCode(n.0) then Header(n.1, n.0) else Scan(n.1);
        if next.Header? {
          MoreHeader(s, t, n.1, n.0);
        } else {
          MoreBytes(s, t, next);
        }
        SameGoesOn(s, t, st, next);
      }
    case Header(p, code) => MoreHeader(s, t, p, code);
    case Payload(p, kind, len) => MorePayload(s, t, st);
    case Astray(p, kind, len) => MorePayload(s, t, st);
  }

  lemma ScanGoesOn(s: seq<byte>, t: seq<byte>, p: nat)
    requires p <= |s| && NextCode(s, p).0 == -1
    requires NextCode(s + t, p) == NextCode(s + t, NextCode(s, p).1)
    ensures GoesOn(s, t, Scan(p), Step(s, Scan(p)))
  {
    hide NextCode, IsPacketCode;
    NextFurther(s + t, p);
  }

  /** Two states from which the same is done. */
  lemma SameGoesOn(s: seq<byte>, t: seq<byte>, st: State, next: State)
    requires st.pos <= |s| && next.pos <= |s| && Step(s, st) == Step(s, next) && Step(s + t, st) == Step(s + t, next)
    requires GoesOn(s, t, next, Step(s, next))
    ensures GoesOn(s, t, st, Step(s, st))
  {
    hide Step;
  }

  lemma ParsedSize(h: seq<byte>)
    requires |h| == 16
    ensures Parse(h).Info? ==> 3 <= Parse(h).size <= 16
    ensures Parse(h).Invalid? ==> 2 <= Parse(h).at < 16
  {
  }

  // ---------------------------------------------------------------------------------------
  // The header by its bits

  lemma {:induction false} RunWithin(s: seq<byte>, p: nat, n: nat, k: nat, v: byte)
    requires p + n <= |s| && k <= n && k + RunLength(s[p..p + n], k, v) < n
    ensures RunLength(s, p + k, v) == RunLength(s[p..p + n], k, v)
    decreases n - k
  {
    if k == n || s[p + k] != v {
    } else {
      RunWithin(s, p, n, k + 1, v);
    }
  }

  lemma TwoBitsAt(s: seq<byte>, a: nat)
    requires a < |s|
    ensures Digits(s, 8 * a, 2) == s[a] / 64 && Digits(s, 8 * a + 2, 2) == (s[a] / 16) % 4
  {
    hide Digits;
    var b: nat := s[a];
    DigitsInPiece(s, 8 * a, 2);
    DigitsInPiece(s, 8 * a + 2, 2);
    Quarters(b);
  }

  lemma Quarters(b: nat)
    requires b < 256
    ensures LowBits(ShiftRight(b, 6), 2) == b / 64 && LowBits(ShiftRight(b, 4), 2) == (b / 16) % 4
  {
    var b1 := b / 2;
    var b2 := b1 / 2;
    var b3 := b2 / 2;
    var b4 := b3 / 2;
    var b5 := b4 / 2;
    var d := b5 / 2;
    ShiftRightStep(b, 0);
    ShiftRightStep(b, 1);
    ShiftRightStep(b, 2);
    ShiftRightStep(b, 3);
    ShiftRightStep(b, 4);
    ShiftRightStep(b, 5);
    assert ShiftRight(b, 0) == b;
    assert b4 == b / 16 && d == b / 64 && d < 4;
    LowTwo(d);
    LowTwo(b4);
  }

  lemma LowTwo(v: nat)
    ensures LowBits(v, 2) == v % 4
  {
    var h := v / 2;
    assert LowBits(v, 2) == v % 2 + 2 * LowBits(h, 1);
    assert LowBits(h, 1) == h % 2 + 2 * LowBits(h / 2, 0);
  }

  lemma WordAt(s: seq<byte>, p: nat)
    requires p + 2 <= |s|
    ensures Digits(s, 8 * p, 16) == Word(s[p], s[p + 1]) < 0x1_0000
  {
    hide Digits;
    DigitsInByte(s, p, 8);
    DigitsInByte(s, p + 1, 8);
    DigitsSplit(s, 8 * p, 8, 8);
    FewLeft(s[p]);
  }

  /** The fields of a header as the decoder reads them. */
  lemma HeaderFields(s: seq<byte>, p: nat)
    requires p + 16 <= |s| && !Parse(s[p..p + 16]).TooLong?
    ensures var i := p + 2 + RunLength(s, p + 2, 0xff);
      var j := if Digits(s, 8 * i, 2) == 1 then i + 2 else i;
      var marker := Digits(s, 8 * j + 2, 2);
      var end: nat := if marker == 1 then 0 else j + StampSize(marker) - p;
      var info := Info(end, (Word(s[p], s[p + 1]) - (end - 2)) % WORD);
      && j < p + 16 && marker < 4
      && (marker == 1 ==>
            j >= p + 2 && Parse(s[p..p + 16]) == Invalid(j - p, (Word(s[p], s[p + 1]) - (j - p - 2)) % WORD))
      && (marker != 1 ==> end <= 16 && Parse(s[p..p + 16]) == info)
  {
    hide Digits, RunLength;
    var h := s[p..p + 16];
    var k := RunLength(h, 2, 0xff);
    RunWithin(s, p, 16, 2, 0xff);
    var i := p + 2 + k;
    assert h[2 + k] == s[i];
    TwoBitsAt(s, i);
    var j := if 64 <= s[i] < 128 then i + 2 else i;
    assert h[j - p] == s[j];
    TwoBitsAt(s, j);
  }

  lemma TwoBits(s: seq<byte>, q: nat)
    ensures Peek(s, q, 2) < 4
  {
    assert Digits(s, q, 2) == 2 * Digits(s, q, 1) + BitAt(s, q + 1);
    assert Digits(s, q, 1) == 2 * Digits(s, q, 0) + BitAt(s, q);
  }

  /** A header of at most sixteen bytes is read as what it says. */
  lemma ReadAsParsed(s: seq<byte>, p: nat)
    requires p + 16 <= |s| && !Parse(s[p..p + 16]).TooLong?
    ensures var h := Parse(s[p..p + 16]);
      ReadFields(s, p) ==
        if h.Info? then Reading(8 * (p + h.size), h.len, true) else Reading(8 * (p + h.at) + 4, h.len, false)
  {
    hide Digits, RunLength, Word, Parse, PastStamps;
    HeaderFields(s, p);
    var k := RunLength(s, p + 2, 0xff);
    var i := p + 2 + k;
    var j := if Digits(s, 8 * i, 2) == 1 then i + 2 else i;
    assert j < p + 16;
    var marker := Digits(s, 8 * j + 2, 2);
    assert Peek(s, 8 * i, 2) == Digits(s, 8 * i, 2) && Past(s, 8 * i, 2) == 8 * i + 2;
  }

  lemma StepNoHeader(s: seq<byte>, p: nat, code: int)
    requires p <= |s| < p + 16
    ensures Step(s, Header(p, code)) == Waits(Header(p, code))
  {
  }

  lemma StepPayload(s: seq<byte>, st: State)
    requires st.pos <= |s| && (st.Payload? || st.Astray?)
    ensures var end := st.pos + st.len + if st.Astray? then 1 else 0;
      Step(s, st) ==
        if end > |s| then Waits(st) else Gives(Packet(st.kind, s[st.pos..st.pos + st.len]), Scan(end))
  {
  }

  /** What a header leads to is told by reading it, however long it is. */
  lemma StepHeader(s: seq<byte>, p: nat, code: int)
    requires p + 16 <= |s|
    ensures var after := AfterReading(s, code, ReadFields(s, p));
      Step(s, Header(p, code)) == if Parse(s[p..p + 16]).TooLong? then Long(after) else after
  {
    hide Step, Parse, ReadFields, AfterReading;
    var h := s[p..p + 16];
    if Parse(h).TooLong? {
      LongStep(s, p, code, h);
    } else {
      ShortStep(s, p, code, h);
    }
  }

  lemma ShortStep(s: seq<byte>, p: nat, code: int, h: seq<byte>)
    requires p + 16 <= |s| && h == s[p..p + 16] && !Parse(h).TooLong?
    ensures Step(s, Header(p, code)) == AfterReading(s, code, ReadFields(s, p))
  {
    hide Step, Parse, ReadFields;
    HeaderStep(s, p, code, h);
    ReadAsParsed(s, p);
    if Parse(h).Info? {
      StepPayload(s, Payload(p + Parse(h).size, code, Parse(h).len));
    }
  }

  lemma LongStep(s: seq<byte>, p: nat, code: int, h: seq<byte>)
    requires p + 16 <= |s| && h == s[p..p + 16] && Parse(h).TooLong?
    ensures Step(s, Header(p, code)) == Long(AfterReading(s, code, ReadFields(s, p)))
  {
    hide Parse, ReadFields, AfterReading;
  }

  // ---------------------------------------------------------------------------------------
  // All packets

  lemma {:induction false} Progress(s: seq<byte>, st: State)
    requires st.pos <= |s|
    ensures Step(s, st).Gives? ==> Step(s, st).next.Scan? && st.pos <= Step(s, st).next.pos <= |s|
    ensures Step(s, st).Gives? && !st.Payload? ==> st.pos < Step(s, st).next.pos
    ensures Step(s, st).Refused? ==> st.pos < Step(s, st).next.pos <= |s|
    ensures Step(s, st).Waits? ==> st.pos <= Step(s, st).st.pos <= |s|
    decreases |s| - st.pos, if st.Scan? || st.Header? then 1 else 0
  {
    hide NextCode, Parse;
    match st
    case Scan(p) =>
      var n := NextCode(s, p);
      NextFurther(s, p);
      if n.0 != -1 {
        Progress(s, if IsPacketCode(n.0) then Header(n.1, n.0) else Scan(n.1));
      }
    case Header(p, code) =>
      if p + 16 <= |s| {
        var parsed := Parse(s[p..p + 16]);
        ParsedSize(s[p..p + 16]);
        if parsed.Info? {
          Progress(s, Payload(p + parsed.size, code, parsed.len));
        }
      }
    case Payload(p, kind, len) =>
    case Astray(p, kind, len) =>
  }

  lemma AfterProgress(s: seq<byte>, p: nat, code: int)
    requires p + 2 <= |s|
    ensures var o := AfterReading(s, code, ReadFields(s, p));
      && !o.Long?
      && (o.Gives? ==> o.next.Scan? && p < o.next.pos <= |s|)
      && (o.Refused? ==> p < o.next.pos <= |s|)
      && (o.Waits? ==> p < o.st.pos <= |s|)
  {
    hide ReadFields;
  }

  /** What a step comes to, however long a header is. */
  function Act(s: seq<byte>, st: State): (o: Outcome)
    requires st.pos <= |s|
  {
    var o := Step(s, st);
    if o.Long? then o.done else o
  }

  /** A long header at byte p is what was found. */
  predicate ReadAt(s: seq<byte>, st: State, p: nat, code: int)
    requires st.pos <= |s|
  {
    st.pos <= p && p + 16 <= |s| && Step(s, st) == Long(AfterReading(s, code, ReadFields(s, p)))
  }

  lemma {:induction false} LongIs(s: seq<byte>, st: State)
    requires st.pos <= |s|
    ensures Step(s, st).Long? ==> !st.Payload? && exists p: nat, code: int :: ReadAt(s, st, p, code)
    decreases |s| - st.pos, if st.Scan? || st.Header? then 1 else 0
  {
    hide NextCode, Parse, IsPacketCode, AfterReading, ReadFields, AfterInvalid;
    match st
    case Scan(p) =>
      var n := NextCode(s, p);
      NextFurther(s, p);
      if n.0 != -1 {
        var next := if IsPacketCode(n.0) then Header(n.1, n.0) else Scan(n.1);
        LongIs(s, next);
        if Step(s, next).Long? {
          var q: nat, code: int :| ReadAt(s, next, q, code);
          assert ReadAt(s, st, q, code);
        }
      }
    case Header(p, code) =>
      if p + 16 <= |s| {
        StepHeader(s, p, code);
        var h := Parse(s[p..p + 16]);
        ParsedSize(s[p..p + 16]);
        if h.TooLong? {
          assert ReadAt(s, st, p, code);
        }
      }
    case Payload(p, kind, len) =>
    case Astray(p, kind, len) =>
  }

  lemma ActProgress(s: seq<byte>, st: State)
    requires st.pos <= |s|
    ensures var o := Act(s, st);
      && !o.Long?
      && (o.Gives? ==> o.next.Scan? && st.pos <= o.next.pos <= |s| && (!st.Payload? ==> st.pos < o.next.pos))
      && (o.Refused? ==> st.pos < o.next.pos <= |s|)
      && (o.Waits? ==> st.pos <= o.st.pos <= |s|)
  {
    hide Step, AfterReading, ReadFields;
    Progress(s, st);
    LongIs(s, st);
    if Step(s, st).Long? {
      var p: nat, code: int :| ReadAt(s, st, p, code);
      AfterProgress(s, p, code);
    }
  }

  /** The packets that come out, and how they stop coming. */
  datatype Trace = Trace(packets: seq<Packet>, end: Outcome)

  function Run(s: seq<byte>, st: State): (r: Trace)
    requires st.pos <= |s|
    ensures r.end.Waits? || r.end.Refused?
    ensures r.end.Waits? ==> r.end.st.pos <= |s|
    ensures r.end.Refused? ==> st.pos < r.end.next.pos <= |s|
    decreases |s| - st.pos, if st.Scan? || st.Header? then 0 else 1
  {
    ActProgress(s, st);
    var o := Act(s, st);
    if o.Gives? then
      var r := Run(s, o.next);
      Trace([o.packet] + r.packets, r.end)
    else Trace([], o)
  }

  /** A run is told by its first step. */
  lemma RunIs(s: seq<byte>, st: State)
    requires st.pos <= |s|
    ensures var o := Act(s, st);
      if o.Gives? then
        o.next.pos <= |s| && Run(s, st) == Trace([o.packet] + Run(s, o.next).packets, Run(s, o.next).end)
      else Run(s, st) == Trace([], o)
  {
    hide Step, Act;
    ActProgress(s, st);
  }

  /** No header that is reached goes on after sixteen bytes. */
  predicate Fits(s: seq<byte>, st: State)
    requires st.pos <= |s|
    decreases |s| - st.pos, if st.Scan? || st.Header? then 0 else 1
  {
    Progress(s, st);
    match Step(s, st)
    case Gives(_, next) => Fits(s, next)
    case Refused(next) => Fits(s, next)
    case Long(_) => false
    case Waits(_) => true
  }

  /** Where the machine is when it has stopped. */
  function Rest(o: Outcome): State
    requires o.Waits? || o.Refused?
  {
    if o.Waits? then o.st else o.next
  }

  lemma FitsIs(s: seq<byte>, st: State)
    requires st.pos <= |s|
    ensures var o := Step(s, st);
      && (o.Gives? || o.Refused? ==> o.next.pos <= |s| && Fits(s, st) == Fits(s, o.next))
      && (o.Waits? ==> Fits(s, st))
      && (o.Long? ==> !Fits(s, st))
  {
    hide Step;
    Progress(s, st);
  }

  /** What a run over all bytes gives is what runs over parts of them give in turn. */
  lemma {:induction false} RunMore(s: seq<byte>, t: seq<byte>, st: State)
    requires st.pos <= |s| && Fits(s + t, st)
    ensures Fits(s, st) && Fits(s + t, Rest(Run(s, st).end))
    ensures var r := Run(s, st);
      Run(s + t, st) ==
        if r.end.Waits? then Trace(r.packets + Run(s + t, r.end.st).packets, Run(s + t, r.end.st).end) else r
    decreases |s| - st.pos, if st.Scan? || st.Header? then 0 else 1
  {
    hide Step, GoesOn, Run, Fits;
    Progress(s, st);
    MoreBytes(s, t, st);
    GoesOnIs(s, t, st);
    RunIs(s, st);
    RunIs(s + t, st);
    FitsIs(s, st);
    FitsIs(s + t, st);
    match Step(s, st)
    case Gives(p, next) =>
      RunMore(s, t, next);
      var r := Run(s, next);
      if r.end.Waits? {
        assert [p] + (r.packets + Run(s + t, r.end.st).packets) == [p] + r.packets + Run(s + t, r.end.st).packets;
      }
    case Waits(st') =>
      WaitsSame(s + t, st, st');
      assert [] + Run(s + t, st').packets == Run(s + t, st').packets;
    case Refused(next) => RunMore(s, t, next);
    case Long(_) =>
  }

  lemma GoesOnIs(s: seq<byte>, t: seq<byte>, st: State)
    requires st.pos <= |s| && GoesOn(s, t, st, Step(s, st))
    ensures var o := Step(s, st);
      if o.Waits? then o.st.pos <= |s| && Step(s + t, st) == Step(s + t, o.st)
      else if o.Long? then Step(s + t, st).Long? else Step(s + t, st) == o
  {
    hide Step;
  }

  /** From where the machine waits it does what it would have done before. */
  lemma WaitsSame(s: seq<byte>, st: State, st': State)
    requires st.pos <= |s| && st'.pos <= |s| && Step(s, st) == Step(s, st')
    ensures Run(s, st) == Run(s, st') && Fits(s, st) == Fits(s, st')
  {
    hide *;
    ActSame(s, st, st');
    RunIs(s, st);
    RunIs(s, st');
    FitsIs(s, st);
    FitsIs(s, st');
  }

  lemma ActSame(s: seq<byte>, st: State, st': State)
    requires st.pos <= |s| && st'.pos <= |s| && Step(s, st) == Step(s, st')
    ensures Act(s, st) == Act(s, st')
  {
    hide Step;
  }
}
