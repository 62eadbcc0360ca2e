/** The bytes of an entropy-coded segment of JPEG (section F.1.2.3 of ITU-T T.81): a byte of ones is
    followed by a zero, and anything else after it is a marker, which ends the segment. */
module JpegSegment {
  import opened BitStream

  const ONES: byte := 0xff

  /** Where fill bytes from q on end. */
  function SkipFill(s: seq<byte>, q: nat): (r: nat)
    requires q <= |s|
    ensures q <= r <= |s| && (r < |s| ==> s[r] != ONES) && forall i | q <= i < r :: s[i] == ONES
    decreases |s| - q
  {
    if q < |s| && s[q] == ONES then SkipFill(s, q + 1) else q
  }

  /** The data bytes from p on, as this decoder takes them: fill bytes may also stand before a zero, and
      the end of the input stands for zeros. */
  function Segment(s: seq<byte>, p: nat): seq<byte>
    requires p <= |s|
    decreases |s| - p
  {
    if p == |s| then []
    else if s[p] != ONES then [s[p]] + Segment(s, p + 1)
    else
      var q := SkipFill(s, p + 1);
      if q == |s| then [ONES] else if s[q] == 0 then [ONES] + Segment(s, q + 1) else []
  }

  /** Whether a marker ends it, and not the end of the input. */
  predicate Marked(s: seq<byte>, p: nat)
    requires p <= |s|
    decreases |s| - p
  {
    if p == |s| then false
    else if s[p] != ONES then Marked(s, p + 1)
    else
      var q := SkipFill(s, p + 1);
      q < |s| && (s[q] == 0 ==> Marked(s, q + 1))
  }

  lemma SegmentEmpty(s: seq<byte>)
    ensures Segment(s, |s|) == [] && !Marked(s, |s|)
  {
  }

  /** One byte of it, by what comes next. */
  lemma SegmentNext(s: seq<byte>, p: nat)
    requires p < |s|
    ensures s[p] != ONES ==> Segment(s, p) == [s[p]] + Segment(s, p + 1) && Marked(s, p) == Marked(s, p + 1)
    ensures s[p] == ONES ==>
      var q := SkipFill(s, p + 1);
      if q == |s| then Segment(s, p) == [ONES] && !Marked(s, p)
      else if s[q] == 0 then Segment(s, p) == [ONES] + Segment(s, q + 1) && Marked(s, p) == Marked(s, q + 1)
      else Segment(s, p) == [] && Marked(s, p)
  {
  }

  /** What an encoder writes: a zero after every byte of ones. */
  function Stuffed(data: seq<byte>): seq<byte> {
    if data == [] then [] else (if data[0] == ONES then [ONES, 0] else [data[0]]) + Stuffed(data[1..])
  }

  /** Data that were stuffed and are ended by a marker come back, wherever they stand. */
  lemma {:induction false} Unstuffed(before: seq<byte>, data: seq<byte>, marker: byte, after: seq<byte>)
    requires marker != 0 && marker != ONES
    ensures Segment(before + Stuffed(data) + [ONES, marker] + after, |before|) == data
    ensures Marked(before + Stuffed(data) + [ONES, marker] + after, |before|)
    decreases |data|
  {
    hide Segment, Marked, SkipFill;
    var s := before + Stuffed(data) + [ONES, marker] + after;
    var p := |before|;
    if data == [] {
      assert s[p] == ONES && s[p + 1] == marker;
      NoFill(s, p + 1);
    } else {
      var first := if data[0] == ONES then [ONES, 0] else [data[0]];
      Unstuffed(before + first, data[1..], marker, after);
      assert before + first + Stuffed(data[1..]) + [ONES, marker] + after == s;
      assert s[p] == data[0];
      if data[0] == ONES {
        assert s[p + 1] == 0;
        NoFill(s, p + 1);
      }
      assert [data[0]] + data[1..] == data;
    }
    SegmentNext(s, p);
  }

  lemma NoFill(s: seq<byte>, q: nat)
    requires q < |s| && s[q] != ONES
    ensures SkipFill(s, q) == q
  {
  }
}
