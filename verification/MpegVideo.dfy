/** The order in which the video decoder returns pictures, and the three frames it keeps. */
module MpegVideo {
  import opened Common

  datatype Kind = Intra | Predictive | Bidirectional

  /** What a frame shows: a picture, decoded from the references it was decoded from. */
  datatype Image = Blank | FromNone(number: nat) | FromOne(number: nat, past: Image)
    | FromTwo(number: nat, past: Image, future: Image)

  datatype References = References(older: Image, newer: Image)

  // ---------------------------------------------------------------------------------------
  // What the pictures of a sequence are

  /** The last two reference pictures among the first k. */
  function Refs(pics: seq<Kind>, k: nat): References
    requires k <= |pics|
    decreases k, 0
  {
    if k == 0 then References(Blank, Blank)
    else
      var r := Refs(pics, k - 1);
      if pics[k - 1].Bidirectional? then r else References(r.newer, ImageOf(pics, k - 1))
  }

  /** Picture k as the standard means it: predicted from the reference before it, or between
      the two before it in decoding order. */
  function ImageOf(pics: seq<Kind>, k: nat): Image
    requires k < |pics|
    decreases k, 1
  {
    var r := Refs(pics, k);
    match pics[k]
    case Intra => FromNone(k)
    case Predictive => FromOne(k, r.newer)
    case Bidirectional => FromTwo(k, r.older, r.newer)
  }

  /** The last reference among the first k pictures, or k if there is none. */
  function LastRef(pics: seq<Kind>, k: nat): (j: nat)
    requires k <= |pics|
    ensures j <= k && (j < k ==> !pics[j].Bidirectional?)
    ensures forall i | 0 <= i < k && !pics[i].Bidirectional? :: i <= j < k
  {
    if k == 0 then 0
    else if !pics[k - 1].Bidirectional? then k - 1
    else
      var j := LastRef(pics, k - 1);
      if j == k - 1 then k else j
  }

  predicate HasRef(pics: seq<Kind>, k: nat)
    requires k <= |pics|
  {
    LastRef(pics, k) < k
  }

  lemma {:induction false} NewerIsLast(pics: seq<Kind>, k: nat)
    requires k <= |pics|
    ensures HasRef(pics, k) ==> Refs(pics, k).newer == ImageOf(pics, LastRef(pics, k))
  {
    if k == 0 {
    } else {
      NewerIsLast(pics, k - 1);
    }
  }

  /** The older reference is the last one before the newer. */
  lemma {:induction false} OlderIsBefore(pics: seq<Kind>, k: nat)
    requires k <= |pics| && HasRef(pics, k)
    ensures var n := LastRef(pics, k);
      Refs(pics, k).older == if HasRef(pics, n) then ImageOf(pics, LastRef(pics, n)) else Blank
  {
    if pics[k - 1].Bidirectional? {
      OlderIsBefore(pics, k - 1);
    } else {
      NewerIsLast(pics, k - 1);
      NoneYet(pics, k - 1);
    }
  }

  lemma {:induction false} NoneYet(pics: seq<Kind>, k: nat)
    requires k <= |pics|
    ensures !HasRef(pics, k) ==> Refs(pics, k) == References(Blank, Blank)
  {
    if k == 0 {
    } else {
      NoneYet(pics, k - 1);
    }
  }

  /** An intra picture needs no other; a predictive one is predicted from the last reference before it. */
  lemma PredictedFrom(pics: seq<Kind>, k: nat)
    requires k < |pics|
    ensures pics[k].Intra? ==> ImageOf(pics, k) == FromNone(k)
    ensures pics[k].Predictive? && HasRef(pics, k) ==> ImageOf(pics, k) == FromOne(k, ImageOf(pics, LastRef(pics, k)))
  {
    hide Refs;
    NewerIsLast(pics, k);
  }

  /** A bidirectional picture is made from the two references between which it is shown. */
  lemma MadeBetween(pics: seq<Kind>, older: nat, k: nat, newer: nat)
    requires Between(pics, older, k, newer)
    ensures ImageOf(pics, k) == FromTwo(k, ImageOf(pics, older), ImageOf(pics, newer))
  {
    hide Refs;
    NewerIsLast(pics, k);
    OlderIsBefore(pics, k);
  }

  // ---------------------------------------------------------------------------------------
  // The order of the pictures returned

  /** The numbers of the pictures returned when the first k are decoded: a bidirectional one at
      once, a reference when the next reference is decoded, or at the end. */
  function Deliver(pics: seq<Kind>, k: nat): seq<nat>
    requires k <= |pics|
    decreases |pics| - k
  {
    if k == |pics| then
      if k > 0 && !pics[k - 1].Bidirectional? then [k - 1] else []
    else if pics[k].Bidirectional? then [k] + Deliver(pics, k + 1)
    else (if HasRef(pics, k) then [LastRef(pics, k)] else []) + Deliver(pics, k + 1)
  }

  /** How often a number occurs. */
  function Count(s: seq<nat>, j: nat): nat {
    if s == [] then 0 else (if s[0] == j then 1 else 0) + Count(s[1..], j)
  }

  lemma CountMore(x: nat, s: seq<nat>, j: nat)
    ensures Count([x] + s, j) == (if x == j then 1 else 0) + Count(s, j)
  {
    assert ([x] + s)[1..] == s;
  }

  /** The reference that is never returned, when the sequence ends in bidirectional pictures. */
  predicate Lost(pics: seq<Kind>, j: nat) {
    var n := |pics|;
    HasRef(pics, n) && pics[n - 1].Bidirectional? && j == LastRef(pics, n)
  }

  lemma {:induction false} DeliverFrom(pics: seq<Kind>, k: nat, j: nat)
    requires k <= |pics|
    ensures Count(Deliver(pics, k), j) + (if Lost(pics, j) then 1 else 0) ==
      (if k <= j < |pics| then 1 else 0) + (if HasRef(pics, k) && j == LastRef(pics, k) then 1 else 0)
    decreases |pics| - k
  {
    if k == |pics| {
      CountMore(if k > 0 then k - 1 else 0, [], j);
    } else {
      DeliverFrom(pics, k + 1, j);
      var rest := Deliver(pics, k + 1);
      var x := if pics[k].Bidirectional? then k else LastRef(pics, k);
      CountMore(x, rest, j);
      assert [] + rest == rest;
    }
  }

  /** Every picture is returned once, but for the lost one, and nothing else is. */
  lemma DeliverOnce(pics: seq<Kind>, j: nat)
    ensures Count(Deliver(pics, 0), j) == if j >= |pics| || Lost(pics, j) then 0 else 1
  {
    DeliverFrom(pics, 0, j);
  }

  /** All pictures of a sequence with references are returned just when it ends with one. */
  lemma DeliverAll(pics: seq<Kind>)
    requires HasRef(pics, |pics|)
    ensures (forall j | 0 <= j < |pics| :: Count(Deliver(pics, 0), j) == 1) <==> !pics[|pics| - 1].Bidirectional?
  {
    forall j: nat | j < |pics|
      ensures Count(Deliver(pics, 0), j) == if Lost(pics, j) then 0 else 1
    {
      DeliverOnce(pics, j);
    }
    if pics[|pics| - 1].Bidirectional? {
      var j := LastRef(pics, |pics|);
      assert Count(Deliver(pics, 0), j) == 0;
    }
  }

  /** The first reference from k on, or the end. */
  function RefFrom(pics: seq<Kind>, k: nat): (r: nat)
    requires k <= |pics|
    ensures k <= r <= |pics| && (r < |pics| ==> !pics[r].Bidirectional?)
    ensures forall i | k <= i < r :: pics[i].Bidirectional?
    decreases |pics| - k
  {
    if k == |pics| || !pics[k].Bidirectional? then k else RefFrom(pics, k + 1)
  }

  /** When picture j is shown, told by the picture that is decoded then. */
  function When(pics: seq<Kind>, j: nat): nat
    requires j < |pics|
  {
    if pics[j].Bidirectional? then j else RefFrom(pics, j + 1)
  }

  /** The references that a bidirectional picture lies between: the newer one is the last before it in
      decoding order, the older one the last before that. */
  predicate Between(pics: seq<Kind>, older: nat, k: nat, newer: nat) {
    && older < newer < k < |pics| && pics[k].Bidirectional?
    && newer == LastRef(pics, k) && HasRef(pics, newer) && older == LastRef(pics, newer)
  }

  /** These pictures are shown one after the other, none before k is decoded. */
  predicate InTime(pics: seq<Kind>, d: seq<nat>, k: nat) {
    && (forall i | 0 <= i < |d| :: d[i] < |pics| && When(pics, d[i]) >= k)
    && (forall i, j | 0 <= i < j < |d| :: When(pics, d[i]) < When(pics, d[j]))
  }

  lemma InTimeCons(pics: seq<Kind>, x: nat, d: seq<nat>, k: nat)
    requires InTime(pics, d, k + 1)
    ensures InTime(pics, d, k)
    ensures x < |pics| && When(pics, x) == k ==> InTime(pics, [x] + d, k)
  {
    hide When;
    var e := [x] + d;
    if x < |pics| && When(pics, x) == k {
      forall i, j | 0 <= i < j < |e|
        ensures When(pics, e[i]) < When(pics, e[j])
      {
        assert e[j] == d[j - 1];
      }
    }
  }

  lemma {:induction false} DeliverSorted(pics: seq<Kind>, k: nat)
    requires k <= |pics|
    ensures InTime(pics, Deliver(pics, k), k)
    decreases |pics| - k
  {
    hide Deliver, InTime;
    DeliverStep(pics, k);
    if k < |pics| {
      DeliverSorted(pics, k + 1);
      InTimeCons(pics, if pics[k].Bidirectional? then k else LastRef(pics, k), Deliver(pics, k + 1), k);
    } else {
      NoneInTime(pics, k + 1);
      InTimeCons(pics, LastRef(pics, k), [], k);
      assert [LastRef(pics, k)] + [] == [LastRef(pics, k)];
    }
  }

  lemma NoneInTime(pics: seq<Kind>, k: nat)
    ensures InTime(pics, [], k)
  {
  }

  /** References are returned in the order in which they are decoded. */
  lemma ReferencesInOrder(pics: seq<Kind>, i: nat, j: nat)
    requires var d := Deliver(pics, 0);
      i < j < |d| && d[i] < |pics| && d[j] < |pics| && !pics[d[i]].Bidirectional? && !pics[d[j]].Bidirectional?
    ensures Deliver(pics, 0)[i] < Deliver(pics, 0)[j]
  {
    hide Deliver;
    DeliverSorted(pics, 0);
  }

  /** A bidirectional picture is returned after the older and before the newer of its references. */
  lemma BetweenReferences(pics: seq<Kind>, older: nat, k: nat, newer: nat, i: nat)
    requires Between(pics, older, k, newer) && i < |Deliver(pics, 0)| && Deliver(pics, 0)[i] == k
    ensures forall j | 0 <= j < |Deliver(pics, 0)| :: (Deliver(pics, 0)[j] == older ==> j < i)
    ensures forall j | 0 <= j < |Deliver(pics, 0)| :: (Deliver(pics, 0)[j] == newer ==> j > i)
  {
    hide Deliver;
    var d := Deliver(pics, 0);
    DeliverSorted(pics, 0);
    assert When(pics, older) <= newer;
    assert When(pics, newer) > k;
    forall j | 0 <= j < |d|
      ensures (d[j] == older ==> j < i) && (d[j] == newer ==> j > i)
    {
    }
  }

  // ---------------------------------------------------------------------------------------
  // The decoder

  class Video {
    // The frames are the three parts of one block of memory.
    var current: nat
    var forward: nat
    var backward: nat
    const frames: array<Image>

    var hasReference: bool
    const noDelay: bool

    // The pictures found so far, how many were decoded, and whether there are no more.
    var pics: seq<Kind>
    var next: nat
    var ended: bool

    ghost predicate Valid()
      reads this, frames
    {
      && frames.Length == 3 && {current, forward, backward} == {0, 1, 2}
      && next <= |pics|
      && frames[forward] == Refs(pics, next).older && frames[backward] == Refs(pics, next).newer
    }

    /** What has arrived is the first part of the sequence, and all of it if there is no more. */
    ghost predicate Of(whole: seq<Kind>)
      reads `pics, `ended
    {
      pics <= whole && (ended ==> pics == whole)
    }

    /** A reference is held back unless it was handed out at the end. */
    ghost predicate Holding(whole: seq<Kind>)
      reads `hasReference, `next
      requires next <= |whole|
    {
      !noDelay && hasReference == HasRef(whole, next)
    }

    /** All pictures are decoded and returned. */
    ghost predicate AtEnd()
      reads `hasReference, `pics, `next, `ended
    {
      ended && next == |pics| && !hasReference
    }

    /** The frame holds the picture of the whole sequence that is due from a position on, and the rest is
        still to come. */
    ghost predicate Given(whole: seq<Kind>, start: nat, frame: nat)
      requires next <= |whole| && start <= |whole|
      reads `hasReference, `pics, `next, `ended, frames
    {
      var rest := Deliver(whole, start);
      && rest != [] && rest[0] < |whole| && frame < frames.Length && frames[frame] == ImageOf(whole, rest[0])
      && if Holding(whole) then rest[1..] == Deliver(whole, next) else rest[1..] == [] && AtEnd()
    }

    /** Without delay every picture gives the last reference. */
    ghost predicate GivenAtOnce(start: nat, frame: nat)
      requires next <= |pics|
      reads `pics, `next, frames
    {
      next == start + 1 && frame < frames.Length && frames[frame] == Refs(pics, next).newer
    }

    constructor (noDelay: bool)
      ensures Valid() && fresh(frames) && this.noDelay == noDelay && pics == [] && next == 0 && !ended && !hasReference
    {
      this.noDelay := noDelay;
      current, forward, backward := 0, 1, 2;
      frames := new Image[3](i => Blank);
      hasReference, pics, next, ended := false, [], 0, false;
    }

    /** More pictures arrive. */
    method Arrive(more: seq<Kind>)
      requires Valid() && !ended
      modifies `pics
      ensures Valid() && pics == old(pics) + more
    {
      RefsOfMore(pics, pics + more, next);
      pics := pics + more;
    }

    /** There are no more. */
    method SignalEnd()
      requires Valid()
      modifies `ended
      ensures Valid() && ended
    {
      ended := true;
    }

    /** Decodes the next picture into the current frame, from the references it needs, and
        takes it for the next reference if it is one. */
    method DecodePicture()
      requires Valid() && next < |pics|
      modifies `current, `forward, `backward, `next, frames
      ensures Valid() && next == old(next) + 1
      ensures frames[if pics[old(next)].Bidirectional? then current else backward] == ImageOf(pics, old(next))
      ensures pics[old(next)].Bidirectional? ==> (current, forward, backward) == old((current, forward, backward))
      ensures !pics[old(next)].Bidirectional? ==> (current, forward, backward) == old((forward, backward, current))
    {
      var kind := pics[next];
      var temp := forward;
      if !kind.Bidirectional? {
        forward := backward;
      }
      frames[current] := match kind
        case Intra => FromNone(next)
        case Predictive => FromOne(next, frames[forward])
        case Bidirectional => FromTwo(next, frames[forward], frames[backward]);
      if !kind.Bidirectional? {
        backward := current;
        current := temp;
      }
      next := next + 1;
    }

    /** Decodes pictures until one is to be returned; the frame it is in stays as it is until the
        next call.  Until the end is known the last picture, which may not be all there, is left. */
    method Decode(ghost whole: seq<Kind>) returns (frame: Option<nat>)
      requires Valid() && Of(whole)
      modifies `current, `forward, `backward, `next, `hasReference, frames
      ensures Valid() && next >= old(next)
      ensures !ended && old(next) < |pics| ==> next < |pics|
      ensures frame == None ==> next == |pics| || (next + 1 == |pics| && !ended)
      ensures old(Holding(whole)) ==> (
        if frame.Some? then Given(whole, old(next), frame.value)
        else Holding(whole) && Deliver(whole, next) == Deliver(whole, old(next)))
      ensures old(Holding(whole)) && ended && frame == None ==> Deliver(whole, next) == []
      ensures old(AtEnd()) ==> frame == None && AtEnd()
      ensures noDelay && frame.Some? ==> GivenAtOnce(old(next), frame.value)
    {
      hide Deliver, LastRef, Refs, ImageOf, HasRef;
      frame := None;
      while frame == None
        invariant Valid() && next >= old(next)
        invariant !ended && old(next) < |pics| ==> next < |pics|
        invariant frame == None ==> (
          old(Holding(whole)) ==> Holding(whole) && Deliver(whole, next) == Deliver(whole, old(next)))
        invariant frame.Some? ==> (old(Holding(whole)) ==> Given(whole, old(next), frame.value))
        invariant frame.Some? ==> (noDelay ==> GivenAtOnce(old(next), frame.value))
        invariant old(AtEnd()) ==> frame == None && AtEnd()
        invariant noDelay && frame == None ==> next == old(next)
        decreases frame == None, |pics| - next
      {
        NewerIsLast(whole, next);
        DeliverStep(whole, next);
        RefsOfMore(pics, whole, next);
        if next == |pics| {
          if hasReference && !noDelay && ended && next > 0 && !pics[next - 1].Bidirectional? {
            hasReference := false;
            frame := Some(backward);
            break;
          }
          return None;
        }
        if next + 1 == |pics| && !ended {
          return None;
        }
        var kind := pics[next];
        RefsStep(pics, next);
        ImageOfMore(pics, whole, next);
        DecodePicture();
        if noDelay {
          frame := Some(backward);
        } else if kind.Bidirectional? {
          frame := Some(current);
        } else if hasReference {
          frame := Some(forward);
        } else {
          hasReference := true;
        }
      }
    }

    /** Takes frames until none comes. */
    method Drain(ghost whole: seq<Kind>) returns (images: seq<Image>)
      requires Valid() && Of(whole) && Holding(whole)
      modifies `current, `forward, `backward, `next, `hasReference, frames
      ensures Valid() && old(next) <= next
      ensures InRange(Deliver(whole, old(next)), |whole|) && InRange(Deliver(whole, next), |whole|)
      ensures !ended ==>
        Holding(whole) && images + Images(whole, Deliver(whole, next)) == Images(whole, Deliver(whole, old(next)))
      ensures ended ==> images == Images(whole, Deliver(whole, old(next)))
    {
      hide Deliver, LastRef, Refs, ImageOf, HasRef;
      DeliverInRange(whole, next);
      images := [];
      var more := true;
      ghost var rest := Deliver(whole, next);
      ghost var all := Images(whole, rest);
      assert [] + all == all;
      while more
        invariant Valid() && old(next) <= next
        invariant InRange(rest, |whole|) && images + Images(whole, rest) == all
        invariant more ==> (Holding(whole) && rest == Deliver(whole, next)) || (rest == [] && AtEnd())
        invariant !more ==> if ended then rest == [] else Holding(whole) && rest == Deliver(whole, next)
        decreases more, |rest|
      {
        var frame := Decode(whole);
        if frame == None {
          more := false;
        } else {
          images := images + [frames[frame.value]];
          rest := rest[1..];
        }
      }
      DeliverInRange(whole, next);
    }
  }

  lemma {:induction false} RefsOfMore(pics: seq<Kind>, more: seq<Kind>, k: nat)
    requires pics <= more && k <= |pics|
    ensures Refs(pics, k) == Refs(more, k)
  {
    if k == 0 {
    } else {
      RefsOfMore(pics, more, k - 1);
      assert ImageOf(pics, k - 1) == ImageOf(more, k - 1);
    }
  }

  lemma ImageOfMore(pics: seq<Kind>, more: seq<Kind>, k: nat)
    requires pics <= more && k < |pics|
    ensures ImageOf(pics, k) == ImageOf(more, k)
  {
    RefsOfMore(pics, more, k);
  }

  lemma RefsStep(pics: seq<Kind>, k: nat)
    requires k < |pics|
    ensures Refs(pics, k + 1) ==
      if pics[k].Bidirectional? then Refs(pics, k) else References(Refs(pics, k).newer, ImageOf(pics, k))
  {
  }

  lemma DeliverStep(pics: seq<Kind>, k: nat)
    requires k <= |pics|
    ensures Deliver(pics, k) ==
      if k == |pics| then if k > 0 && !pics[k - 1].Bidirectional? then [LastRef(pics, k)] else []
      else if pics[k].Bidirectional? then [k] + Deliver(pics, k + 1)
      else if HasRef(pics, k) then [LastRef(pics, k)] + Deliver(pics, k + 1)
      else Deliver(pics, k + 1)
    ensures k > 0 && !pics[k - 1].Bidirectional? ==> HasRef(pics, k)
    ensures k < |pics| && !pics[k].Bidirectional? ==> HasRef(pics, k + 1) && LastRef(pics, k + 1) == k
    ensures k < |pics| && pics[k].Bidirectional? ==> HasRef(pics, k + 1) == HasRef(pics, k)
  {
  }

  function Images(pics: seq<Kind>, numbers: seq<nat>): seq<Image>
    requires InRange(numbers, |pics|)
  {
    if numbers == [] then [] else [ImageOf(pics, numbers[0])] + Images(pics, numbers[1..])
  }

  lemma {:induction false} DeliverInRange(pics: seq<Kind>, k: nat)
    requires k <= |pics|
    ensures InRange(Deliver(pics, k), |pics|)
    decreases |pics| - k
  {
    if k == |pics| {
    } else {
      DeliverInRange(pics, k + 1);
    }
  }

  /** A sequence that arrives in any parts, with all frames taken after each and at the end, gives its
      pictures in their order, each decoded from the right references. */
  method Play(parts: seq<seq<Kind>>) returns (images: seq<Image>)
    ensures InRange(Deliver(Concat(parts), 0), |Concat(parts)|)
    ensures images == Images(Concat(parts), Deliver(Concat(parts), 0))
  {
    hide Deliver, LastRef, Refs, ImageOf, HasRef, Images, Concat;
    var video := new Video(false);
    ghost var whole := Concat(parts);
    images := [];
    DeliverInRange(whole, 0);
    NoRefAtFirst(whole);
    ghost var all := Images(whole, Deliver(whole, 0));
    assert [] + all == all;
    ConcatEnds(parts);
    for i := 0 to |parts|
      invariant fresh(video) && fresh(video.frames) && video.Valid() && !video.ended && video.pics == Concat(parts[..i])
      invariant video.next <= |whole| && video.Holding(whole) && InRange(Deliver(whole, video.next), |whole|)
      invariant images + Images(whole, Deliver(whole, video.next)) == all
    {
      ConcatNext(parts, i);
      ghost var rest := ConcatSplit(parts, i + 1);
      video.Arrive(parts[i]);
      var more := video.Drain(whole);
      images := images + more;
    }
    video.SignalEnd();
    var last := video.Drain(whole);
    images := images + last;
  }

  predicate InRange(numbers: seq<nat>, n: nat) {
    forall k | 0 <= k < |numbers| :: numbers[k] < n
  }

  lemma NoRefAtFirst(pics: seq<Kind>)
    ensures !HasRef(pics, 0)
  {
  }
}
