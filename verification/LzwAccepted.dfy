/** The other direction: whatever decodes by the standard is what an encoder sends for the text. */
module LzwAccepted {
  import opened BitLists
  import opened BitStream
  import opened Lzw
  import opened LzwEncode

  /** A code with a string is an entry that an encoder may send. */
  lemma SayFound(cs: nat, h: seq<seq<byte>>, open: bool, code: nat) returns (s: Sign)
    requires 2 <= cs <= 8 && NonEmpty(h) && Pow2(cs) + 2 < CODE_LIMIT && code < Pow2(WidthFor(Entries(cs, h)))
    requires CodeStep(cs, CODE_LIMIT, false, DictOf(cs, h, open), code).Emit?
    ensures s.Say? && s.code == code && SignOk(cs, h, s)
    ensures CodeStep(cs, CODE_LIMIT, false, DictOf(cs, h, open), code) == Emit(s.text, DictOf(cs, h + [s.text], true))
  {
    hide Pow2, BitLength, TableOf, Widened, Roots, WidthFor;
    var text := CodeStep(cs, CODE_LIMIT, false, DictOf(cs, h, open), code).text;
    s := Say(text, code);
    SizeBounds(cs);
    if code < Entries(cs, h) {
      TableAt(cs, h, code);
      if code >= Pow2(cs) {
        EarlierEntry(cs, h, text, code);
      }
    } else {
      TwelveBits();
      Pow2Mono(WidthFor(Entries(cs, h)), 12);
      NewEntry(cs, h, text);
    }
    SayStep(cs, h, open, s);
  }

  /** The entry that is just being made. */
  lemma NewEntry(cs: nat, h: seq<seq<byte>>, text: seq<byte>)
    requires NonEmpty(h) && h != [] && Entries(cs, h) < CODE_LIMIT && text == h[|h| - 1] + [h[|h| - 1][0]]
    requires Pow2(cs) + 2 < CODE_LIMIT
    ensures NonEmpty(h + [text]) && IsEntry(cs, h + [text], Entries(cs, h), text)
  {
    hide Pow2;
  }

  /** The codes up to a point are those of some strings. */
  lemma {:induction false} SignsFound(cs: nat, data: seq<byte>, n: nat) returns (signs: seq<Sign>)
    requires 2 <= cs <= 8 && RunTo(cs, CODE_LIMIT, false, data, n).Going?
    ensures SignsOk(cs, signs) && NonEmpty(Since(signs)) && Pow2(cs) + 2 < CODE_LIMIT
    ensures Carries(data, 0, SignsBits(cs, signs)) && |SignsBits(cs, signs)| <= 8 * |data|
    ensures RunTo(cs, CODE_LIMIT, false, data, n)
      == Going(|SignsBits(cs, signs)|, DictOf(cs, Since(signs), signs != []), Spoken(signs))
  {
    hide Pow2, Carries, RunStep, SignBits, DictOf, SignOk, SignsOk, Since, Spoken, SignsBits, NonEmpty;
    ClearedIs(cs, false);
    if n == 0 {
      signs := [];
      NoSigns(cs);
      SinceNonEmpty(cs, []);
      CarriesNothing(data, 0);
    } else {
      var before := SignsFound(cs, data, n - 1);
      var h := Since(before);
      var p := |SignsBits(cs, before)|;
      var s := SignFound(cs, data, p, h, before != [], Spoken(before));
      signs := before + [s];
      AddSign(cs, before, s);
      SinceNonEmpty(cs, signs);
      AddBits(cs, before, s);
      CarriesBoth(data, 0, SignsBits(cs, before), SignBits(cs, h, s));
      assert Spoken(before) + [] == Spoken(before);
    }
  }

  lemma AddBits(cs: nat, before: seq<Sign>, s: Sign)
    ensures SignsBits(cs, before + [s]) == SignsBits(cs, before) + SignBits(cs, Since(before), s)
  {
    hide SignBits;
    assert (before + [s])[..|before|] == before;
  }

  lemma SignFound(cs: nat, data: seq<byte>, p: nat, h: seq<seq<byte>>, open: bool, out: seq<byte>) returns (s: Sign)
    requires 2 <= cs <= 8 && NonEmpty(h) && Pow2(cs) + 2 < CODE_LIMIT
    requires RunStep(cs, CODE_LIMIT, false, data, p, DictOf(cs, h, open), out).Going?
    ensures SignOk(cs, h, s) && Carries(data, p, SignBits(cs, h, s)) && p + |SignBits(cs, h, s)| <= 8 * |data|
    ensures RunStep(cs, CODE_LIMIT, false, data, p, DictOf(cs, h, open), out) ==
      if s.ClearSign? then Going(p + |SignBits(cs, h, s)|, DictOf(cs, [], true), out)
      else Going(p + |SignBits(cs, h, s)|, DictOf(cs, h + [s.text], true), out + s.text)
  {
    hide Pow2, WidthFor, TableOf, Carries, Field, Entries, SignOk, CodeStep, Cleared;
    var w := WidthFor(Entries(cs, h));
    var code := Field(data, p, w);
    FieldCarries(data, p, w);
    ClearedIs(cs, true);
    var step := CodeStep(cs, CODE_LIMIT, false, DictOf(cs, h, open), code);
    if step.Clear? {
      s := ClearSign;
      ClearFound(cs, DictOf(cs, h, open), code);
      ClearOk(cs, h);
    } else {
      s := SayFound(cs, h, open, code);
    }
  }

  lemma ClearFound(cs: nat, d: Dict, code: nat)
    requires CodeStep(cs, CODE_LIMIT, false, d, code).Clear?
    ensures code == Pow2(cs) && CodeStep(cs, CODE_LIMIT, false, d, code) == Clear(Cleared(cs, true))
  {
    hide Pow2, Cleared, Grown;
  }

  lemma ClearOk(cs: nat, h: seq<seq<byte>>)
    requires NonEmpty(h)
    ensures SignOk(cs, h, ClearSign)
  {
  }

  lemma EndFound(cs: nat, d: Dict, code: nat)
    ensures CodeStep(cs, CODE_LIMIT, false, d, code).End? <==> code == Pow2(cs) + 1
  {
    hide Pow2, Cleared, Grown;
  }

  // ---------------------------------------------------------------------------------------
  // Whole images

  /** The data have these codes, and then the end code, unless they end before it. */
  predicate Sent(cs: nat, data: seq<byte>, signs: seq<Sign>) {
    && Carries(data, 0, SignsBits(cs, signs)) && |SignsBits(cs, signs)| <= 8 * |data|
    && (|ImageBits(cs, signs)| <= 8 * |data| ==> Carries(data, 0, ImageBits(cs, signs)))
  }

  ghost predicate Encoded(cs: nat, data: seq<byte>, text: seq<byte>) {
    exists signs :: SignsOk(cs, signs) && Sent(cs, data, signs) && Spoken(signs) == text
  }

  /** Whatever decodes was encoded. */
  lemma ImageFound(cs: nat, data: seq<byte>, text: seq<byte>)
    requires 2 <= cs <= 8 && Decodes(cs, data, text)
    ensures Encoded(cs, data, text)
  {
    hide Pow2, Carries, SignsBits, SignsOk, Since, Spoken, WidthFor, Entries, TableOf, CodeStep, Field, LowFirst, RunTo;
    var n: nat :| RunTo(cs, CODE_LIMIT, false, data, n) == Ended(text);
    var m := LastGoing(cs, data, n);
    var signs := SignsFound(cs, data, m);
    RunAfter(cs, data, m);
    var p, w := |SignsBits(cs, signs)|, WidthFor(Entries(cs, Since(signs)));
    if p + w <= 8 * |data| {
      EndFound(cs, DictOf(cs, Since(signs), signs != []), Field(data, p, w));
      FieldCarries(data, p, w);
      CarriesBoth(data, 0, SignsBits(cs, signs), LowFirst(Pow2(cs) + 1, w));
    }
    assert SignsOk(cs, signs) && Sent(cs, data, signs) && Spoken(signs) == text;
  }

  /** The state before the end. */
  lemma {:induction false} LastGoing(cs: nat, data: seq<byte>, n: nat) returns (m: nat)
    requires RunTo(cs, CODE_LIMIT, false, data, n).Ended?
    ensures RunTo(cs, CODE_LIMIT, false, data, m).Going?
    ensures RunTo(cs, CODE_LIMIT, false, data, m + 1) == RunTo(cs, CODE_LIMIT, false, data, n)
  {
    hide RunStep, Cleared;
    if RunTo(cs, CODE_LIMIT, false, data, n - 1).Going? {
      m := n - 1;
    } else {
      m := LastGoing(cs, data, n - 1);
    }
  }

  /** The texts that data decode to by the standard are those for which an encoder may send them. */
  lemma DecodesIffEncoded(cs: nat, data: seq<byte>, text: seq<byte>)
    requires 2 <= cs <= 8
    ensures Decodes(cs, data, text) <==> Encoded(cs, data, text)
  {
    hide Pow2, Carries, SignsBits, SignsOk, Since, Spoken, Decodes, ImageBits, DictOf;
    if Decodes(cs, data, text) {
      ImageFound(cs, data, text);
    }
    if Encoded(cs, data, text) {
      var signs :| SignsOk(cs, signs) && Sent(cs, data, signs) && Spoken(signs) == text;
      if |ImageBits(cs, signs)| <= 8 * |data| {
        ImageRead(cs, data, signs);
      } else {
        RunsOut(cs, data, signs);
      }
    }
  }

  /** Data may end before the end code. */
  lemma RunsOut(cs: nat, data: seq<byte>, signs: seq<Sign>)
    requires 2 <= cs <= 8 && SignsOk(cs, signs) && Carries(data, 0, SignsBits(cs, signs))
    requires |SignsBits(cs, signs)| <= 8 * |data| < |ImageBits(cs, signs)|
    ensures Decodes(cs, data, Spoken(signs))
  {
    hide Pow2, Carries, SignsBits, SignsOk, Since, Spoken, WidthFor, Entries, TableOf, CodeStep, Field, LowFirst, RunTo;
    SignsRead(cs, data, signs);
    RunAfter(cs, data, |signs|);
    assert RunTo(cs, CODE_LIMIT, false, data, |signs| + 1) == Ended(Spoken(signs));
  }
}
