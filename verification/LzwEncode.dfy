/** The LZW code from the side of the encoder: a text is cut into strings that are in the table which the
    strings before them define, and their numbers are sent in as many bits as the table needs.  Whatever is
    encoded in this way is decoded. */
module LzwEncode {
  import opened BitLists
  import opened BitStream
  import opened Lzw

  /** A clear code, or a string and its number. */
  datatype Sign = ClearSign | Say(text: seq<byte>, code: nat)

  /** The strings since the last clear code. */
  function Since(signs: seq<Sign>): seq<seq<byte>> {
    if signs == [] || signs[|signs| - 1].ClearSign? then []
    else Since(signs[..|signs| - 1]) + [signs[|signs| - 1].text]
  }

  /** All strings together. */
  function Spoken(signs: seq<Sign>): seq<byte> {
    if signs == [] then []
    else Spoken(signs[..|signs| - 1]) + if signs[|signs| - 1].ClearSign? then [] else signs[|signs| - 1].text
  }

  predicate NonEmpty(h: seq<seq<byte>>) {
    forall i | 0 <= i < |h| :: h[i] != []
  }

  /** How many entries there are after the strings h: one for each of them once its successor is known. */
  function Entries(cs: nat, h: seq<seq<byte>>): (n: nat)
  {
    var n := Pow2(cs) + 2 + if h == [] then 0 else |h| - 1;
    if n < CODE_LIMIT then n else CODE_LIMIT
  }

  /** Entry k is a root, or a string with the first index of the string after it. */
  predicate IsEntry(cs: nat, h: seq<seq<byte>>, k: nat, text: seq<byte>)
    requires NonEmpty(h)
  {
    if k < Pow2(cs) then text == [k % 256]
    else
      var j := k - Pow2(cs) - 2;
      Pow2(cs) + 2 <= k < Entries(cs, h) && j + 1 < |h| && text == h[j] + [h[j + 1][0]]
  }

  /** After the strings h: the string that is sent is in the table that it makes itself part of. */
  predicate SignOk(cs: nat, h: seq<seq<byte>>, s: Sign)
    requires NonEmpty(h)
  {
    s.Say? ==> s.text != [] && IsEntry(cs, h + [s.text], s.code, s.text)
  }

  /** As many bits as the number of entries has, but at most twelve. */
  function WidthFor(n: nat): (w: nat)
    ensures w <= 12
  {
    if BitLength(n) < 12 then BitLength(n) else 12
  }

  // ---------------------------------------------------------------------------------------
  // The decoder's table

  function TableOf(cs: nat, h: seq<seq<byte>>): (t: seq<seq<byte>>)
    requires NonEmpty(h) && Pow2(cs) + 2 <= CODE_LIMIT
    ensures |t| == Entries(cs, h)
  {
    Roots(Pow2(cs)) + [[], []] +
      seq(Entries(cs, h) - Pow2(cs) - 2, j requires 0 <= j < Entries(cs, h) - Pow2(cs) - 2 => h[j] + [h[j + 1][0]])
  }

  function DictOf(cs: nat, h: seq<seq<byte>>, open: bool): Dict
    requires NonEmpty(h) && Pow2(cs) + 2 <= CODE_LIMIT
  {
    Dict(TableOf(cs, h), WidthFor(Entries(cs, h)), if h == [] then [] else h[|h| - 1], open)
  }

  lemma ClearedIs(cs: nat, open: bool)
    requires 2 <= cs <= 8
    ensures Pow2(cs) + 2 < CODE_LIMIT && DictOf(cs, [], open) == Cleared(cs, open)
  {
    hide Pow2, BitLength;
    SizeBounds(cs);
    assert Pow2(cs + 1) == 2 * Pow2(cs) by { TwicePower(cs); }
    BitLengthIs(Pow2(cs) + 2, cs + 1);
    var t := Roots(Pow2(cs)) + [[], []];
    assert TableOf(cs, []) == t + [] == t;
  }

  lemma TwicePower(n: nat)
    ensures Pow2(n + 1) == 2 * Pow2(n)
  {
  }

  /** The width that the decoder goes on with is what the number of entries needs. */
  lemma WidthNext(n: nat, m: nat)
    requires 0 < n <= m <= n + 1 && m <= CODE_LIMIT
    ensures Widened(m, WidthFor(n)) == WidthFor(m)
  {
    hide Pow2, BitLength, Widened;
    TwelveBits();
    var l := BitLength(n);
    if l <= 12 {
      WidthGrows(m, l);
      if m == Pow2(l) {
        TwicePower(l);
        BitLengthIs(m, l + 1);
      } else {
        BitLengthIs(m, l);
      }
    } else {
      Pow2Mono(12, l - 1);
      WidthFull(m, 12);
    }
  }

  lemma TableNext(cs: nat, h: seq<seq<byte>>, w: seq<byte>)
    requires NonEmpty(h) && w != [] && Pow2(cs) + 2 <= CODE_LIMIT
    ensures var t, n := TableOf(cs, h), Entries(cs, h);
      TableOf(cs, h + [w]) == if h == [] || n == CODE_LIMIT then t else t + [h[|h| - 1] + [w[0]]]
  {
    hide Pow2, TableOf;
    var t, t' := TableOf(cs, h), TableOf(cs, h + [w]);
    var u := if h == [] || Entries(cs, h) == CODE_LIMIT then t else t + [h[|h| - 1] + [w[0]]];
    assert |t'| == |u|;
    forall k | 0 <= k < |u|
      ensures t'[k] == u[k]
    {
      TableAt(cs, h + [w], k);
      if k < |t| {
        TableAt(cs, h, k);
        if k >= Pow2(cs) + 2 {
          EarlierEntry(cs, h, w, k);
        }
      }
    }
  }

  lemma EarlierEntry(cs: nat, h: seq<seq<byte>>, w: seq<byte>, k: nat)
    requires NonEmpty(h) && w != [] && Pow2(cs) + 2 <= k < Entries(cs, h)
    ensures var j := k - Pow2(cs) - 2;
      (h + [w])[j] + [(h + [w])[j + 1][0]] == h[j] + [h[j + 1][0]]
  {
    hide Pow2;
  }

  lemma TableAt(cs: nat, h: seq<seq<byte>>, k: nat)
    requires NonEmpty(h) && Pow2(cs) + 2 <= CODE_LIMIT && k < Entries(cs, h)
    ensures var j := k - Pow2(cs) - 2;
      TableOf(cs, h)[k] ==
        if k < Pow2(cs) then [k % 256] else if j < 0 then [] else h[j] + [h[j + 1][0]]
  {
    hide Pow2;
  }

  /** A string that is sent is understood, and makes the same entry for both. */
  lemma SayStep(cs: nat, h: seq<seq<byte>>, open: bool, s: Sign)
    requires 2 <= cs <= 8 && NonEmpty(h) && s.Say? && SignOk(cs, h, s)
    ensures Pow2(cs) + 2 < CODE_LIMIT && s.code < Pow2(WidthFor(Entries(cs, h)))
    ensures CodeStep(cs, CODE_LIMIT, false, DictOf(cs, h, open), s.code) == Emit(s.text, DictOf(cs, h + [s.text], true))
  {
    hide Pow2, BitLength, TableOf, Widened, Roots, WidthFor;
    ClearedIs(cs, open);
    SizeBounds(cs);
    var w, k, n := s.text, s.code, Entries(cs, h);
    TableNext(cs, h, w);
    WidthNext(n, Entries(cs, h + [w]));
    WidthHolds(n, k);
    SaidText(cs, h, w, k);
  }

  /** The string is in the decoder's table, or in the entry it is about to make. */
  lemma SaidText(cs: nat, h: seq<seq<byte>>, w: seq<byte>, k: nat)
    requires NonEmpty(h) && w != [] && IsEntry(cs, h + [w], k, w) && Pow2(cs) + 2 <= CODE_LIMIT && Pow2(cs) <= 256
    ensures k <= Entries(cs, h) && k != Pow2(cs) && k != Pow2(cs) + 1
    ensures h == [] ==> k < Pow2(cs)
    ensures k < Entries(cs, h) ==> TableOf(cs, h)[k] == w
    ensures k == Entries(cs, h) ==> h != [] && k < CODE_LIMIT && w == h[|h| - 1] + [h[|h| - 1][0]]
  {
    hide Pow2, TableOf;
    if k < Entries(cs, h) {
      TableAt(cs, h, k);
    }
  }

  lemma WidthHolds(n: nat, k: nat)
    requires k <= n <= CODE_LIMIT && (n == CODE_LIMIT ==> k < n)
    ensures k < Pow2(WidthFor(n))
  {
    hide Pow2, BitLength;
    TwelveBits();
    if BitLength(n) >= 12 {
      if BitLength(n) > 12 {
        Pow2Mono(12, BitLength(n) - 1);
      }
    }
  }

  // ---------------------------------------------------------------------------------------
  // Whole images

  predicate SignsOk(cs: nat, signs: seq<Sign>) {
    signs == [] || (
      var before := signs[..|signs| - 1];
      SignsOk(cs, before) && NonEmpty(Since(before)) && SignOk(cs, Since(before), signs[|signs| - 1]))
  }

  lemma {:induction false} SinceNonEmpty(cs: nat, signs: seq<Sign>)
    requires SignsOk(cs, signs)
    ensures NonEmpty(Since(signs))
  {
    if signs == [] {
    } else {
      SinceNonEmpty(cs, signs[..|signs| - 1]);
    }
  }

  function SignBits(cs: nat, h: seq<seq<byte>>, s: Sign): seq<bit> {
    LowFirst(if s.ClearSign? then Pow2(cs) else s.code, WidthFor(Entries(cs, h)))
  }

  function SignsBits(cs: nat, signs: seq<Sign>): seq<bit> {
    if signs == [] then []
    else
      var before := signs[..|signs| - 1];
      SignsBits(cs, before) + SignBits(cs, Since(before), signs[|signs| - 1])
  }

  /** The codes and the end code. */
  function ImageBits(cs: nat, signs: seq<Sign>): seq<bit> {
    SignsBits(cs, signs) + LowFirst(Pow2(cs) + 1, WidthFor(Entries(cs, Since(signs))))
  }

  /** The table needs more bits than its roots. */
  lemma RootWidth(cs: nat, h: seq<seq<byte>>)
    requires 2 <= cs <= 8
    ensures Pow2(cs) + 1 < Pow2(WidthFor(Entries(cs, h)))
  {
    hide Pow2, BitLength;
    ClearedIs(cs, true);
    WidthHolds(Entries(cs, h), Pow2(cs) + 1);
  }

  /** One code that is sent is read. */
  lemma SignRead(cs: nat, data: seq<byte>, p: nat, h: seq<seq<byte>>, open: bool, s: Sign, out: seq<byte>)
    requires 2 <= cs <= 8 && NonEmpty(h) && SignOk(cs, h, s) && Carries(data, p, SignBits(cs, h, s))
    requires p + |SignBits(cs, h, s)| <= 8 * |data|
    ensures Pow2(cs) + 2 < CODE_LIMIT
    ensures RunStep(cs, CODE_LIMIT, false, data, p, DictOf(cs, h, open), out) ==
      if s.ClearSign? then Going(p + |SignBits(cs, h, s)|, DictOf(cs, [], true), out)
      else Going(p + |SignBits(cs, h, s)|, DictOf(cs, h + [s.text], true), out + s.text)
    ensures UnclearStep(cs, data, Going(p, DictOf(cs, h, open), out), |h|) == if s.ClearSign? then 0 else |h| + 1
  {
    hide Pow2, WidthFor, TableOf, Carries, Field, Entries;
    ClearedIs(cs, true);
    var w := WidthFor(Entries(cs, h));
    RootWidth(cs, h);
    if s.ClearSign? {
      FieldCarried(data, p, Pow2(cs), w);
    } else {
      SayStep(cs, h, open, s);
      FieldCarried(data, p, s.code, w);
    }
  }

  /** Codes that are sent are read. */
  lemma {:induction false} SignsRead(cs: nat, data: seq<byte>, signs: seq<Sign>)
    requires 2 <= cs <= 8 && SignsOk(cs, signs) && Carries(data, 0, SignsBits(cs, signs))
    requires |SignsBits(cs, signs)| <= 8 * |data|
    ensures NonEmpty(Since(signs)) && Pow2(cs) + 2 < CODE_LIMIT
    ensures RunTo(cs, CODE_LIMIT, false, data, |signs|) ==
      Going(|SignsBits(cs, signs)|, DictOf(cs, Since(signs), signs != []), Spoken(signs))
    ensures Unclear(cs, data, |signs|) == |Since(signs)|
  {
    hide Pow2, Carries, RunStep, SignBits, DictOf, SignOk, SignsOk, Since, Spoken, SignsBits, Unclear, UnclearStep, NonEmpty;
    SinceNonEmpty(cs, signs);
    ClearedIs(cs, false);
    if signs == [] {
      NoSigns(cs);
      CountsStart(cs, data);
    } else {
      LastSign(cs, signs);
      var n := |signs| - 1;
      var before, s := signs[..n], signs[n];
      var h := Since(before);
      CarriesParts(data, 0, SignsBits(cs, before), SignBits(cs, h, s));
      SignsRead(cs, data, before);
      SignRead(cs, data, |SignsBits(cs, before)|, h, before != [], s, Spoken(before));
      UnclearNext(cs, data, n);
    }
  }

  lemma NoSigns(cs: nat)
    ensures SignsOk(cs, []) && Since([]) == [] && Spoken([]) == [] && SignsBits(cs, []) == []
  {
  }

  lemma LastSign(cs: nat, signs: seq<Sign>)
    requires signs != [] && SignsOk(cs, signs)
    ensures var before, s := signs[..|signs| - 1], signs[|signs| - 1];
      && SignsOk(cs, before) && NonEmpty(Since(before)) && SignOk(cs, Since(before), s)
      && Since(signs) == (if s.ClearSign? then [] else Since(before) + [s.text])
      && Spoken(signs) == (if s.ClearSign? then Spoken(before) else Spoken(before) + s.text)
      && SignsBits(cs, signs) == SignsBits(cs, before) + SignBits(cs, Since(before), s)
  {
    hide SignBits, SignOk, NonEmpty;
    assert signs[|signs| - 1].ClearSign? ==> Spoken(signs[..|signs| - 1]) + [] == Spoken(signs[..|signs| - 1]);
  }

  lemma AddSign(cs: nat, before: seq<Sign>, s: Sign)
    requires SignsOk(cs, before) && NonEmpty(Since(before)) && SignOk(cs, Since(before), s)
    ensures SignsOk(cs, before + [s])
    ensures Since(before + [s]) == if s.ClearSign? then [] else Since(before) + [s.text]
    ensures Spoken(before + [s]) == Spoken(before) + if s.ClearSign? then [] else s.text
  {
    hide SignOk, NonEmpty;
    assert (before + [s])[..|before|] == before;
  }

  lemma CountsStart(cs: nat, data: seq<byte>)
    ensures Unclear(cs, data, 0) == 0
  {
  }

  /** No run of codes without a clear code is too long for the decoder. */
  predicate ShortRuns(cs: nat, signs: seq<Sign>) {
    forall k | 0 <= k <= |signs| :: |Since(signs[..k])| <= Longest(cs)
  }

  lemma {:induction false} PrefixOk(cs: nat, signs: seq<Sign>, k: nat)
    requires k <= |signs| && SignsOk(cs, signs)
    ensures SignsOk(cs, signs[..k]) && SignsBits(cs, signs[..k]) <= SignsBits(cs, signs)
  {
    hide SignBits, SignOk;
    var n := |signs| - 1;
    if k == |signs| {
      assert signs[..k] == signs;
    } else {
      PrefixOk(cs, signs[..n], k);
      assert signs[..n][..k] == signs[..k];
    }
  }

  /** What is encoded is decoded by the standard. */
  lemma ImageRead(cs: nat, data: seq<byte>, signs: seq<Sign>)
    requires 2 <= cs <= 8 && SignsOk(cs, signs) && Carries(data, 0, ImageBits(cs, signs))
    requires |ImageBits(cs, signs)| <= 8 * |data|
    ensures RunTo(cs, CODE_LIMIT, false, data, |signs| + 1) == Ended(Spoken(signs))
    ensures Decodes(cs, data, Spoken(signs))
  {
    hide Pow2, Carries, RunTo, Field, SignsBits, TableOf, WidthFor, SignsOk, Since, Spoken, Entries;
    var h := Since(signs);
    var w := WidthFor(Entries(cs, h));
    CarriesParts(data, 0, SignsBits(cs, signs), LowFirst(Pow2(cs) + 1, w));
    SignsRead(cs, data, signs);
    RootWidth(cs, h);
    FieldCarried(data, |SignsBits(cs, signs)|, Pow2(cs) + 1, w);
    RunAfter(cs, data, |signs|);
    assert RunTo(cs, CODE_LIMIT, false, data, |signs| + 1) == Ended(Spoken(signs));
  }

  lemma RunAfter(cs: nat, data: seq<byte>, n: nat)
    ensures var r := RunTo(cs, CODE_LIMIT, false, data, n);
      RunTo(cs, CODE_LIMIT, false, data, n + 1) ==
        if r.Going? then RunStep(cs, CODE_LIMIT, false, data, r.pos, r.dict, r.out) else r
  {
    hide RunStep;
  }

  lemma {:induction false} CountsStay(cs: nat, data: seq<byte>, n: nat, k: nat)
    requires n <= k && RunTo(cs, CODE_LIMIT, false, data, n).Going?
    requires RunTo(cs, CODE_LIMIT, false, data, n + 1).Ended?
    ensures Unclear(cs, data, k) == Unclear(cs, data, n)
    decreases k
  {
    hide RunTo, Unclear;
    if k == n {
    } else {
      CountsStay(cs, data, n, k - 1);
      Stopped(cs, CODE_LIMIT, false, data, n + 1, k);
      LastUnclear(cs, data, k - 1);
    }
  }

  /** If it begins with a clear code and has no overlong run without one, the decoder accepts it. */
  lemma ImageAccepted(cs: nat, data: seq<byte>, signs: seq<Sign>)
    requires 2 <= cs <= 8 && SignsOk(cs, signs) && Carries(data, 0, ImageBits(cs, signs))
    requires |ImageBits(cs, signs)| <= 8 * |data|
    requires signs != [] && signs[0].ClearSign? && ShortRuns(cs, signs)
    ensures Accepted(cs, data) && Decodes(cs, data, Spoken(signs))
  {
    hide Pow2, Carries, RunTo, Unclear, SignsBits, SignsOk, Since, Spoken, Decodes, ClearsFirst, Longest, DictOf;
    ImageRead(cs, data, signs);
    var n := |signs|;
    BeginsClear(cs, data, signs);
    assert signs[..n] == signs;
    forall k: nat
      ensures Unclear(cs, data, k) <= Longest(cs)
    {
      var m := if k <= n then k else n;
      PrefixRead(cs, data, signs, m);
      assert |Since(signs[..m])| <= Longest(cs);
      if k > n {
        CountsStay(cs, data, n, k);
      }
    }
  }

  lemma PrefixRead(cs: nat, data: seq<byte>, signs: seq<Sign>, k: nat)
    requires 2 <= cs <= 8 && k <= |signs| && SignsOk(cs, signs) && Carries(data, 0, ImageBits(cs, signs))
    requires |ImageBits(cs, signs)| <= 8 * |data|
    ensures RunTo(cs, CODE_LIMIT, false, data, k).Going? && Unclear(cs, data, k) == |Since(signs[..k])|
  {
    hide Pow2, Carries, RunTo, Unclear, SignsBits, SignsOk, Since, DictOf, ImageBits;
    PrefixCarried(cs, data, signs, k);
    SignsRead(cs, data, signs[..k]);
  }

  lemma PrefixCarried(cs: nat, data: seq<byte>, signs: seq<Sign>, k: nat)
    requires k <= |signs| && SignsOk(cs, signs) && Carries(data, 0, ImageBits(cs, signs))
    ensures SignsOk(cs, signs[..k]) && Carries(data, 0, SignsBits(cs, signs[..k]))
    ensures |SignsBits(cs, signs[..k])| <= |ImageBits(cs, signs)|
  {
    hide Carries, SignsBits, SignsOk, Entries, WidthFor, Since, LowFirst;
    PrefixOk(cs, signs, k);
    var s, all := SignsBits(cs, signs[..k]), ImageBits(cs, signs);
    assert all == s + all[|s|..];
    CarriesParts(data, 0, s, all[|s|..]);
  }

  lemma BeginsClear(cs: nat, data: seq<byte>, signs: seq<Sign>)
    requires 2 <= cs <= 8 && SignsOk(cs, signs) && Carries(data, 0, ImageBits(cs, signs))
    requires signs != [] && signs[0].ClearSign?
    ensures ClearsFirst(cs, data)
  {
    hide Pow2, Carries, Field, SignsBits, SignsOk, Entries, WidthFor, ImageBits, LowFirst;
    PrefixCarried(cs, data, signs, 1);
    assert signs[..1] == [signs[0]];
    FirstSign(cs, signs[0]);
    RootWidth(cs, []);
    FieldCarried(data, 0, Pow2(cs), cs + 1);
  }

  lemma FirstSign(cs: nat, s: Sign)
    requires 2 <= cs <= 8 && s.ClearSign?
    ensures SignsBits(cs, [s]) == LowFirst(Pow2(cs), WidthFor(Entries(cs, []))) && WidthFor(Entries(cs, [])) == cs + 1
  {
    hide Pow2, BitLength, TableOf;
    ClearedIs(cs, true);
    assert [s][..0] == [];
    assert SignsBits(cs, []) == [];
  }

  // ---------------------------------------------------------------------------------------
  // Every text has such a code

  /** Each index by itself, with a clear code before it. */
  function Singly(text: seq<byte>): (signs: seq<Sign>)
  {
    if text == [] then [] else Singly(text[..|text| - 1]) + [ClearSign] + [Say([text[|text| - 1]], text[|text| - 1])]
  }

  lemma {:induction false} SinglyOk(cs: nat, text: seq<byte>)
    requires forall i | 0 <= i < |text| :: text[i] < Pow2(cs)
    ensures SignsOk(cs, Singly(text)) && Spoken(Singly(text)) == text
  {
    hide Pow2, SignsOk, Since, Spoken, IsEntry;
    if text == [] {
      NoSigns(cs);
    } else {
      var n := |text| - 1;
      SinglyOk(cs, text[..n]);
      var before, s := Singly(text[..n]), Say([text[n]], text[n]);
      SinceNonEmpty(cs, before);
      AddSign(cs, before, ClearSign);
      RootIsEntry(cs, text[n]);
      AddSign(cs, before + [ClearSign], s);
      assert text[..n] + [] + [text[n]] == text;
    }
  }

  lemma RootIsEntry(cs: nat, b: byte)
    requires b < Pow2(cs)
    ensures NonEmpty([]) && SignOk(cs, [], Say([b], b))
  {
    assert [] + [[b]] == [[b]];
  }
}
