/** The variable-length LZW code of GIF (appendix F of GIF89a): a plain table of strings, and
    the table the decoder keeps, which goes on growing after the standard one is full. */
module Lzw {
  import opened BitStream

  const CODE_LIMIT: nat := 4096
  const LINKS: nat := 8192

  datatype Dict = Dict(table: seq<seq<byte>>, width: nat, prev: seq<byte>, open: bool)

  datatype Step = Bad | End | Clear(dict: Dict) | Emit(text: seq<byte>, dict: Dict)

  function Roots(n: nat): (t: seq<seq<byte>>)
    ensures |t| == n && forall i | 0 <= i < n :: t[i] == [i % 256]
  {
    if n == 0 then [] else Roots(n - 1) + [[(n - 1) % 256]]
  }

  /** The table after a clear code: the roots, and the clear and end codes, which have no string. */
  function Cleared(cs: nat, open: bool): Dict {
    Dict(Roots(Pow2(cs)) + [[], []], cs + 1, [], open)
  }

  /** The string of a code: an entry of the table, or the entry about to be made. */
  function TextOf(d: Dict, code: nat): seq<byte>
    requires d.prev != []
  {
    if code < |d.table| then d.table[code] else d.prev + [d.prev[0]]
  }

  /** The code width after the table has come to hold n entries. */
  function Widened(n: nat, width: nat): nat {
    if LowBits(n, width) == 0 && n < CODE_LIMIT then width + 1 else width
  }

  function Grown(table: seq<seq<byte>>, width: nat, text: seq<byte>): Dict {
    Dict(table, Widened(|table|, width), text, true)
  }

  /** One code, with a table that holds at most limit entries.  By the standard a code may come
      before any clear code, and a full table just stops growing; a strict decoder gives up in
      both cases. */
  function CodeStep(cs: nat, limit: nat, strict: bool, d: Dict, code: nat): Step {
    if code == Pow2(cs) then Clear(Cleared(cs, true))
    else if code == Pow2(cs) + 1 then End
    else if strict && !d.open then Bad
    else if d.prev == [] then
      if code < Pow2(cs) && code < |d.table| then Emit(d.table[code], Grown(d.table, d.width, d.table[code])) else Bad
    else if code > |d.table| || TextOf(d, code) == [] then Bad
    else
      var text := TextOf(d, code);
      if |d.table| < limit then Emit(text, Grown(d.table + [d.prev + [text[0]]], d.width, text))
      else if strict then Bad
      else Emit(text, Grown(d.table, d.width, text))
  }

  datatype Run = Failed | Ended(out: seq<byte>) | Going(pos: nat, dict: Dict, out: seq<byte>)

  /** Reads and interprets one code of the data; running out of data ends the image. */
  function RunStep(cs: nat, limit: nat, strict: bool, data: seq<byte>, pos: nat, d: Dict, out: seq<byte>): Run {
    if pos + d.width > 8 * |data| then Ended(out)
    else
      match CodeStep(cs, limit, strict, d, Field(data, pos, d.width))
      case Bad => Failed
      case End => Ended(out)
      case Clear(d') => Going(pos + d.width, d', out)
      case Emit(text, d') => Going(pos + d.width, d', out + text)
  }

  /** The state after n codes. */
  function RunTo(cs: nat, limit: nat, strict: bool, data: seq<byte>, n: nat): Run {
    if n == 0 then Going(0, Cleared(cs, false), [])
    else
      match RunTo(cs, limit, strict, data, n - 1)
      case Going(pos, d, out) => RunStep(cs, limit, strict, data, pos, d, out)
      case stopped => stopped
  }

  /** The image data decode to out by the standard: the table stops growing at 4096 entries. */
  ghost predicate Decodes(cs: nat, data: seq<byte>, out: seq<byte>) {
    exists n: nat :: RunTo(cs, CODE_LIMIT, false, data, n) == Ended(out)
  }

  // ---------------------------------------------------------------------------------------
  // The decoder's larger table

  function Cap(d: Dict): Dict {
    d.(table := if |d.table| <= CODE_LIMIT then d.table else d.table[..CODE_LIMIT])
  }

  /** What holds of the decoder's table for the code sizes of GIF. */
  ghost predicate DictInv(cs: nat, d: Dict) {
    && Pow2(cs) + 2 <= |d.table| <= LINKS
    && d.width <= 12
    && (|d.table| < Pow2(d.width) || |d.table| >= CODE_LIMIT)
    && (d.prev != [] ==> d.open)
  }

  lemma SizeBounds(cs: nat)
    requires 2 <= cs <= 8
    ensures 4 <= Pow2(cs) <= 256 && Pow2(cs) + 2 < Pow2(cs + 1)
  {
    Pow2Mono(2, cs);
    Pow2Mono(cs, 8);
    assert Pow2(2) == 4 && Pow2(8) == 256;
  }

  /** The width grows exactly when the table reaches a power of two below the limit. */
  lemma WidthGrows(n: nat, width: nat)
    requires width <= 12 && 0 < n <= Pow2(width)
    ensures Widened(n, width) == if n == Pow2(width) && width < 12 then width + 1 else width
  {
    hide Pow2;
    TwelveBits();
    var p := Pow2(width);
    Pow2Mono(width, 12);
    if width < 12 {
      Pow2Mono(width, 11);
      TwiceElevenBits();
    }
    if n < p {
      LowBitsSmall(n, width);
    } else {
      LowBitsNext(0, width);
      LowBitsSmall(0, width);
    }
  }

  lemma TwiceElevenBits()
    ensures 2 * Pow2(11) == CODE_LIMIT
  {
    TwelveBits();
    assert Pow2(12) == 2 * Pow2(11);
  }

  lemma WidthMax(n: nat, width: nat)
    requires 0 < n && width <= 13
    ensures width <= Widened(n, width) <= 13
  {
    if width == 13 && n < CODE_LIMIT {
      TwelveBits();
      Pow2Mono(12, 13);
      LowBitsSmall(n, 13);
    }
  }

  lemma WidthFull(n: nat, width: nat)
    requires n >= CODE_LIMIT
    ensures Widened(n, width) == width
  {
  }

  /** On codes of at most twelve bits the larger table gives what the standard one gives,
      until it overflows; then the decoder gives up although the standard goes on. */
  lemma StepAgrees(cs: nat, d: Dict, code: nat)
    requires 2 <= cs <= 8 && DictInv(cs, d) && code < Pow2(d.width)
    ensures var s := CodeStep(cs, LINKS, true, d, code);
      var r := CodeStep(cs, CODE_LIMIT, false, Cap(d), code);
      match s
      case Bad => r.Bad? || !d.open || (r.Emit? && |d.table| == LINKS && d.prev != [])
      case End => r.End?
      case Clear(d') => r == Clear(Cap(d')) && DictInv(cs, d')
      case Emit(text, d') => r == Emit(text, Cap(d')) && DictInv(cs, d')
  {
    hide Pow2, Roots;
    SizeBounds(cs);
    Pow2Mono(d.width, 12);
    assert Pow2(12) == CODE_LIMIT by { TwelveBits(); }
    ClearedInv(cs);
    if d.open && code != Pow2(cs) && code != Pow2(cs) + 1 {
      if d.prev == [] {
        GrownInv(cs, d.table, d.width, d.table[if code < |d.table| then code else 0]);
      } else if code <= |d.table| && TextOf(d, code) != [] && |d.table| < LINKS {
        var text := TextOf(d, code);
        GrownInv(cs, d.table + [d.prev + [text[0]]], d.width, text);
      }
    }
  }

  lemma TwelveBits()
    ensures Pow2(12) == CODE_LIMIT
  {
    assert Pow2(6) == 64;
    ShiftPow2(6, 6);
    assert ShiftLeft(64, 6) == 4096;
  }

  lemma RootsFit(cs: nat)
    requires cs <= 12
    ensures Pow2(cs) + 2 <= LINKS
  {
    hide Pow2;
    Pow2Mono(cs, 12);
    TwelveBits();
  }

  lemma ClearedInv(cs: nat)
    requires 2 <= cs <= 8
    ensures DictInv(cs, Cleared(cs, true)) && Cap(Cleared(cs, true)) == Cleared(cs, true)
    ensures DictInv(cs, Cleared(cs, false)) && Cap(Cleared(cs, false)) == Cleared(cs, false)
  {
    SizeBounds(cs);
  }

  lemma GrownInv(cs: nat, table: seq<seq<byte>>, width: nat, text: seq<byte>)
    requires Pow2(cs) + 2 <= |table| <= LINKS && width <= 12
    requires |table| <= Pow2(width) || |table| >= CODE_LIMIT
    ensures DictInv(cs, Grown(table, width, text))
    ensures var t := if |table| <= CODE_LIMIT then table else table[..CODE_LIMIT];
      Cap(Grown(table, width, text)) == Grown(t, width, text)
  {
    TwelveBits();
    if |table| <= Pow2(width) {
      WidthGrows(|table|, width);
    } else {
      WidthFull(|table|, width);
    }
    if |table| > CODE_LIMIT {
      WidthFull(|table|, width);
      WidthFull(CODE_LIMIT, width);
    }
  }

  // ---------------------------------------------------------------------------------------
  // Which data the decoder refuses although the standard decodes them

  /** The first code, if there is one, is a clear code (or the end code). */
  predicate ClearsFirst(cs: nat, data: seq<byte>) {
    cs + 1 <= 8 * |data| ==> Field(data, 0, cs + 1) == Pow2(cs) || Field(data, 0, cs + 1) == Pow2(cs) + 1
  }

  /** How many of the first n codes have a string and come after the last clear code. */
  function Unclear(cs: nat, data: seq<byte>, n: nat): nat {
    if n == 0 then 0
    else UnclearStep(cs, data, RunTo(cs, CODE_LIMIT, false, data, n - 1), Unclear(cs, data, n - 1))
  }

  function UnclearStep(cs: nat, data: seq<byte>, r: Run, before: nat): nat {
    if !r.Going? || r.pos + r.dict.width > 8 * |data| then before
    else
      match CodeStep(cs, CODE_LIMIT, false, r.dict, Field(data, r.pos, r.dict.width))
      case Clear(_) => 0
      case Emit(_, _) => before + 1
      case _ => before
  }

  /** How many codes with a string the decoder takes without a clear code. */
  function Longest(cs: nat): int {
    LINKS - (Pow2(cs) + 2) + 1
  }

  /** Somewhere more of them follow each other. */
  ghost predicate Overflows(cs: nat, data: seq<byte>) {
    exists n: nat :: Unclear(cs, data, n) > Longest(cs)
  }

  /** The data decode by the standard, begin with a clear code and do not go on for too long without
      another one. */
  ghost predicate Accepted(cs: nat, data: seq<byte>) {
    (exists out :: Decodes(cs, data, out)) && ClearsFirst(cs, data) && !Overflows(cs, data)
  }

  /** The decoder's table holds one entry for each code since the last clear code, except the first. */
  ghost predicate Counted(cs: nat, d: Dict, unclear: nat) {
    if d.prev == [] then unclear == 0 && d.table == Roots(Pow2(cs)) + [[], []]
    else unclear > 0 && |d.table| == Pow2(cs) + 2 + unclear - 1
  }

  lemma StepCounts(cs: nat, d: Dict, code: nat, unclear: nat)
    requires Counted(cs, d, unclear)
    ensures var s := CodeStep(cs, LINKS, true, d, code);
      (s.Clear? ==> Counted(cs, s.dict, 0) && s.dict.open) && (s.Emit? ==> Counted(cs, s.dict, unclear + 1) && s.dict.open)
  {
    hide Pow2, Widened;
  }

  lemma CountedStart(cs: nat)
    ensures Counted(cs, Cleared(cs, false), 0)
  {
  }

  /** Until the decoder gives up, its run is the standard one, and its table grows with every code.
      When it gives up there is a reason in the data. */
  lemma {:induction false} RunAgrees(cs: nat, data: seq<byte>, n: nat)
    requires 2 <= cs <= 8
    ensures var u := RunTo(cs, LINKS, true, data, n);
      var r := RunTo(cs, CODE_LIMIT, false, data, n);
      (u.Going? ==>
        r == Going(u.pos, Cap(u.dict), u.out) && DictInv(cs, u.dict) && Counted(cs, u.dict, Unclear(cs, data, n))
        && (n > 0 ==> u.dict.open))
      && (u.Ended? ==> r == u)
      && (u.Failed? ==> r.Failed? || !ClearsFirst(cs, data) || Overflows(cs, data))
  {
    hide CodeStep, Cleared, DictInv, Counted, Cap, ClearsFirst, Unclear, UnclearStep, Overflows, RunStep;
    if n == 0 {
      ClearedInv(cs);
      CountedStart(cs);
      UnclearStart(cs, data);
    } else {
      RunAgrees(cs, data, n - 1);
      var u := RunTo(cs, LINKS, true, data, n - 1);
      if u.Going? {
        NextAgrees(cs, data, n - 1, u);
      }
    }
  }

  lemma UnclearStart(cs: nat, data: seq<byte>)
    ensures Unclear(cs, data, 0) == 0
  {
  }

  /** One code of both runs. */
  lemma NextAgrees(cs: nat, data: seq<byte>, n: nat, u: Run)
    requires 2 <= cs <= 8 && u == RunTo(cs, LINKS, true, data, n) && u.Going?
    requires RunTo(cs, CODE_LIMIT, false, data, n) == Going(u.pos, Cap(u.dict), u.out)
    requires DictInv(cs, u.dict) && Counted(cs, u.dict, Unclear(cs, data, n)) && (n > 0 ==> u.dict.open)
    ensures var v := RunStep(cs, LINKS, true, data, u.pos, u.dict, u.out);
      var r := RunStep(cs, CODE_LIMIT, false, data, u.pos, Cap(u.dict), u.out);
      (v.Going? ==>
        r == Going(v.pos, Cap(v.dict), v.out) && DictInv(cs, v.dict) && Counted(cs, v.dict, Unclear(cs, data, n + 1))
        && v.dict.open)
      && (v.Ended? ==> r == v)
      && (v.Failed? ==> r.Failed? || !ClearsFirst(cs, data) || Overflows(cs, data))
  {
    hide CodeStep, Cleared, DictInv, Counted, ClearsFirst, Overflows, RunTo, Unclear, Field;
    UnclearNext(cs, data, n);
    if u.pos + u.dict.width <= 8 * |data| {
      var code := Field(data, u.pos, u.dict.width);
      StepAgrees(cs, u.dict, code);
      StepCounts(cs, u.dict, code, Unclear(cs, data, n));
      if CodeStep(cs, LINKS, true, u.dict, code).Bad? {
        Reason(cs, data, n, u, code);
      }
    }
  }

  lemma UnclearNext(cs: nat, data: seq<byte>, n: nat)
    ensures Unclear(cs, data, n + 1)
         == UnclearStep(cs, data, RunTo(cs, CODE_LIMIT, false, data, n), Unclear(cs, data, n))
  {
    hide UnclearStep, RunTo;
  }

  /** Why the decoder gives up. */
  lemma Reason(cs: nat, data: seq<byte>, n: nat, u: Run, code: nat)
    requires 2 <= cs <= 8 && u == RunTo(cs, LINKS, true, data, n) && u.Going?
    requires u.pos + u.dict.width <= 8 * |data| && code == Field(data, u.pos, u.dict.width)
    requires RunTo(cs, CODE_LIMIT, false, data, n) == Going(u.pos, Cap(u.dict), u.out)
    requires Counted(cs, u.dict, Unclear(cs, data, n)) && (n > 0 ==> u.dict.open)
    requires CodeStep(cs, LINKS, true, u.dict, code).Bad?
    requires var r := CodeStep(cs, CODE_LIMIT, false, Cap(u.dict), code);
      r.Bad? || !u.dict.open || (r.Emit? && |u.dict.table| == LINKS && u.dict.prev != [])
    ensures CodeStep(cs, CODE_LIMIT, false, Cap(u.dict), code).Bad? || !ClearsFirst(cs, data) || Overflows(cs, data)
  {
    hide Field, Pow2, Unclear, Roots;
    if !u.dict.open {
      FirstClear(cs, data);
    } else if !CodeStep(cs, CODE_LIMIT, false, Cap(u.dict), code).Bad? {
      UnclearNext(cs, data, n);
      assert Unclear(cs, data, n + 1) > Longest(cs);
    }
  }

  /** The decoder gives up at once if the first code is neither a clear nor the end code. */
  lemma FirstClear(cs: nat, data: seq<byte>)
    ensures RunTo(cs, LINKS, true, data, 0) == Going(0, Cleared(cs, false), [])
    ensures RunStep(cs, LINKS, true, data, 0, Cleared(cs, false), []).Failed? <==> !ClearsFirst(cs, data)
  {
    hide Field, Pow2, Roots;
  }

  /** Once a run has stopped it stays as it is. */
  lemma {:induction false} Stopped(cs: nat, limit: nat, strict: bool, data: seq<byte>, n: nat, m: nat)
    requires n <= m && !RunTo(cs, limit, strict, data, n).Going?
    ensures RunTo(cs, limit, strict, data, m) == RunTo(cs, limit, strict, data, n)
    decreases m
  {
    hide RunStep, Cleared;
    if n == m {
    } else {
      Stopped(cs, limit, strict, data, n, m - 1);
    }
  }

  /** A run that gives up has a reason for it in the data. */
  lemma Refused(cs: nat, data: seq<byte>, n: nat)
    requires 2 <= cs <= 8 && RunTo(cs, LINKS, true, data, n).Failed?
    ensures !Accepted(cs, data)
  {
    hide RunTo, ClearsFirst, Overflows, DictInv, Cap, Counted;
    RunAgrees(cs, data, n);
    if RunTo(cs, CODE_LIMIT, false, data, n).Failed? {
      forall out, k: nat
        ensures RunTo(cs, CODE_LIMIT, false, data, k) != Ended(out)
      {
        if k <= n && RunTo(cs, CODE_LIMIT, false, data, k) == Ended(out) {
          Stopped(cs, CODE_LIMIT, false, data, k, n);
        } else if n <= k {
          Stopped(cs, CODE_LIMIT, false, data, n, k);
        }
      }
    }
  }

  /** A run that ends gives what the standard does, and has no reason to give up. */
  lemma Delivered(cs: nat, data: seq<byte>, n: nat, out: seq<byte>)
    requires 2 <= cs <= 8 && RunTo(cs, LINKS, true, data, n) == Ended(out)
    ensures Decodes(cs, data, out) && Accepted(cs, data)
  {
    hide RunTo, ClearsFirst, Unclear, DictInv, Cap, Counted, Longest, RunStep, Cleared;
    RunAgrees(cs, data, n);
    assert Decodes(cs, data, out);
    NotFailed(cs, data, n, 1);
    FirstClear(cs, data);
    StrictFirst(cs, data);
    forall k: nat
      ensures Unclear(cs, data, k) <= Longest(cs)
    {
      NotTooLong(cs, data, n, k);
    }
  }

  lemma StrictFirst(cs: nat, data: seq<byte>)
    ensures RunTo(cs, LINKS, true, data, 1) == RunStep(cs, LINKS, true, data, 0, Cleared(cs, false), [])
  {
    hide RunStep, Cleared;
    var one: nat := 1;
    assert RunTo(cs, LINKS, true, data, one - 1) == Going(0, Cleared(cs, false), []);
  }

  lemma NotFailed(cs: nat, data: seq<byte>, n: nat, k: nat)
    requires RunTo(cs, LINKS, true, data, n).Ended?
    ensures !RunTo(cs, LINKS, true, data, k).Failed?
  {
    hide RunTo;
    if k <= n {
      if RunTo(cs, LINKS, true, data, k).Failed? {
        Stopped(cs, LINKS, true, data, k, n);
      }
    } else {
      Stopped(cs, LINKS, true, data, n, k);
    }
  }

  lemma {:induction false} NotTooLong(cs: nat, data: seq<byte>, n: nat, k: nat)
    requires 2 <= cs <= 8 && RunTo(cs, LINKS, true, data, n).Ended?
    ensures Unclear(cs, data, k) <= Longest(cs)
    decreases k
  {
    hide RunTo, RunStep, Unclear, CodeStep, Cap, Roots, Field, Pow2;
    NotFailed(cs, data, n, k);
    RunAgrees(cs, data, k);
    var u := RunTo(cs, LINKS, true, data, k);
    if u.Going? {
      SizeBounds(cs);
    } else if k == 0 {
      FirstClear(cs, data);
    } else {
      NotTooLong(cs, data, n, k - 1);
      LastUnclear(cs, data, k - 1);
    }
  }

  /** Ending adds no code with a string. */
  lemma LastUnclear(cs: nat, data: seq<byte>, n: nat)
    requires RunTo(cs, CODE_LIMIT, false, data, n + 1).Ended?
    ensures Unclear(cs, data, n + 1) == Unclear(cs, data, n)
  {
    hide CodeStep, Unclear, Field;
    UnclearNext(cs, data, n);
  }
}
