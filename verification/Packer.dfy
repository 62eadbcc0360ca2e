/** The packed text files: every character as a decimal number followed by an x, taken for
    base64 when it is written to disk. */
module Packer {
  import opened BitStream
  import Base64

  // Text is a sequence of UTF-16 units.
  type Unit = x: int | 0 <= x < 0x1_0000

  predicate High(u: Unit) {
    0xD800 <= u < 0xDC00
  }

  predicate Low(u: Unit) {
    0xDC00 <= u < 0xE000
  }

  /** Whether two units that follow each other are one character. */
  predicate PairAt(text: seq<Unit>, i: nat) {
    i + 1 < |text| && High(text[i]) && Low(text[i + 1])
  }

  // ---------------------------------------------------------------------------------------
  // Numbers

  function Digit(n: nat): char
    requires n < 10
  {
    '0' + n as char
  }

  predicate IsDigit(c: char) {
    '0' <= c <= '9'
  }

  function DigitValue(c: char): nat
    requires IsDigit(c)
  {
    (c - '0') as int
  }

  function Decimal(n: nat): (s: string)
    ensures |s| > 0 && forall c | c in s :: IsDigit(c)
  {
    if n < 10 then [Digit(n)] else Decimal(n / 10) + [Digit(n % 10)]
  }

  /** The digits a string begins with. */
  function Leading(s: string): (d: string)
    ensures forall c | c in d :: IsDigit(c)
  {
    if s == [] || !IsDigit(s[0]) then [] else [s[0]] + Leading(s[1..])
  }

  function Number(d: string): nat
    requires forall k | 0 <= k < |d| :: IsDigit(d[k])
  {
    if d == [] then 0 else 10 * Number(d[..|d| - 1]) + DigitValue(d[|d| - 1])
  }

  /** The unit a token stands for: its leading number, or zero if it has none. */
  function UnitOf(token: string): Unit {
    if Leading(token) == [] then 0 else Number(Leading(token)) % 0x1_0000
  }

  lemma {:induction false} NumberOfDecimal(n: nat)
    ensures Number(Decimal(n)) == n
  {
    if n < 10 {
    } else {
      NumberOfDecimal(n / 10);
      assert Decimal(n)[..|Decimal(n)| - 1] == Decimal(n / 10);
    }
  }

  lemma {:induction false} LeadingOf(d: string, rest: string)
    requires (forall c | c in d :: IsDigit(c)) && (rest == [] || !IsDigit(rest[0]))
    ensures Leading(d + rest) == d
  {
    if d == [] {
      assert d + rest == rest;
    } else {
      assert (d + rest)[1..] == d[1..] + rest;
      LeadingOf(d[1..], rest);
    }
  }

  lemma UnitOfDecimal(u: Unit, rest: string)
    requires rest == [] || !IsDigit(rest[0])
    ensures UnitOf(Decimal(u) + rest) == u
  {
    LeadingOf(Decimal(u), rest);
    NumberOfDecimal(u);
  }

  // ---------------------------------------------------------------------------------------
  // Packing

  /** The first unit of every character. */
  function Codes(text: seq<Unit>): seq<Unit> {
    if text == [] then []
    else if PairAt(text, 0) then [text[0]] + Codes(text[2..])
    else [text[0]] + Codes(text[1..])
  }

  function Joined(codes: seq<Unit>): string {
    if codes == [] then "" else Joined(codes[..|codes| - 1]) + Decimal(codes[|codes| - 1]) + "x"
  }

  function Packed(text: seq<Unit>): string {
    var s := Joined(Codes(text));
    if |s| % 2 != 0 then s + "x" else s
  }

  /** Packs text, character by character. */
  method CreatePacked(text: seq<Unit>) returns (fin: string)
    ensures fin == Packed(text)
  {
    hide Codes, Joined, Decimal, PairAt;
    fin := "";
    var i := 0;
    ghost var codes: seq<Unit> := [];
    NoCodes();
    assert text[0..] == text && [] + Codes(text) == Codes(text);
    while i < |text|
      invariant 0 <= i <= |text|
      invariant fin == Joined(codes) && codes + Codes(text[i..]) == Codes(text)
    {
      NextCode(text, i, codes);
      codes := codes + [text[i]];
      fin := fin + Decimal(text[i]) + "x";
      i := if PairAt(text, i) then i + 2 else i + 1;
    }
    assert text[i..] == [] && codes + [] == codes;
    if |fin| % 2 != 0 {
      fin := fin + "x";
    }
  }

  lemma NoCodes()
    ensures Joined([]) == "" && Codes([]) == []
  {
  }

  lemma NextCode(text: seq<Unit>, i: nat, codes: seq<Unit>)
    requires i < |text|
    ensures Joined(codes + [text[i]]) == Joined(codes) + Decimal(text[i]) + "x"
    ensures PairAt(text, i) ==> i + 2 <= |text|
    ensures codes + Codes(text[i..]) == codes + [text[i]] + Codes(text[if PairAt(text, i) then i + 2 else i + 1..])
  {
    hide Decimal;
    assert (codes + [text[i]])[..|codes|] == codes;
    var rest := text[i..];
    assert PairAt(rest, 0) == PairAt(text, i);
    assert rest[1..] == text[i + 1..];
    if PairAt(text, i) {
      assert rest[2..] == text[i + 2..];
    }
  }

  // ---------------------------------------------------------------------------------------
  // Unpacking

  /** The strings between the x. */
  function Tokens(s: string): (t: seq<string>)
    ensures |t| > 0
  {
    if s == [] then [""]
    else if s[0] == 'x' then [""] + Tokens(s[1..])
    else
      var t := Tokens(s[1..]);
      [[s[0]] + t[0]] + t[1..]
  }

  function Units(tokens: seq<string>): seq<Unit> {
    if tokens == [] then [] else Units(tokens[..|tokens| - 1]) + [UnitOf(tokens[|tokens| - 1])]
  }

  function NonZero(units: seq<Unit>): seq<Unit> {
    if units == [] then []
    else if units[0] == 0 then NonZero(units[1..])
    else [units[0]] + NonZero(units[1..])
  }

  function Unpacked(s: string): seq<Unit> {
    NonZero(Units(Tokens(s)))
  }

  /** Unpacks text, token by token. */
  method UnpackChars(s: string) returns (text: seq<Unit>)
    ensures text == Unpacked(s)
  {
    text := [];
    var tokens := Tokens(s);
    for i := 0 to |tokens|
      invariant text == Units(tokens[..i])
    {
      assert tokens[..i + 1][..i] == tokens[..i];
      text := text + [UnitOf(tokens[i])];
    }
    assert tokens[..|tokens|] == tokens;
    text := NonZero(text);
  }

  lemma {:induction false} TokenThenRest(d: string, rest: string)
    requires 'x' !in d
    ensures Tokens(d + "x" + rest) == [d] + Tokens(rest)
  {
    var s := d + "x" + rest;
    if d == [] {
      assert s[1..] == rest;
    } else {
      assert s[1..] == d[1..] + "x" + rest && s[0] == d[0];
      TokenThenRest(d[1..], rest);
      var t := Tokens(s[1..]);
      assert t[1..] == Tokens(rest) && [d[0]] + d[1..] == d;
    }
  }

  lemma {:induction false} OneToken(s: string)
    requires 'x' !in s
    ensures Tokens(s) == [s]
  {
    if s == [] {
    } else {
      OneToken(s[1..]);
      assert [s[0]] + s[1..] == s;
    }
  }

  lemma {:induction false} UnitsJoin(a: seq<string>, b: seq<string>)
    ensures Units(a + b) == Units(a) + Units(b)
  {
    if b == [] {
      assert a + b == a;
    } else {
      var n := |b| - 1;
      assert (a + b)[..|a + b| - 1] == a + b[..n];
      UnitsJoin(a, b[..n]);
    }
  }

  /** The tokens of packed codes, whatever follows them, are the codes. */
  lemma {:induction false} UnitsOfJoined(codes: seq<Unit>, rest: string)
    ensures Units(Tokens(Joined(codes) + rest)) == codes + Units(Tokens(rest))
  {
    if codes == [] {
      assert "" + rest == rest;
    } else {
      var n := |codes| - 1;
      var u := codes[n];
      assert Joined(codes) + rest == Joined(codes[..n]) + (Decimal(u) + "x" + rest);
      UnitsOfJoined(codes[..n], Decimal(u) + "x" + rest);
      TokenThenRest(Decimal(u), rest);
      UnitsJoin([Decimal(u)], Tokens(rest));
      UnitOfDecimal(u, "");
      assert Decimal(u) + "" == Decimal(u);
      assert Units([Decimal(u)]) == [u];
    }
  }

  // ---------------------------------------------------------------------------------------
  // Through the disk

  /** Writes packed text: its characters are taken for base64. */
  method Store(text: seq<Unit>) returns (disk: seq<byte>)
    ensures Base64.AllDigits(Packed(text)) && disk == Base64.Decode(Packed(text))
  {
    var fin := CreatePacked(text);
    PackedDigits(text);
    disk := Base64.Decode(fin);
  }

  /** Reads packed text: the bytes come back as base64. */
  method Load(disk: seq<byte>) returns (text: seq<Unit>)
    ensures text == Unpacked(Base64.Encode(disk))
  {
    text := UnpackChars(Base64.Encode(disk));
  }

  lemma {:induction false} JoinedDigits(codes: seq<Unit>)
    ensures forall k | 0 <= k < |Joined(codes)| :: IsDigit(Joined(codes)[k]) || Joined(codes)[k] == 'x'
  {
    hide Decimal, IsDigit;
    if codes == [] {
    } else {
      JoinedDigits(codes[..|codes| - 1]);
    }
  }

  lemma PackedDigits(text: seq<Unit>)
    ensures |Packed(text)| % 2 == 0 && Base64.AllDigits(Packed(text))
  {
    JoinedDigits(Codes(text));
  }

  lemma {:induction false} NonZeroJoin(a: seq<Unit>, b: seq<Unit>)
    ensures NonZero(a + b) == NonZero(a) + NonZero(b)
  {
    if a == [] {
      assert a + b == b;
    } else {
      assert (a + b)[1..] == a[1..] + b;
      NonZeroJoin(a[1..], b);
    }
  }

  /** The ends of a packed text that stand for nothing. */
  lemma EmptyEnds()
    ensures NonZero(Units(Tokens(""))) == [] && NonZero(Units(Tokens("x"))) == [] && NonZero(Units(Tokens("w=="))) == []
  {
    assert Units([""]) == [0] && NonZero([0]) == [];
    TokenThenRest("", "");
    assert "" + "x" + "" == "x";
    UnitsJoin([""], [""]);
    NonZeroJoin([0], [0]);
    OneToken("w==");
    assert Units(["w=="]) == [0];
  }

  /** The last x loses its lower bits on disk. */
  lemma LastX(s: string)
    requires |s| > 0 && |s| % 2 == 0 && |s| % 4 == 2 && s[|s| - 1] == 'x' && Base64.AllDigits(s)
    ensures Base64.Again(s) == s[..|s| - 1] + "w=="
  {
    assert Base64.ValueOf('x') == 49 && Base64.CharOf(48) == 'w';
  }

  lemma EndsInX(codes: seq<Unit>)
    requires codes != []
    ensures var n := |codes| - 1; var s := Joined(codes);
      |s| > 0 && s[|s| - 1] == 'x' && s[..|s| - 1] == Joined(codes[..n]) + Decimal(codes[n])
  {
    hide Decimal;
    var n := |codes| - 1;
    assert Joined(codes) == Joined(codes[..n]) + Decimal(codes[n]) + "x";
  }

  /** What comes back from disk: the first unit of every character, without zeros. */
  lemma OnDisk(text: seq<Unit>)
    ensures Base64.AllDigits(Packed(text))
    ensures Unpacked(Base64.Encode(Base64.Decode(Packed(text)))) == NonZero(Codes(text))
  {
    hide *;
    var codes, p := Codes(text), Packed(text);
    PackedDigits(text);
    Base64.DecodeEncode(p);
    PackedIs(text);
    UnpackedIs(Base64.Again(p));
    if |p| % 4 == 0 {
      WholeGroups(p);
      EmptyEnds();
      Rest(codes, p[|Joined(codes)|..]);
    } else {
      HalfGroup(codes, p);
    }
  }

  lemma UnpackedIs(s: string)
    ensures Unpacked(s) == NonZero(Units(Tokens(s)))
  {
  }

  lemma PackedIs(text: seq<Unit>)
    ensures var s, p := Joined(Codes(text)), Packed(text);
      s <= p && p == s + p[|s|..] && (p[|s|..] == "" || p[|s|..] == "x")
  {
    hide Joined, Codes;
  }

  lemma HalfGroup(codes: seq<Unit>, p: string)
    requires Joined(codes) <= p && (p[|Joined(codes)|..] == "" || p[|Joined(codes)|..] == "x")
    requires |p| % 2 == 0 && |p| % 4 != 0 && Base64.AllDigits(p)
    ensures NonZero(Units(Tokens(Base64.Again(p)))) == NonZero(codes)
  {
    hide *;
    var s := Joined(codes);
    assert p == s + p[|s|..];
    HalfOf(|p|);
    if p[|s|..] == "x" {
      HalfPadded(codes, p);
    } else {
      assert p == s;
      HalfBare(codes, p);
    }
  }

  lemma HalfOf(n: nat)
    requires n % 2 == 0 && n % 4 != 0
    ensures n % 4 == 2
  {
  }

  lemma HalfPadded(codes: seq<Unit>, p: string)
    requires p == Joined(codes) + "x" && |p| % 2 == 0 && |p| % 4 == 2 && Base64.AllDigits(p)
    ensures NonZero(Units(Tokens(Base64.Again(p)))) == NonZero(codes)
  {
    hide *;
    LastX(p);
    assert p[..|p| - 1] == Joined(codes);
    EmptyEnds();
    Rest(codes, "w==");
  }

  lemma HalfBare(codes: seq<Unit>, p: string)
    requires p == Joined(codes) && |p| % 2 == 0 && |p| % 4 == 2 && Base64.AllDigits(p)
    ensures NonZero(Units(Tokens(Base64.Again(p)))) == NonZero(codes)
  {
    hide *;
    NoCodes();
    EndsInX(codes);
    LastX(p);
    CutShort(codes);
  }

  lemma WholeGroups(s: string)
    requires |s| % 4 == 0 && Base64.AllDigits(s)
    ensures Base64.Again(s) == s
  {
  }

  lemma Rest(codes: seq<Unit>, tail: string)
    requires NonZero(Units(Tokens(tail))) == []
    ensures NonZero(Units(Tokens(Joined(codes) + tail))) == NonZero(codes)
  {
    hide Joined, NonZero, Units, Tokens;
    UnitsOfJoined(codes, tail);
    NonZeroJoin(codes, Units(Tokens(tail)));
    assert NonZero(codes) + [] == NonZero(codes);
  }

  /** The last number is still read when what followed it became something else. */
  lemma CutShort(codes: seq<Unit>)
    requires codes != []
    ensures var s := Joined(codes);
      |s| > 0 && NonZero(Units(Tokens(s[..|s| - 1] + "w=="))) == NonZero(codes)
  {
    hide Joined, NonZero, Tokens, Decimal, UnitOf;
    var n := |codes| - 1;
    var token := Decimal(codes[n]) + "w==";
    EndsInX(codes);
    assert Joined(codes)[..|Joined(codes)| - 1] + "w==" == Joined(codes[..n]) + token;
    UnitsOfJoined(codes[..n], token);
    OneToken(token);
    UnitOfDecimal(codes[n], "w==");
    assert Units([token]) == [codes[n]];
    assert codes[..n] + [codes[n]] == codes;
  }

  // ---------------------------------------------------------------------------------------
  // What survives

  ghost predicate HasPair(text: seq<Unit>) {
    exists i: nat :: PairAt(text, i)
  }

  lemma {:induction false} NonZeroLength(u: seq<Unit>)
    ensures |NonZero(u)| <= |u|
    ensures 0 in u ==> |NonZero(u)| < |u|
    ensures 0 !in u ==> NonZero(u) == u
  {
    if u == [] {
    } else {
      NonZeroLength(u[1..]);
    }
  }

  lemma {:induction false} CodesLength(text: seq<Unit>)
    ensures |Codes(text)| <= |text|
    ensures HasPair(text) ==> |Codes(text)| < |text|
    ensures !HasPair(text) ==> Codes(text) == text
  {
    if text == [] {
    } else {
      var rest := text[1..];
      if PairAt(text, 0) {
        CodesLength(text[2..]);
      } else {
        CodesLength(rest);
        if HasPair(text) {
          var i: nat :| PairAt(text, i);
          assert PairAt(rest, i - 1);
        } else if HasPair(rest) {
          var i: nat :| PairAt(rest, i);
          var j := i + 1;
          assert PairAt(text, j);
        }
      }
    }
  }

  /** Text comes back from disk as it was just if it has no zero and no character of two units. */
  lemma RoundTrip(text: seq<Unit>)
    ensures Base64.AllDigits(Packed(text))
    ensures Unpacked(Base64.Encode(Base64.Decode(Packed(text)))) == text <==> 0 !in text && !HasPair(text)
  {
    hide Unpacked, Packed, NonZero, Codes, Base64.Decode, Base64.Encode, PairAt;
    OnDisk(text);
    CodesLength(text);
    NonZeroLength(Codes(text));
  }

  // ---------------------------------------------------------------------------------------
  // Decimal numbers

  function Pow10(n: nat): nat {
    if n == 0 then 1 else 10 * Pow10(n - 1)
  }

  /** The digits of a number count ones, tens, hundreds and so on. */
  lemma {:induction false} NumberIsPositional(d: string)
    requires d != [] && forall k | 0 <= k < |d| :: IsDigit(d[k])
    ensures Number(d) == DigitValue(d[0]) * Pow10(|d| - 1) + Number(d[1..])
    decreases |d|
  {
    var n := |d| - 1;
    if n == 0 {
      assert d[..0] == [] && d[1..] == [];
    } else {
      NumberIsPositional(d[..n]);
      assert d[..n][1..] == d[1..][..n - 1];
      TenTimes(DigitValue(d[0]), Pow10(n - 1));
    }
  }

  lemma TenTimes(a: nat, b: nat)
    ensures 10 * (a * b) == a * (10 * b)
  {
  }

  /** The codes of "hello world!". */
  const HELLO: seq<Unit> := [104, 101, 108, 108, 111, 32, 119, 111, 114, 108, 100, 33]

  lemma Decimals()
    ensures Decimal(104) == "104" && Decimal(101) == "101" && Decimal(108) == "108" && Decimal(111) == "111"
    ensures Decimal(32) == "32" && Decimal(119) == "119" && Decimal(114) == "114" && Decimal(100) == "100" && Decimal(33) == "33"
  {
  }

  /** Without surrogates every unit is a character of its own. */
  lemma {:induction false} NoPairs(text: seq<Unit>)
    requires forall i | 0 <= i < |text| :: !High(text[i])
    ensures Codes(text) == text
  {
    if text == [] {
    } else {
      NoPairs(text[1..]);
      assert [text[0]] + text[1..] == text;
    }
  }

  lemma JoinOne(codes: seq<Unit>, u: Unit, token: string)
    requires Decimal(u) + "x" == token
    ensures Joined(codes + [u]) == Joined(codes) + token
  {
    hide Decimal;
    assert (codes + [u])[..|codes|] == codes;
    assert Joined(codes) + Decimal(u) + "x" == Joined(codes) + (Decimal(u) + "x");
  }

  lemma {:induction false} HelloJoined()
    ensures Joined(HELLO) == "" + "104x" + "101x" + "108x" + "108x" + "111x" + "32x" + "119x" + "111x" + "114x" + "108x" + "100x" + "33x"
  {
    hide Joined, Decimal;
    Decimals();
    NoCodes();
    assert HELLO == [] + [104] + [101] + [108] + [108] + [111] + [32] + [119] + [111] + [114] + [108] + [100] + [33];
    JoinOne([], 104, "104x");
    JoinOne([] + [104], 101, "101x");
    JoinOne([] + [104] + [101], 108, "108x");
    JoinOne([] + [104] + [101] + [108], 108, "108x");
    JoinOne([] + [104] + [101] + [108] + [108], 111, "111x");
    JoinOne([] + [104] + [101] + [108] + [108] + [111], 32, "32x");
    JoinOne([] + [104] + [101] + [108] + [108] + [111] + [32], 119, "119x");
    JoinOne([] + [104] + [101] + [108] + [108] + [111] + [32] + [119], 111, "111x");
    JoinOne([] + [104] + [101] + [108] + [108] + [111] + [32] + [119] + [111], 114, "114x");
    JoinOne([] + [104] + [101] + [108] + [108] + [111] + [32] + [119] + [111] + [114], 108, "108x");
    JoinOne([] + [104] + [101] + [108] + [108] + [111] + [32] + [119] + [111] + [114] + [108], 100, "100x");
    JoinOne([] + [104] + [101] + [108] + [108] + [111] + [32] + [119] + [111] + [114] + [108] + [100], 33, "33x");
  }

  /** The example of the documentation: "hello world!" packed. */
  lemma HelloIsPacked()
    ensures Packed(HELLO) ==
      "" + "104x" + "101x" + "108x" + "108x" + "111x" + "32x" + "119x" + "111x" + "114x" + "108x" + "100x" + "33x"
  {
    hide Joined, Codes, Decimal;
    assert forall i | 0 <= i < |HELLO| :: HELLO[i] < 0xD800;
    NoPairs(HELLO);
    HelloJoined();
  }

  // ---------------------------------------------------------------------------------------
  // Characters as UTF-16 has them

  /** The two kinds of surrogates by their six highest bits (section 2.1 of RFC 2781). */
  lemma SurrogatesAre(u: Unit)
    ensures High(u) <==> u / 0x400 == 0x36
    ensures Low(u) <==> u / 0x400 == 0x37
  {
  }

  predicate Scalar(c: nat) {
    c < 0x11_0000 && !(0xD800 <= c < 0xE000)
  }

  /** One unit, or two for ten bits each of what is above the first 2^16 characters. */
  function Utf16(c: nat): (s: seq<Unit>)
    requires Scalar(c)
    ensures |s| == if c < 0x1_0000 then 1 else 2
  {
    if c < 0x1_0000 then [c] else [0xD800 + (c - 0x1_0000) / 0x400, 0xDC00 + (c - 0x1_0000) % 0x400]
  }

  predicate AllScalars(chars: seq<nat>) {
    forall i | 0 <= i < |chars| :: Scalar(chars[i])
  }

  function TextOf(chars: seq<nat>): seq<Unit>
    requires AllScalars(chars)
  {
    if chars == [] then [] else Utf16(chars[0]) + TextOf(chars[1..])
  }

  function FirstUnits(chars: seq<nat>): seq<Unit>
    requires AllScalars(chars)
  {
    if chars == [] then [] else [Utf16(chars[0])[0]] + FirstUnits(chars[1..])
  }

  lemma CodesNext(text: seq<Unit>)
    requires text != []
    ensures Codes(text) == [text[0]] + Codes(if PairAt(text, 0) then text[2..] else text[1..])
  {
    hide PairAt;
  }

  /** What is stored of every character is its first unit. */
  lemma {:induction false} CodesAre(chars: seq<nat>)
    requires AllScalars(chars)
    ensures Codes(TextOf(chars)) == FirstUnits(chars)
    decreases |chars|
  {
    hide Codes, Utf16;
    if chars == [] {
      NoCodes();
    } else {
      var s, rest, text := Utf16(chars[0]), TextOf(chars[1..]), TextOf(chars);
      CodesAre(chars[1..]);
      CodesNext(text);
      UnitsAre(chars[0]);
      assert text == s + rest && text[0] == s[0];
      assert text[|s|..] == rest;
    }
  }

  lemma UnitsAre(c: nat)
    requires Scalar(c)
    ensures var s := Utf16(c);
      if c < 0x1_0000 then |s| == 1 && !High(s[0]) else |s| == 2 && High(s[0]) && Low(s[1])
  {
  }

  /** So what comes back from the disk are the first units of all characters but the one that is zero. */
  lemma CharactersOnDisk(chars: seq<nat>)
    requires AllScalars(chars)
    ensures Base64.AllDigits(Packed(TextOf(chars)))
    ensures Unpacked(Base64.Encode(Base64.Decode(Packed(TextOf(chars))))) == NonZero(FirstUnits(chars))
  {
    hide *;
    OnDisk(TextOf(chars));
    CodesAre(chars);
  }
}
