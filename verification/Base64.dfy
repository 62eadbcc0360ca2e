/** Base64 (section 4 of RFC 4648): bytes as characters, and characters taken for bytes. */
module Base64 {
  import opened BitStream

  type digit = x: int | 0 <= x < 64

  function CharOf(v: digit): char {
    if v < 26 then 'A' + v as char
    else if v < 52 then 'a' + (v - 26) as char
    else if v < 62 then '0' + (v - 52) as char
    else if v == 62 then '+'
    else '/'
  }

  predicate IsDigit(c: char) {
    'A' <= c <= 'Z' || 'a' <= c <= 'z' || '0' <= c <= '9' || c == '+' || c == '/'
  }

  function ValueOf(c: char): digit
    requires IsDigit(c)
  {
    if 'A' <= c <= 'Z' then (c - 'A') as int
    else if 'a' <= c <= 'z' then (c - 'a') as int + 26
    else if '0' <= c <= '9' then (c - '0') as int + 52
    else if c == '+' then 62
    else 63
  }

  lemma CharsAndValues(c: char, v: digit)
    ensures IsDigit(CharOf(v)) && ValueOf(CharOf(v)) == v
    ensures IsDigit(c) ==> CharOf(ValueOf(c)) == c
  {
  }

  predicate AllDigits(s: string) {
    forall k | 0 <= k < |s| :: IsDigit(s[k])
  }

  function First(a: int, b: int): byte
    requires 0 <= a < 64 && 0 <= b < 64
  {
    4 * a + b / 16
  }

  function Second(b: int, c: int): byte
    requires 0 <= b < 64 && 0 <= c < 64
  {
    16 * (b % 16) + c / 4
  }

  function Third(c: int, d: int): byte
    requires 0 <= c < 64 && 0 <= d < 64
  {
    64 * (c % 4) + d
  }

  /** The bytes that base64 text stands for.  Bits that do not fill a byte are dropped. */
  function Decode(s: string): seq<byte>
    requires AllDigits(s)
  {
    if |s| < 2 then []
    else
      var b0 := First(ValueOf(s[0]), ValueOf(s[1]));
      if |s| == 2 then [b0]
      else
        var b1 := Second(ValueOf(s[1]), ValueOf(s[2]));
        if |s| == 3 then [b0, b1]
        else [b0, b1, Third(ValueOf(s[2]), ValueOf(s[3]))] + Decode(s[4..])
  }

  function Encode(b: seq<byte>): string {
    if |b| == 0 then ""
    else if |b| == 1 then [CharOf(b[0] / 4), CharOf(16 * (b[0] % 4)), '=', '=']
    else if |b| == 2 then
      [CharOf(b[0] / 4), CharOf(Middle(b[0], b[1])), CharOf(4 * (b[1] % 16)), '=']
    else
      [CharOf(b[0] / 4), CharOf(Middle(b[0], b[1])), CharOf(Later(b[1], b[2])), CharOf(b[2] % 64)] + Encode(b[3..])
  }

  function Middle(x: int, y: int): digit
    requires 0 <= x < 256 && 0 <= y < 256
  {
    16 * (x % 4) + y / 16
  }

  function Later(y: int, z: int): digit
    requires 0 <= y < 256 && 0 <= z < 256
  {
    4 * (y % 16) + z / 64
  }

  lemma Regroup(a: int, b: int, c: int, d: int)
    requires 0 <= a < 64 && 0 <= b < 64 && 0 <= c < 64 && 0 <= d < 64
    ensures First(a, b) / 4 == a && Middle(First(a, b), Second(b, c)) == b
    ensures Later(Second(b, c), Third(c, d)) == c && Third(c, d) % 64 == d
    ensures 16 * (First(a, b) % 4) == 16 * (b / 16)
  {
  }

  /** What is left of base64 text when it is decoded and encoded again: full groups of four come
      back; of a group of two, the second character keeps its two highest bits. */
  function Again(s: string): string
    requires AllDigits(s) && |s| % 2 == 0
  {
    if |s| % 4 == 0 then s
    else s[..|s| - 1] + [CharOf(16 * (ValueOf(s[|s| - 1]) / 16)), '=', '=']
  }

  lemma Mods(n: nat)
    requires n >= 4
    ensures (n - 4) % 4 == n % 4 && (n - 4) % 2 == n % 2
  {
  }

  lemma EncodeGroup(b0: byte, b1: byte, b2: byte, rest: seq<byte>)
    ensures Encode([b0, b1, b2] + rest) ==
      [CharOf(b0 / 4), CharOf(Middle(b0, b1)), CharOf(Later(b1, b2)), CharOf(b2 % 64)] + Encode(rest)
  {
    hide CharOf, Middle, Later;
    var b := [b0, b1, b2] + rest;
    assert b[3..] == rest && b[0] == b0 && b[1] == b1 && b[2] == b2;
  }

  lemma FullGroup(s: string)
    requires AllDigits(s) && |s| >= 4
    ensures AllDigits(s[4..]) && Encode(Decode(s)) == [s[0], s[1], s[2], s[3]] + Encode(Decode(s[4..]))
  {
    hide First, Second, Third, Middle, Later, CharOf, ValueOf, IsDigit, Encode;
    var a, b, c, d := ValueOf(s[0]), ValueOf(s[1]), ValueOf(s[2]), ValueOf(s[3]);
    Regroup(a, b, c, d);
    CharsAndValues(s[0], 0);
    CharsAndValues(s[1], 0);
    CharsAndValues(s[2], 0);
    CharsAndValues(s[3], 0);
    EncodeGroup(First(a, b), Second(b, c), Third(c, d), Decode(s[4..]));
  }

  lemma LastPair(s: string)
    requires AllDigits(s) && |s| == 2
    ensures Encode(Decode(s)) == Again(s)
  {
    hide First, CharOf, ValueOf, IsDigit;
    var a, b := ValueOf(s[0]), ValueOf(s[1]);
    Regroup(a, b, 0, 0);
    CharsAndValues(s[0], 0);
    var f := First(a, b);
    assert Decode(s) == [f];
    assert Encode([f]) == [CharOf(f / 4), CharOf(16 * (f % 4)), '=', '='];
    assert Again(s) == [s[0], CharOf(16 * (b / 16)), '=', '='];
  }

  lemma Empty(s: string)
    requires |s| == 0
    ensures AllDigits(s) && Encode(Decode(s)) == Again(s)
  {
  }

  lemma AgainStep(s: string)
    requires AllDigits(s) && |s| % 2 == 0 && |s| >= 4
    ensures AllDigits(s[4..]) && |s[4..]| % 2 == 0 && Again(s) == [s[0], s[1], s[2], s[3]] + Again(s[4..])
  {
    hide CharOf, ValueOf, IsDigit;
    var rest := s[4..];
    Mods(|s|);
    if |s| % 4 == 0 {
      assert s == [s[0], s[1], s[2], s[3]] + rest;
    } else {
      hide AllDigits;
      assert rest[|rest| - 1] == s[|s| - 1];
      assert s[..|s| - 1] == [s[0], s[1], s[2], s[3]] + rest[..|rest| - 1];
    }
  }

  lemma {:induction false} DecodeEncode(s: string)
    requires AllDigits(s) && |s| % 2 == 0
    ensures Encode(Decode(s)) == Again(s)
  {
    hide *;
    if |s| == 0 {
      Empty(s);
    } else if |s| == 2 {
      LastPair(s);
    } else {
      FullGroup(s);
      AgainStep(s);
      DecodeEncode(s[4..]);
    }
  }
}
