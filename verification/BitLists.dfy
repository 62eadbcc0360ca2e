/** Numbers written out bit by bit, and streams of bytes that carry such lists of bits. */
module BitLists {
  import opened BitStream
  import opened MsbBits

  type bit = x: int | 0 <= x < 2

  /** How many binary digits a number has. */
  function BitLength(m: nat): (n: nat)
    ensures m < Pow2(n) && (m > 0 ==> n > 0 && Pow2(n - 1) <= m)
  {
    if m == 0 then 0 else 1 + BitLength(m / 2)
  }

  lemma BitLengthIs(m: nat, n: nat)
    requires m > 0 && n > 0 && Pow2(n - 1) <= m < Pow2(n)
    ensures BitLength(m) == n
  {
    var l := BitLength(m);
    if l < n {
      Pow2Mono(l, n - 1);
    } else if n < l {
      Pow2Mono(n, l - 1);
    }
  }

  /** The n low bits of v, the highest of them first. */
  function HighFirst(v: nat, n: nat): (s: seq<bit>)
    ensures |s| == n
    decreases n, v
  {
    if n == 0 then [] else HighFirst(v / 2, n - 1) + [v % 2]
  }

  /** The n low bits of v, the lowest first. */
  function LowFirst(v: nat, n: nat): (s: seq<bit>)
    ensures |s| == n
    decreases n, v
  {
    if n == 0 then [] else [v % 2] + LowFirst(v / 2, n - 1)
  }

  /** From bit p on the stream has the bits s, where bytes begin with their lowest bit. */
  predicate Carries(input: seq<byte>, p: nat, s: seq<bit>) {
    forall i | 0 <= i < |s| :: Bit(input, p + i) == s[i]
  }

  /** The same where bytes begin with their highest bit. */
  predicate CarriesMsb(input: seq<byte>, p: nat, s: seq<bit>) {
    forall i | 0 <= i < |s| :: BitAt(input, p + i) == s[i]
  }

  lemma CarriesParts(input: seq<byte>, p: nat, a: seq<bit>, b: seq<bit>)
    requires Carries(input, p, a + b)
    ensures Carries(input, p, a) && Carries(input, p + |a|, b)
  {
    hide Bit;
    forall i | 0 <= i < |a|
      ensures Bit(input, p + i) == a[i]
    {
      assert (a + b)[i] == a[i];
    }
    forall i | 0 <= i < |b|
      ensures Bit(input, p + |a| + i) == b[i]
    {
      assert (a + b)[|a| + i] == b[i];
    }
  }

  lemma CarriesMsbParts(input: seq<byte>, p: nat, a: seq<bit>, b: seq<bit>)
    requires CarriesMsb(input, p, a + b)
    ensures CarriesMsb(input, p, a) && CarriesMsb(input, p + |a|, b)
  {
    hide BitAt;
    forall i | 0 <= i < |a|
      ensures BitAt(input, p + i) == a[i]
    {
      assert (a + b)[i] == a[i];
    }
    forall i | 0 <= i < |b|
      ensures BitAt(input, p + |a| + i) == b[i]
    {
      assert (a + b)[|a| + i] == b[i];
    }
  }

  /** Bits carried one after the other. */
  lemma CarriesBoth(input: seq<byte>, p: nat, a: seq<bit>, b: seq<bit>)
    requires Carries(input, p, a) && Carries(input, p + |a|, b)
    ensures Carries(input, p, a + b)
  {
    hide Bit;
    forall i | 0 <= i < |a + b|
      ensures Bit(input, p + i) == (a + b)[i]
    {
      if i >= |a| {
        assert p + |a| + (i - |a|) == p + i;
        assert Bit(input, p + |a| + (i - |a|)) == b[i - |a|];
      }
    }
  }

  /** What is carried lowest bit first is a number. */
  lemma {:induction false} FieldCarries(input: seq<byte>, p: nat, n: nat)
    ensures Carries(input, p, LowFirst(Field(input, p, n), n))
    decreases n
  {
    hide Bit;
    if n == 0 {
    } else {
      FieldCarries(input, p + 1, n - 1);
      var b, v := Bit(input, p), Field(input, p + 1, n - 1);
      assert (b + 2 * v) % 2 == b && (b + 2 * v) / 2 == v;
      CarriesOne(input, p, b);
      CarriesBoth(input, p, [b], LowFirst(v, n - 1));
    }
  }

  lemma CarriesNothing(input: seq<byte>, p: nat)
    ensures Carries(input, p, [])
  {
  }

  lemma CarriesOne(input: seq<byte>, p: nat, b: bit)
    requires Bit(input, p) == b
    ensures Carries(input, p, [b])
  {
    hide Bit;
    assert p + 0 == p;
  }

  /** And highest bit first. */
  lemma {:induction false} MsbFieldCarries(input: seq<byte>, p: nat, n: nat)
    ensures Carries(input, p, HighFirst(MsbField(input, p, n), n))
    decreases n
  {
    hide Bit;
    if n == 0 {
    } else {
      MsbFieldCarries(input, p, n - 1);
      var b, v := Bit(input, p + n - 1), MsbField(input, p, n - 1);
      assert (2 * v + b) % 2 == b && (2 * v + b) / 2 == v;
      assert p + (n - 1) == p + n - 1;
      CarriesOne(input, p + (n - 1), b);
      CarriesBoth(input, p, HighFirst(v, n - 1), [b]);
    }
  }

  /** A number carried lowest bit first. */
  lemma {:induction false} FieldCarried(input: seq<byte>, p: nat, v: nat, n: nat)
    requires v < Pow2(n) && Carries(input, p, LowFirst(v, n))
    ensures Field(input, p, n) == v
    decreases n
  {
    hide Bit;
    if n == 0 {
    } else {
      CarriesParts(input, p, [v % 2], LowFirst(v / 2, n - 1));
      assert [v % 2][0] == v % 2;
      FieldCarried(input, p + 1, v / 2, n - 1);
    }
  }

  /** A number carried highest bit first. */
  lemma {:induction false} MsbFieldCarried(input: seq<byte>, p: nat, v: nat, n: nat)
    requires v < Pow2(n) && Carries(input, p, HighFirst(v, n))
    ensures MsbField(input, p, n) == v
    decreases n
  {
    hide Bit;
    if n == 0 {
    } else {
      CarriesParts(input, p, HighFirst(v / 2, n - 1), [v % 2]);
      assert [v % 2][0] == v % 2;
      MsbFieldCarried(input, p, v / 2, n - 1);
      assert p + n - 1 == p + (n - 1) + 0;
    }
  }

  lemma {:induction false} DigitsCarried(input: seq<byte>, p: nat, v: nat, n: nat)
    requires v < Pow2(n) && CarriesMsb(input, p, HighFirst(v, n))
    ensures Digits(input, p, n) == v
    decreases n
  {
    hide BitAt;
    if n == 0 {
    } else {
      CarriesMsbParts(input, p, HighFirst(v / 2, n - 1), [v % 2]);
      assert [v % 2][0] == v % 2;
      DigitsCarried(input, p, v / 2, n - 1);
      assert p + n - 1 == p + (n - 1) + 0;
    }
  }

  // ---------------------------------------------------------------------------------------
  // Packing

  /** At most eight bits as a number, the first the lowest. */
  function ByteOf(s: seq<bit>): (b: nat)
    ensures b < Pow2(|s|)
  {
    if s == [] then 0 else s[0] + 2 * ByteOf(s[1..])
  }

  /** Bytes that carry the bits, filled up with zeros. */
  function Pack(s: seq<bit>): (r: seq<byte>)
    ensures |r| == (|s| + 7) / 8
  {
    EightBits();
    if s == [] then []
    else if |s| <= 8 then
      Pow2Mono(|s|, 8);
      [ByteOf(s)]
    else [ByteOf(s[..8])] + Pack(s[8..])
  }

  lemma EightBits()
    ensures Pow2(8) == 256
  {
  }

  lemma {:induction false} BitOfPacked(s: seq<bit>, k: nat)
    requires k < |s|
    ensures ShiftRight(ByteOf(s), k) % 2 == s[k]
    decreases k
  {
    if k == 0 {
    } else {
      BitOfPacked(s[1..], k - 1);
      assert ByteOf(s) / 2 == ByteOf(s[1..]);
    }
  }

  lemma BitAfterFirst(b: byte, rest: seq<byte>, i: nat)
    ensures Bit([b] + rest, i) == if i < 8 then ShiftRight(b, i) % 2 else Bit(rest, i - 8)
  {
    hide ShiftRight;
    if i < 8 {
      assert i / 8 == 0 && i % 8 == i;
    } else {
      assert i / 8 == (i - 8) / 8 + 1 && i % 8 == (i - 8) % 8;
      assert ByteAt([b] + rest, i / 8) == ByteAt(rest, (i - 8) / 8);
    }
  }

  /** Packed bits are carried. */
  lemma {:induction false} PackCarries(s: seq<bit>)
    ensures Carries(Pack(s), 0, s)
  {
    hide Bit, ShiftRight, ByteOf;
    EightBits();
    if s == [] {
    } else {
      var n := if |s| <= 8 then |s| else 8;
      Pow2Mono(n, 8);
      assert s[..n] + s[n..] == s;
      assert |s| <= 8 ==> s[..n] == s && Pack(s[n..]) == [];
      assert Pack(s) == [ByteOf(s[..n])] + Pack(s[n..]);
      PackCarries(s[n..]);
      forall i | 0 <= i < |s|
        ensures Bit(Pack(s), i) == s[i]
      {
        BitAfterFirst(ByteOf(s[..n]), Pack(s[n..]), i);
        if i < n {
          BitOfPacked(s[..n], i);
        } else {
          assert Bit(Pack(s[8..]), 0 + (i - 8)) == s[8..][i - 8];
        }
      }
    }
  }

  /** Bits after whole bytes. */
  lemma {:induction false} CarriesLater(head: seq<byte>, rest: seq<byte>, s: seq<bit>)
    requires Carries(rest, 0, s)
    ensures Carries(head + rest, 8 * |head|, s)
  {
    hide ShiftRight;
    forall i | 0 <= i < |s|
      ensures Bit(head + rest, 8 * |head| + i) == s[i]
    {
      assert (8 * |head| + i) / 8 == |head| + i / 8 && (8 * |head| + i) % 8 == i % 8;
      assert ByteAt(head + rest, |head| + i / 8) == ByteAt(rest, i / 8);
      assert Bit(rest, 0 + i) == s[i];
    }
  }

  // ---------------------------------------------------------------------------------------
  // Bytes within others

  /** The data have these bytes at p. */
  predicate HasAt(data: seq<byte>, p: nat, s: seq<byte>) {
    p + |s| <= |data| && data[p..p + |s|] == s
  }

  lemma HasParts(data: seq<byte>, p: nat, s: seq<byte>, t: seq<byte>)
    requires HasAt(data, p, s + t)
    ensures HasAt(data, p, s) && HasAt(data, p + |s|, t)
  {
    assert data[p..p + |s|] == data[p..p + |s + t|][..|s|] == s;
    assert data[p + |s|..p + |s| + |t|] == data[p..p + |s + t|][|s|..] == t;
  }

  lemma HasByte(data: seq<byte>, p: nat, s: seq<byte>, i: nat)
    requires HasAt(data, p, s) && i < |s|
    ensures p + i < |data| && data[p + i] == ByteAt(data, p + i) == s[i]
  {
    assert data[p..p + |s|][i] == s[i];
  }
}
