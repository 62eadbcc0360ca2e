/** The byte buffer of the MPEG library: data are written at its end and read from its front
    bit by bit, and what was read is discarded to make room. */
module MpegBuffer {
  import opened BitStream
  import opened MsbBits

  datatype Mode = FixedMemory | Ring | Append

  /** A start code is at byte p. */
  predicate StartAt(s: seq<byte>, p: nat) {
    p + 3 <= |s| && s[p] == 0 && s[p + 1] == 0 && s[p + 2] == 1
  }

  /** The first start code at or after byte p that has a byte after it, and the position after
      the code; or -1 and the position where to go on when there are more data. */
  function NextCode(s: seq<byte>, p: nat): (r: (int, nat))
    requires p <= |s|
    ensures p <= r.1 <= |s|
    decreases |s| - p
  {
    if p + 5 > |s| then (-1, p)
    else if StartAt(s, p) then (s[p + 3], p + 4)
    else NextCode(s, p + 1)
  }

  /** The same for a given code. */
  function FindCode(s: seq<byte>, p: nat, code: int): (r: (int, nat))
    requires p <= |s|
    ensures p <= r.1 <= |s|
    decreases |s| - p
  {
    if p + 5 > |s| then (-1, p)
    else if StartAt(s, p) then
      if s[p + 3] == code then (code, p + 4) else FindCode(s, p + 4, code)
    else FindCode(s, p + 1, code)
  }

  lemma {:induction false} NextThenFind(s: seq<byte>, p: nat, code: int)
    requires p <= |s|
    ensures var n := NextCode(s, p);
      FindCode(s, p, code) == if n.0 == code || n.0 == -1 then n else FindCode(s, n.1, code)
    decreases |s| - p
  {
    if p + 5 > |s| || StartAt(s, p) {
    } else {
      NextThenFind(s, p + 1, code);
    }
  }

  lemma NextStep(s: seq<byte>, p: nat)
    requires p <= |s|
    ensures NextCode(s, p) == if p + 5 > |s| then (-1, p)
      else if StartAt(s, p) then (s[p + 3] as int, p + 4) else NextCode(s, p + 1)
  {
  }

  lemma {:induction false} NextFurther(s: seq<byte>, p: nat)
    requires p <= |s|
    ensures NextCode(s, p).0 != -1 ==> NextCode(s, p).1 > p
    decreases |s| - p
  {
    if p + 5 > |s| || StartAt(s, p) {
    } else {
      NextFurther(s, p + 1);
    }
  }

  lemma RunStep(s: seq<byte>, p: nat, v: byte)
    requires p <= |s|
    ensures RunLength(s, p, v) == if p < |s| && s[p] == v then 1 + RunLength(s, p + 1, v) else 0
  {
  }

  class Buffer {
    var bitIndex: nat
    var length: nat
    var totalSize: nat
    var hasEnded: bool
    var discard: bool
    const mode: Mode
    var bytes: array<byte>

    // Everything ever written, and how much of it has been discarded.
    ghost var all: seq<byte>
    ghost var gone: nat

    ghost predicate Valid()
      reads `bitIndex, `length, `bytes, `all, `gone, bytes
    {
      && bitIndex <= 8 * length && length <= bytes.Length && bytes.Length > 0
      && |all| == gone + length
      && forall i | 0 <= i < length :: bytes[i] == all[gone + i]
    }

    /** How many bits have been read of all that was written. */
    ghost function Pos(): nat
      reads `bitIndex, `gone
    {
      8 * gone + bitIndex
    }

    lemma Facts()
      requires Valid()
      ensures bitIndex <= 8 * length && |all| == gone + length && Pos() <= 8 * |all|
    {
    }

    /** Where the byte at a position is in memory. */
    lemma ByteHere(k: nat)
      requires Valid() && Pos() / 8 + k < |all|
      ensures Pos() / 8 == gone + bitIndex / 8 && Pos() % 8 == bitIndex % 8
      ensures bitIndex / 8 + k < bytes.Length && bytes[bitIndex / 8 + k] == all[Pos() / 8 + k]
    {
      assert Pos() / 8 == gone + bitIndex / 8 && Pos() % 8 == bitIndex % 8;
      assert bytes[bitIndex / 8 + k] == all[gone + (bitIndex / 8 + k)];
    }

    lemma WholeByte(q: nat, k: nat)
      requires Valid() && Pos() == 8 * q && q + k < |all|
      ensures bitIndex / 8 + k < bytes.Length && bytes[bitIndex / 8 + k] == all[q + k]
    {
      ByteHere(k);
    }

    /** Moves on by n bits that are there. */
    method Advance(n: nat)
      requires Valid() && Pos() + n <= 8 * |all|
      modifies `bitIndex
      ensures Valid() && Pos() == old(Pos()) + n
    {
      bitIndex := bitIndex + n;
    }

    constructor (capacity: nat, mode: Mode)
      requires capacity > 0
      ensures Valid() && fresh(bytes) && all == [] && Pos() == 0 && this.mode == mode
      ensures discard == (mode == Ring)
    {
      bitIndex, length, totalSize, hasEnded, discard := 0, 0, 0, false, mode == Ring;
      this.mode := mode;
      bytes := new byte[capacity];
      all, gone := [], 0;
    }

    /** Moves the unread bytes to the front. */
    method DiscardReadBytes()
      requires Valid()
      modifies `bitIndex, `length, `gone, bytes
      ensures Valid() && Pos() == old(Pos())
      ensures bitIndex < 8
    {
      var bytePos := bitIndex / 8;
      if bytePos == length {
        gone := gone + length;
        bitIndex := 0;
        length := 0;
      } else if bytePos > 0 {
        forall i | 0 <= i < length - bytePos {
          bytes[i] := bytes[i + bytePos];
        }
        bitIndex := bitIndex - 8 * bytePos;
        length := length - bytePos;
        gone := gone + bytePos;
      }
    }

    /** Appends data to what is still to be read. */
    method Write(data: seq<byte>) returns (n: nat)
      requires Valid()
      modifies this, bytes
      ensures Valid() && Pos() == old(Pos()) && (bytes == old(bytes) || fresh(bytes))
      ensures if mode == FixedMemory then n == 0 && all == old(all) else n == |data| && all == old(all) + data
      ensures discard == old(discard)
      ensures mode != FixedMemory ==> !hasEnded && (discard && mode == Ring ==> totalSize == 0)
    {
      hide Valid;
      if mode == FixedMemory {
        return 0;
      }
      if discard {
        DiscardReadBytes();
        if mode == Ring {
          totalSize := 0;
        }
      }
      if bytes.Length - length < |data| {
        Grow(|data|);
      }
      Store(data);
      hasEnded := false;
      n := |data|;
    }

    /** Copies data to the end of the buffer. */
    method Store(data: seq<byte>)
      requires Valid() && bytes.Length - length >= |data|
      modifies `length, `all, bytes
      ensures Valid() && Pos() == old(Pos()) && all == old(all) + data
    {
      forall i | 0 <= i < |data| {
        bytes[length + i] := data[i];
      }
      ghost var before := all;
      all := all + data;
      length := length + |data|;
      forall i | 0 <= i < length
        ensures bytes[i] == all[gone + i]
      {
        assert gone + i < |before| ==> bytes[i] == before[gone + i];
        assert gone + i >= |before| ==> bytes[i] == data[gone + i - |before|];
      }
    }

    /** Doubles the capacity until n more bytes fit. */
    method Grow(n: nat)
      requires Valid() && bytes.Length - length < n
      modifies `bytes
      ensures Valid() && fresh(bytes) && bytes.Length - length >= n
    {
      var newSize := 2 * bytes.Length;
      while newSize - length < n
        invariant newSize >= 2 * bytes.Length
        decreases n + length - newSize
      {
        newSize := 2 * newSize;
      }
      var larger := new byte[newSize];
      forall i | 0 <= i < bytes.Length {
        larger[i] := bytes[i];
      }
      bytes := larger;
    }

    method SignalEnd()
      requires Valid()
      modifies `totalSize
      ensures Valid() && Pos() == old(Pos()) && totalSize == length
    {
      totalSize := length;
    }

    /** Whether count bits can be read. */
    method Has(count: nat) returns (r: bool)
      requires Valid()
      modifies `hasEnded
      ensures Valid() && r == (Pos() + count <= 8 * |all|)
      ensures hasEnded == (old(hasEnded) || (!r && totalSize != 0 && length == totalSize))
    {
      if 8 * length - bitIndex >= count {
        return true;
      }
      if totalSize != 0 && length == totalSize {
        hasEnded := true;
      }
      r := false;
    }

    /** Reads the next count bits, the first of them as the highest digit. */
    method Read(count: nat) returns (value: nat)
      requires Valid()
      modifies `hasEnded, `bitIndex
      ensures Valid()
      ensures if old(Pos()) + count <= 8 * |all| then Pos() == old(Pos()) + count && value == Digits(all, old(Pos()), count)
        else Pos() == old(Pos()) && value == 0
    {
      hide Valid, Pos, Digits, ShiftLeft;
      var ok := Has(count);
      if !ok {
        return 0;
      }
      value := 0;
      ghost var start := Pos();
      NoDigits(all, start);
      var left: nat := count;
      while left != 0
        invariant left <= count && Valid() && Pos() == start + (count - left) && start + count <= 8 * |all|
        invariant value == Digits(all, start, count - left)
      {
        ghost var here := Pos();
        var piece, read := ReadPiece(left);
        DigitsSplit(all, start, count - left, read);
        assert count - (left - read) == count - left + read;
        value := ShiftLeft(value, read) + piece;
        left := left - read;
      }
    }

    /** Reads what the current byte has of the next bits. */
    method ReadPiece(count: nat) returns (piece: nat, read: nat)
      requires Valid() && 0 < count && Pos() + count <= 8 * |all|
      modifies `bitIndex
      ensures Valid() && 0 < read <= count && Pos() == old(Pos()) + read && piece == Digits(all, old(Pos()), read)
    {
      hide Valid, Digits, LowBits, ShiftRight;
      Facts();
      ByteHere(0);
      var current := bytes[bitIndex / 8];
      var remaining := 8 - bitIndex % 8;
      read := if remaining < count then remaining else count;
      var shift := remaining - read;
      DigitsInPiece(all, Pos(), read);
      piece := LowBits(ShiftRight(current, shift), read);
      Advance(read);
    }

    /** Goes on to the next byte boundary. */
    method Align() returns (ghost p: nat)
      requires Valid()
      modifies `bitIndex
      ensures Valid() && p == (old(Pos()) + 7) / 8 && Pos() == 8 * p && p <= |all|
    {
      bitIndex := (bitIndex + 7) / 8 * 8;
      p := gone + bitIndex / 8;
    }

    method Skip(count: nat)
      requires Valid()
      modifies `hasEnded, `bitIndex
      ensures Valid() && Pos() == if old(Pos()) + count <= 8 * |all| then old(Pos()) + count else old(Pos())
    {
      var ok := Has(count);
      if ok {
        bitIndex := bitIndex + count;
      }
    }

    /** Skips bytes of the given value. */
    method SkipBytes(v: byte) returns (skipped: nat)
      requires Valid()
      modifies `hasEnded, `bitIndex
      ensures Valid()
      ensures var p := (old(Pos()) + 7) / 8;
        && p <= |all| && skipped == RunLength(all, p, v) && Pos() == 8 * (p + skipped)
    {
      hide *;
      ghost var p := Align();
      skipped := 0;
      var more := Has(8);
      if more {
        WholeByte(p, 0);
      }
      while more && bytes[bitIndex / 8] == v
        invariant Valid() && Pos() == 8 * (p + skipped) && p + skipped <= |all|
        invariant more == (Pos() + 8 <= 8 * |all|)
        invariant more ==> bitIndex / 8 < bytes.Length && bytes[bitIndex / 8] == all[p + skipped]
        invariant RunLength(all, p, v) == skipped + RunLength(all, p + skipped, v)
        decreases 8 * |all| - Pos()
      {
        RunStep(all, p + skipped, v);
        Advance(8);
        skipped := skipped + 1;
        more := Has(8);
        if more {
          WholeByte(p + skipped, 0);
        }
      }
      RunStep(all, p + skipped, v);
    }

    /** Whether a start code is here, and which. */
    method PeekStart(ghost q: nat) returns (found: bool, code: int)
      requires Valid() && Pos() == 8 * q && q + 5 <= |all|
      ensures found == StartAt(all, q) && code == all[q + 3]
    {
      hide Valid;
      WholeByte(q, 0);
      WholeByte(q, 1);
      WholeByte(q, 2);
      WholeByte(q, 3);
      var at := bitIndex / 8;
      found := bytes[at] == 0 && bytes[at + 1] == 0 && bytes[at + 2] == 1;
      code := bytes[at + 3];
    }

    /** Goes to after the next start code. */
    method NextStartCode() returns (code: int)
      requires Valid()
      modifies `hasEnded, `bitIndex
      ensures Valid()
      ensures var p := (old(Pos()) + 7) / 8;
        p <= |all| && code == NextCode(all, p).0 && Pos() == 8 * NextCode(all, p).1
    {
      hide *;
      ghost var p := Align();
      ghost var q := p;
      var more := Has(40);
      while more
        invariant Valid() && Pos() == 8 * q && p <= q <= |all| && more == (Pos() + 40 <= 8 * |all|)
        invariant NextCode(all, p) == NextCode(all, q)
        decreases |all| - q
      {
        NextStep(all, q);
        var found, code' := PeekStart(q);
        if found {
          Advance(32);
          return code';
        }
        Advance(8);
        q := q + 1;
        more := Has(40);
      }
      NextStep(all, q);
      code := -1;
    }

    /** Goes to after the next start code of the given kind. */
    method FindStartCode(code: int) returns (current: int)
      requires Valid()
      modifies `hasEnded, `bitIndex
      ensures Valid()
      ensures var p := (old(Pos()) + 7) / 8;
        p <= |all| && current == FindCode(all, p, code).0 && Pos() == 8 * FindCode(all, p, code).1
    {
      hide Valid, NextCode, FindCode;
      Facts();
      ghost var p := (Pos() + 7) / 8;
      NextThenFind(all, p, code);
      current := NextStartCode();
      ghost var q := NextCode(all, p).1;
      while current != code && current != -1
        invariant Valid() && p <= q <= |all| && Pos() == 8 * q
        invariant if current == code || current == -1 then FindCode(all, p, code) == (current, q)
          else FindCode(all, p, code) == FindCode(all, q, code)
        decreases |all| - q, current != -1
      {
        NextThenFind(all, q, code);
        NextFurther(all, q);
        current := NextStartCode();
        q := NextCode(all, q).1;
      }
    }

    /** Whether a start code is ahead.  Nothing is read or discarded. */
    method HasStartCode(code: int) returns (current: int)
      requires Valid()
      modifies `hasEnded, `bitIndex, `discard
      ensures Valid() && Pos() == old(Pos()) && bitIndex == old(bitIndex) && discard == old(discard)
      ensures var p := (Pos() + 7) / 8;
        p <= |all| && current == FindCode(all, p, code).0
    {
      var previous, previousDiscard := bitIndex, discard;
      discard := false;
      current := FindStartCode(code);
      bitIndex := previous;
      discard := previousDiscard;
    }
  }

  /** How many bytes from p on have the value v. */
  function RunLength(s: seq<byte>, p: nat, v: byte): (n: nat)
    requires p <= |s|
    ensures p + n <= |s|
    decreases |s| - p
  {
    if p < |s| && s[p] == v then 1 + RunLength(s, p + 1, v) else 0
  }
}
