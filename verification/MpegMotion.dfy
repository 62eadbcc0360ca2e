/** Reconstruction of motion vectors (section 2.4.4.2 of ISO/IEC 11172-2). */
module MpegMotion {
  import opened BitStream
  import opened Common

  // ---------------------------------------------------------------------------------------
  // The decoder's form: scale is a power of two, code and residual come from the stream.

  function Delta(code: int, size: nat, residual: nat): int {
    if code != 0 && Pow2(size) != 1 then
      var d := (Abs(code) - 1) * Pow2(size) + residual + 1;
      if code < 0 then -d else d
    else code
  }

  function Wrap(motion: int, scale: int): int {
    if motion > 16 * scale - 1 then motion - 32 * scale
    else if motion < -(16 * scale) then motion + 32 * scale
    else motion
  }

  /** The new value of a vector component. */
  function Decode(motion: int, code: int, size: nat, residual: nat): int {
    Wrap(motion + Delta(code, size, residual), Pow2(size))
  }

  predicate InRange(motion: int, scale: int) {
    -(16 * scale) <= motion <= 16 * scale - 1
  }

  /** What the stream can hold: a code of the table, and a residual of size bits. */
  predicate CodeOk(code: int, size: nat, residual: nat) {
    -16 <= code <= 16 && residual < Pow2(size)
  }

  // ---------------------------------------------------------------------------------------
  // The form of the standard

  function Little(code: int, f: int, residual: int): int {
    var complement := if f == 1 || code == 0 then 0 else f - 1 - residual;
    if code * f == 0 then 0 else if code * f > 0 then code * f - complement else code * f + complement
  }

  function Big(code: int, f: int, residual: int): int {
    var little := Little(code, f, residual);
    if code * f == 0 then 0 else if code * f > 0 then little - 32 * f else little + 32 * f
  }

  /** The standard adds the one of the two that stays in range. */
  function Reconstruct(motion: int, code: int, f: int, residual: int): int {
    var vector := motion + Little(code, f, residual);
    if InRange(vector, f) then vector else motion + Big(code, f, residual)
  }

  lemma Product(a: int, f: int)
    ensures (a - 1) * f == a * f - f && (-a) * f == -(a * f)
    ensures f > 0 && a > 0 ==> a * f >= f
    ensures f > 0 && a <= 16 ==> a * f <= 16 * f
    ensures f > 0 && a >= -16 ==> a * f >= -(16 * f)
  {
    ProductLess(a, f);
    if f > 0 {
      ProductMono(1, a, f);
      ProductMono(a, 16, f);
      ProductMono(-16, a, f);
    }
  }

  lemma ProductLess(a: int, f: int)
    ensures (a - 1) * f == a * f - f && (-a) * f == -(a * f)
  {
  }

  lemma {:induction false} ProductMono(a: int, b: int, f: int)
    requires f >= 0
    ensures a <= b ==> a * f <= b * f
    decreases f
  {
    if f == 0 {
    } else {
      ProductMono(a, b, f - 1);
      ProductStep(a, f);
      ProductStep(b, f);
    }
  }

  lemma ProductStep(a: int, f: int)
    ensures a * f == a * (f - 1) + a
  {
  }

  /** The decoder's increment is the standard's. */
  lemma DeltaIsLittle(code: int, size: nat, residual: nat)
    requires CodeOk(code, size, residual)
    ensures Delta(code, size, residual) == Little(code, Pow2(size), residual)
    ensures var f := Pow2(size); -(16 * f) <= Delta(code, size, residual) <= 16 * f
    ensures code == 0 ==> Delta(code, size, residual) == 0
    ensures code > 0 ==> Delta(code, size, residual) > 0 && code * Pow2(size) > 0
    ensures code < 0 ==> Delta(code, size, residual) < 0 && code * Pow2(size) < 0
  {
    hide Pow2;
    var f: int := Pow2(size);
    Product(code, f);
    Product(-code, f);
    Product(Abs(code), f);
  }

  /** The vector is the one the standard gives: it stays in range, and differs from the previous
      one plus the increment by a multiple of the range. */
  lemma DecodeIsStandard(motion: int, code: int, size: nat, residual: nat)
    requires CodeOk(code, size, residual) && InRange(motion, Pow2(size))
    ensures Decode(motion, code, size, residual) == Reconstruct(motion, code, Pow2(size), residual)
    ensures InRange(Decode(motion, code, size, residual), Pow2(size))
    ensures var turn := Decode(motion, code, size, residual) - motion - Delta(code, size, residual);
      turn == 0 || Abs(turn) == 32 * Pow2(size)
  {
    hide Pow2, Delta, Little;
    var f: int := Pow2(size);
    DeltaIsLittle(code, size, residual);
  }

  /** Some code and residual lead from any vector in range to any other. */
  lemma Reachable(motion: int, target: int, size: nat) returns (code: int, residual: nat)
    requires InRange(motion, Pow2(size)) && InRange(target, Pow2(size))
    ensures CodeOk(code, size, residual) && Decode(motion, code, size, residual) == target
  {
    hide Pow2;
    var f: int := Pow2(size);
    var d: int := target - motion;
    d := if d > 16 * f then d - 32 * f else if d < -(16 * f) then d + 32 * f else d;
    code, residual := Split(d, f);
    Product(Abs(code), f);
    assert Delta(code, size, residual) == d;
  }

  /** An increment as a code and a residual. */
  lemma Split(d: int, f: nat) returns (code: int, residual: nat)
    requires f > 0 && -(16 * f) <= d <= 16 * f
    ensures -16 <= code <= 16 && residual < f && (code < 0 <==> d < 0) && (code == 0 <==> d == 0)
    ensures f == 1 ==> code == d && residual == 0
    ensures d != 0 ==> Abs(d) == (Abs(code) - 1) * f + residual + 1
  {
    if d == 0 {
      return 0, 0;
    }
    var q: nat, r: nat := Divide(Abs(d) - 1, f, 16);
    residual := r;
    code := if d < 0 then -(q + 1) else q + 1;
  }

  lemma Divide(n: nat, f: nat, limit: nat) returns (q: nat, r: nat)
    requires f > 0 && n < limit * f
    ensures n == q * f + r && r < f && q < limit
    decreases n
  {
    if n < f {
      return 0, n;
    }
    assert (limit - 1) * f == limit * f - f;
    q, r := Divide(n - f, f, limit - 1);
    assert (q + 1) * f == q * f + f;
    q := q + 1;
  }

  /** Codes and residuals count the increments through: one, two and so on, the residual first, and the negative ones
      by the negative codes. */
  lemma DeltasInOrder(code: int, size: nat, residual: nat)
    requires 1 <= code <= 16 && residual < Pow2(size)
    ensures Delta(1, size, 0) == 1
    ensures residual + 1 < Pow2(size) ==> Delta(code, size, residual + 1) == Delta(code, size, residual) + 1
    ensures residual + 1 == Pow2(size) ==> Delta(code + 1, size, 0) == Delta(code, size, residual) + 1
    ensures Delta(-code, size, residual) == -Delta(code, size, residual)
    ensures Delta(0, size, residual) == 0
  {
    hide Pow2;
    ProductLess(code + 1, Pow2(size));
  }

  /** From the end of the range the vector goes on at its beginning, and the other way round. */
  lemma GoesRound(size: nat)
    ensures Decode(16 * Pow2(size) - 1, 1, size, 0) == -16 * Pow2(size)
    ensures Decode(-16 * Pow2(size), -1, size, 0) == 16 * Pow2(size) - 1
    ensures Decode(16 * Pow2(size) - 2, 1, size, 0) == 16 * Pow2(size) - 1
    ensures Decode(1 - 16 * Pow2(size), -1, size, 0) == -16 * Pow2(size)
  {
    hide Pow2;
  }
}
