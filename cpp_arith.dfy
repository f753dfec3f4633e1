/** C and C++ integer arithmetic that differs from Dafny's unbounded, Euclidean integers:
    division truncating toward zero, and the narrowing of a value to a signed integer type
    of a given width (two's complement, modulo 2^bits, as C++20 defines it). */
module CppArith {

  function Abs(x: int): nat {
    if x < 0 then -x else x
  }

  /** `a / b` on C++ integers: the quotient is truncated toward zero. */
  function TruncDiv(a: int, b: int): (q: int)
    requires b != 0
    ensures a >= 0 && b > 0 ==> q == a / b
  {
    if (a >= 0) == (b > 0) then Abs(a) / Abs(b) else -(Abs(a) / Abs(b))
  }

  function Pow2(k: nat): (p: int)
    ensures p >= 1
  {
    if k == 0 then 1 else 2 * Pow2(k - 1)
  }

  /** `x` is a value of the signed type with `bits` bits. */
  predicate InSigned(bits: nat, x: int)
    requires bits >= 1
  {
    -Pow2(bits - 1) <= x < Pow2(bits - 1)
  }

  /** The conversion of `x` to the signed type with `bits` bits: the value of that type
      congruent to `x` modulo 2^bits. */
  function Narrow(bits: nat, x: int): (r: int)
    requires bits >= 1
    ensures InSigned(bits, r)
  {
    var m := Pow2(bits);
    var h := Pow2(bits - 1);
    assert m == 2 * h;
    assert x + h == m * ((x + h) / m) + (x + h) % m;
    (x + h) % m - h
  }

  /** Values of the type are left alone by the conversion. */
  lemma NarrowInRange(bits: nat, x: int)
    requires bits >= 1 && InSigned(bits, x)
    ensures Narrow(bits, x) == x
  {
    var m := Pow2(bits);
    var h := Pow2(bits - 1);
    assert m == 2 * h;
    DivUnique(x + h, m, 0, x + h);
  }

  /** Adding a whole number of turns of 2^bits does not change the converted value. */
  lemma NarrowShift(bits: nat, x: int, k: int)
    requires bits >= 1
    ensures Narrow(bits, x + k * Pow2(bits)) == Narrow(bits, x)
  {
    var m := Pow2(bits);
    var h := Pow2(bits - 1);
    ModShift(x + h, k, m);
    assert x + k * m + h == (x + h) + k * m;
  }

  lemma ModShift(y: int, k: int, m: int)
    requires m > 0
    ensures (y + k * m) % m == y % m
  {
    var q := y / m;
    var r := y % m;
    assert y == q * m + r;
    var z := y + k * m;
    assert z == (q + k) * m + r by {
      assert (q + k) * m == q * m + k * m;
    }
    DivUnique(z, m, q + k, r);
  }

  /** Euclidean division is determined by its quotient-remainder equation. */
  lemma DivUnique(a: int, m: int, q: int, r: int)
    requires m > 0 && a == q * m + r && 0 <= r < m
    ensures a / m == q && a % m == r
  {
    var q' := a / m;
    var r' := a % m;
    assert a == q' * m + r';
    assert (q - q') * m == r' - r;
    SmallMultipleIsZero(q - q', m, r' - r);
  }

  lemma SmallMultipleIsZero(j: int, m: int, d: int)
    requires m > 0 && d == j * m && -m < d < m
    ensures j == 0
  {
  }
}
