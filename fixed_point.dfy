/** The integer side of `fixed<T1, T2, dp>` (FixedPoint.hpp): a number is held as its raw
    value `n` of the narrow signed type T1, which stands for n / 2^dp; T2 is the wider type
    in which products and scaled dividends are formed. The two instantiations of the header
    are `fp16` (T1 = int32_t, T2 = int64_t, dp = 16) and `fp4` (T1 = int8_t, T2 = int16_t,
    dp = 4). Products and scaled dividends fit in the type they are formed in for both. The
    raw values of unary `-`, `+` and binary `-` are computed in `int`: for `fp4` the int8_t
    operands are promoted, the result always fits, and only the conversion back to T1 can
    change it (modulo 2^8, as C++20 defines it). For `fp16` the operands are already `int`, and a
    result outside int32_t is signed overflow, which C++ leaves undefined; the model narrows
    such a result like any other, and the lemmas that depend on that case require it not
    to arise when T1 is 32 bits wide. */
module FixedPoint {

  import opened CppArith

  /** The template parameters: the width of T1 in bits and the number of fraction bits. */
  datatype Format = Format(bits: nat, dp: nat)

  const Fp16 := Format(32, 16)
  const Fp4 := Format(8, 4)

  predicate ValidFormat(f: Format) {
    f.bits >= 1
  }

  /** A `fixed` value; `n` is its raw T1 value. */
  datatype Fixed = Fixed(n: int)

  predicate ValidFixed(f: Format, a: Fixed)
    requires ValidFormat(f)
  {
    InSigned(f.bits, a.n)
  }

  /** The defaulted constructor: the member initialiser `n = (T1)0`. */
  function Default(f: Format): (r: Fixed)
    requires ValidFormat(f)
    ensures ValidFixed(f, r) && r.n == 0
  {
    Fixed(0)
  }

  /** `form(n)`: a value whose raw representation is exactly `n`. Its argument has type T1,
      so every caller's expression is first converted to T1 (`Narrow`). */
  function Form(f: Format, m: int): (r: Fixed)
    requires ValidFormat(f) && InSigned(f.bits, m)
    ensures ValidFixed(f, r) && r.n == m
  {
    Fixed(m)
  }

  /** Unary `-`: `form(-n)`. */
  function Neg(f: Format, a: Fixed): (r: Fixed)
    requires ValidFormat(f)
    ensures ValidFixed(f, r)
    ensures InSigned(f.bits, -a.n) ==> r.n == -a.n
  {
    NarrowInRangeIfSigned(f.bits, -a.n);
    Form(f, Narrow(f.bits, -a.n))
  }

  /** Binary `+`: `form(n + f.n)`. */
  function Add(f: Format, a: Fixed, b: Fixed): (r: Fixed)
    requires ValidFormat(f)
    ensures ValidFixed(f, r)
    ensures InSigned(f.bits, a.n + b.n) ==> r.n == a.n + b.n
  {
    NarrowInRangeIfSigned(f.bits, a.n + b.n);
    Form(f, Narrow(f.bits, a.n + b.n))
  }

  /** Binary `-`: `form(n - f.n)`. */
  function Sub(f: Format, a: Fixed, b: Fixed): (r: Fixed)
    requires ValidFormat(f)
    ensures ValidFixed(f, r)
    ensures InSigned(f.bits, a.n - b.n) ==> r.n == a.n - b.n
  {
    NarrowInRangeIfSigned(f.bits, a.n - b.n);
    Form(f, Narrow(f.bits, a.n - b.n))
  }

  /** Binary `*`: `form(((T2)n * (T2)f.n) >> dp)`; the right shift of a signed value
      rounds toward minus infinity, as Dafny's division by a positive number does. */
  function Mul(f: Format, a: Fixed, b: Fixed): (r: Fixed)
    requires ValidFormat(f)
    ensures ValidFixed(f, r)
    ensures InSigned(f.bits, (a.n * b.n) / Pow2(f.dp)) ==> r.n == (a.n * b.n) / Pow2(f.dp)
  {
    NarrowInRangeIfSigned(f.bits, (a.n * b.n) / Pow2(f.dp));
    Form(f, Narrow(f.bits, (a.n * b.n) / Pow2(f.dp)))
  }

  /** Binary `/`: `form(((T2)n << dp) / (T2)f.n)`, a C++ division, so `f.n` must not be
      zero. */
  function Div(f: Format, a: Fixed, b: Fixed): (r: Fixed)
    requires ValidFormat(f) && b.n != 0
    ensures ValidFixed(f, r)
    ensures InSigned(f.bits, TruncDiv(a.n * Pow2(f.dp), b.n)) ==> r.n == TruncDiv(a.n * Pow2(f.dp), b.n)
  {
    NarrowInRangeIfSigned(f.bits, TruncDiv(a.n * Pow2(f.dp), b.n));
    Form(f, Narrow(f.bits, TruncDiv(a.n * Pow2(f.dp), b.n)))
  }

  lemma NarrowInRangeIfSigned(bits: nat, x: int)
    requires bits >= 1
    ensures InSigned(bits, x) ==> Narrow(bits, x) == x
  {
    if InSigned(bits, x) {
      NarrowInRange(bits, x);
    }
  }

  /** The raw value standing for 1.0, when T1 can hold it. */
  function One(f: Format): (r: Fixed)
    requires ValidFormat(f) && f.dp + 1 < f.bits
    ensures ValidFixed(f, r)
  {
    Pow2Monotone(f.dp, f.bits - 1);
    Form(f, Pow2(f.dp))
  }

  lemma Pow2Monotone(i: nat, j: nat)
    requires i < j
    ensures Pow2(i) < Pow2(j)
  {
    if i + 1 < j {
      Pow2Monotone(i, j - 1);
    }
  }

  /** Multiplying by one gives back the value. */
  lemma {:induction false} MulByOne(f: Format, a: Fixed)
    requires ValidFormat(f) && f.dp + 1 < f.bits && ValidFixed(f, a)
    ensures Mul(f, a, One(f)) == a
  {
    var p := Pow2(f.dp);
    assert (a.n * p) / p == a.n by {
      DivUnique(a.n * p, p, a.n, 0);
    }
  }

  /** Dividing by one gives back the value. */
  lemma {:induction false} DivByOne(f: Format, a: Fixed)
    requires ValidFormat(f) && f.dp + 1 < f.bits && ValidFixed(f, a)
    ensures Div(f, a, One(f)) == a
  {
    var p := Pow2(f.dp);
    assert TruncDiv(a.n * p, p) == a.n by {
      if a.n >= 0 {
        DivUnique(a.n * p, p, a.n, 0);
      } else {
        assert Abs(a.n * p) == (-a.n) * p;
        DivUnique((-a.n) * p, p, -a.n, 0);
      }
    }
  }

  /** a + (-a) is zero, for every raw value; for a T1 narrower than `int` the most negative
      one is included, since `-n` is then computed in `int` and wraps back to itself. */
  lemma {:induction false} AddNegIsZero(f: Format, a: Fixed)
    requires ValidFormat(f) && ValidFixed(f, a)
    requires f.bits < 32 || InSigned(f.bits, -a.n)
    ensures Add(f, a, Neg(f, a)).n == 0
  {
    var m := Pow2(f.bits);
    var h := Pow2(f.bits - 1);
    var neg := Narrow(f.bits, -a.n);
    if a.n == -h {
      assert m == 2 * h;
      NarrowShift(f.bits, -a.n, -1);
      NarrowInRange(f.bits, -a.n - m);
      NarrowShift(f.bits, 0, -1);
      NarrowInRange(f.bits, 0);
    } else {
      NarrowInRange(f.bits, -a.n);
      NarrowInRange(f.bits, 0);
    }
  }

  /** a - b is a + (-b): for every pair of raw values when T1 is narrower than `int`, and
      otherwise whenever neither `-b` nor `a - b` overflows. */
  lemma {:induction false} SubIsAddNeg(f: Format, a: Fixed, b: Fixed)
    requires ValidFormat(f) && ValidFixed(f, a) && ValidFixed(f, b)
    requires f.bits < 32 || (InSigned(f.bits, -b.n) && InSigned(f.bits, a.n - b.n))
    ensures Sub(f, a, b) == Add(f, a, Neg(f, b))
  {
    var m := Pow2(f.bits);
    var h := Pow2(f.bits - 1);
    if b.n == -h {
      assert m == 2 * h;
      NarrowShift(f.bits, -b.n, -1);
      NarrowInRange(f.bits, -b.n - m);
      assert Neg(f, b).n == -b.n - m;
      NarrowShift(f.bits, a.n - b.n, -1);
    } else {
      NarrowInRange(f.bits, -b.n);
    }
  }
}
