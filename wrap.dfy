/** Wrapping integers into a range [min, max] (Wrap.hpp), instantiated at a signed integer
    type. Integers are unbounded here: the overflow of `lhs op rhs` in the C++ type is not
    modelled. */
module Wrap {

  import opened CppArith

  /** The two loops of `wrap` stop exactly when the range is positive, or when it is empty
      and the value already sits on it; for min > max, or min == max != value, they never
      stop. */
  predicate WrapStops(value: int, min: int, max: int) {
    min < max || (min == max && value == min)
  }

  /** How many times `wrap` adds the range (negative: subtracts it). */
  function WrapTurns(value: int, min: int, max: int): int
    requires WrapStops(value, min, max)
  {
    if value < min then -((value - min) / (max - min))
    else if value > max then (max - value) / (max - min)
    else 0
  }

  /** What `wrap` computes, in closed form: a value of [min, max] that differs from `value`
      by a whole number of turns of the range; values already inside come back unchanged. */
  function Wrapped(value: int, min: int, max: int): (r: int)
    requires WrapStops(value, min, max)
    ensures min <= r <= max
    ensures min <= value <= max ==> r == value
    ensures r == value + WrapTurns(value, min, max) * (max - min)
    ensures value < min ==> r < max
    ensures value > max ==> min < r
  {
    var range := max - min;
    if value < min then
      assert value - min == range * ((value - min) / range) + (value - min) % range;
      min + (value - min) % range
    else if value > max then
      assert max - value == range * ((max - value) / range) + (max - value) % range;
      max - (max - value) % range
    else value
  }

  /** `wrap(value, min, max)`: add the range while below min, subtract it while above max. */
  method WrapValue(value: int, min: int, max: int) returns (r: int)
    requires WrapStops(value, min, max)
    ensures r == Wrapped(value, min, max)
  {
    var range := max - min;
    ghost var turns := 0;
    r := value;
    while r < min
      invariant r == value + turns * range
      invariant range > 0 || r == value
      invariant value < min ==> r < max
      invariant value >= min ==> r == value
      decreases min - r
    {
      r := r + range;
      turns := turns + 1;
    }
    while r > max
      invariant r == value + turns * range
      invariant min <= r
      invariant range > 0 || r == value
      invariant value < min ==> r < max
      invariant value > max ==> min < r
      invariant min <= value <= max ==> r == value
      decreases r - max
    {
      r := r - range;
      turns := turns - 1;
    }
    WrappedUnique(value, min, max, r, turns);
  }

  /** Inside [min, max] a value has one representative modulo the range, except that min
      and max represent the same class; the loops and the closed form pick the same one. */
  lemma WrappedUnique(value: int, min: int, max: int, r: int, turns: int)
    requires WrapStops(value, min, max)
    requires min <= r <= max && r == value + turns * (max - min)
    requires value < min ==> r < max
    requires value > max ==> min < r
    requires min <= value <= max ==> r == value
    ensures r == Wrapped(value, min, max)
  {
    if min < max && !(min <= value <= max) {
      var w := Wrapped(value, min, max);
      var k := turns - WrapTurns(value, min, max);
      assert r - w == k * (max - min);
      SmallMultipleIsZero(k, max - min);
    }
  }

  lemma SmallMultipleIsZero(k: int, m: int)
    requires m > 0 && -m < k * m < m
    ensures k == 0
  {
  }

  /** `wrap_add(lhs, rhs, min, max)`. */
  function WrapAdd(lhs: int, rhs: int, min: int, max: int): (r: int)
    requires WrapStops(lhs + rhs, min, max)
    ensures min <= r <= max
    ensures min <= lhs + rhs <= max ==> r == lhs + rhs
    ensures r == lhs + rhs + WrapTurns(lhs + rhs, min, max) * (max - min)
  {
    Wrapped(lhs + rhs, min, max)
  }

  /** `wrap_sub(lhs, rhs, min, max)`. */
  function WrapSub(lhs: int, rhs: int, min: int, max: int): (r: int)
    requires WrapStops(lhs - rhs, min, max)
    ensures min <= r <= max
    ensures min <= lhs - rhs <= max ==> r == lhs - rhs
    ensures r == lhs - rhs + WrapTurns(lhs - rhs, min, max) * (max - min)
  {
    Wrapped(lhs - rhs, min, max)
  }

  /** `wrap_mul(lhs, rhs, min, max)`. */
  function WrapMul(lhs: int, rhs: int, min: int, max: int): (r: int)
    requires WrapStops(lhs * rhs, min, max)
    ensures min <= r <= max
    ensures min <= lhs * rhs <= max ==> r == lhs * rhs
    ensures r == lhs * rhs + WrapTurns(lhs * rhs, min, max) * (max - min)
  {
    Wrapped(lhs * rhs, min, max)
  }

  /** `wrap_div(lhs, rhs, min, max)`: C++ division, so rhs must not be zero. */
  function WrapDiv(lhs: int, rhs: int, min: int, max: int): (r: int)
    requires rhs != 0
    requires WrapStops(TruncDiv(lhs, rhs), min, max)
    ensures min <= r <= max
    ensures min <= TruncDiv(lhs, rhs) <= max ==> r == TruncDiv(lhs, rhs)
    ensures r == TruncDiv(lhs, rhs) + WrapTurns(TruncDiv(lhs, rhs), min, max) * (max - min)
  {
    Wrapped(TruncDiv(lhs, rhs), min, max)
  }

  /** `wrap_shortdist`: the larger of the two wrapped differences. Despite its name this is
      the long way round on a range [0, max]; see ShortDistLongWay. */
  function WrapShortDist(lhs: int, rhs: int, min: int, max: int): (r: int)
    requires min < max
    ensures r >= WrapSub(lhs, rhs, min, max) && r >= WrapSub(rhs, lhs, min, max)
    ensures r == WrapSub(lhs, rhs, min, max) || r == WrapSub(rhs, lhs, min, max)
    ensures min <= r <= max
  {
    var a := WrapSub(lhs, rhs, min, max);
    var b := WrapSub(rhs, lhs, min, max);
    if a > b then a else b
  }

  /** `wrap_shortdiff`: a = wrap_sub(lhs, rhs) when a <= b, else -b with b = wrap_sub(rhs, lhs).
      It is lhs - rhs read around the ring, a whole number of turns away from it. On a
      range [0, max] it is at most half the range either way, the shortest such difference.
      On a range [-max, max] it is always a, because there b == -a. */
  function WrapShortDiff(lhs: int, rhs: int, min: int, max: int): (r: int)
    requires min < max
    ensures WrapSub(lhs, rhs, min, max) <= WrapSub(rhs, lhs, min, max) ==> r == WrapSub(lhs, rhs, min, max)
    ensures WrapSub(lhs, rhs, min, max) > WrapSub(rhs, lhs, min, max) ==> r == -WrapSub(rhs, lhs, min, max)
    ensures r == lhs - rhs + WrapTurns(lhs - rhs, min, max) * (max - min)
      || r == lhs - rhs - WrapTurns(rhs - lhs, min, max) * (max - min)
    ensures min == 0 ==> -max <= 2 * r <= max
    ensures min == -max ==> r == WrapSub(lhs, rhs, min, max)
  {
    var a := WrapSub(lhs, rhs, min, max);
    var b := WrapSub(rhs, lhs, min, max);
    SubPairSum(lhs, rhs, min, max);
    WrapSubOdd(lhs, rhs, min, max);
    if a > b then -b else a
  }

  /** On [0, max] the two wrapped differences are both 0 or add up to the range. */
  lemma SubPairSum(lhs: int, rhs: int, min: int, max: int)
    requires min < max
    ensures var a, b := WrapSub(lhs, rhs, min, max), WrapSub(rhs, lhs, min, max);
      min == 0 ==> (a == 0 && b == 0) || a + b == max
  {
    if min != 0 {
      return;
    }
    var a, b := WrapSub(lhs, rhs, 0, max), WrapSub(rhs, lhs, 0, max);
    var k := WrapTurns(lhs - rhs, 0, max) + WrapTurns(rhs - lhs, 0, max);
    assert a + b == k * max;
    MultipleUpToTwice(k, max);
  }

  lemma MultipleUpToTwice(k: int, m: int)
    requires m > 0 && 0 <= k * m <= 2 * m
    ensures 0 <= k <= 2
  {
  }

  /** On a range symmetric about 0 wrapping is odd, so swapping the operands of
      `wrap_sub` negates the result. */
  lemma WrapSubOdd(lhs: int, rhs: int, min: int, max: int)
    requires min < max
    ensures min == -max ==> WrapSub(rhs, lhs, min, max) == -WrapSub(lhs, rhs, min, max)
  {
    if min != -max {
      return;
    }
    var v := lhs - rhs;
    WrappedUnique(-v, -max, max, -Wrapped(v, -max, max), -WrapTurns(v, -max, max));
  }

  /** The short distance does not depend on the order of the operands. */
  lemma {:induction false} ShortDistSymmetric(lhs: int, rhs: int, min: int, max: int)
    requires min < max
    ensures WrapShortDist(lhs, rhs, min, max) == WrapShortDist(rhs, lhs, min, max)
  {
  }

  /** On a range [-max, max] the "short distance" of the comment is what the code gives:
      the absolute value of the wrapped difference. */
  lemma ShortDistSymmetricRange(lhs: int, rhs: int, max: int)
    requires 0 < max
    ensures var a := WrapSub(lhs, rhs, -max, max);
      WrapShortDist(lhs, rhs, -max, max) == (if a < 0 then -a else a)
  {
    WrapSubOdd(lhs, rhs, -max, max);
  }

  /** On a range [0, max] the code returns the larger wrapped difference, the long way
      round: 10 and 350 on [0, 360] are 20 apart, yet `wrap_shortdist` gives 340, while
      `wrap_shortdiff` gives the short 20. */
  lemma ShortDistLongWay()
    ensures WrapShortDist(10, 350, 0, 360) == 340
    ensures WrapShortDiff(10, 350, 0, 360) == 20
  {
    assert WrapSub(10, 350, 0, 360) == 20;
    assert WrapSub(350, 10, 0, 360) == 340;
  }
}
