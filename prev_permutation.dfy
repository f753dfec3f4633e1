/** `std::prev_permutation`, which `itertools::combinations` (Itertools.hpp) uses to step a
    vector of 0/1 selectors, and the enumeration of selectors that this stepping produces.
    The library call is modelled by the algorithm the C++ standard describes: find the last
    descent, swap its head with the last smaller element after it, reverse the tail. */
module StdPermutation {

  import Combinatorics

  function Reverse(s: seq<int>): (r: seq<int>)
    ensures |r| == |s| && forall i :: 0 <= i < |s| ==> r[i] == s[|s| - 1 - i]
  {
    seq(|s|, i requires 0 <= i < |s| => s[|s| - 1 - i])
  }

  predicate IsDescent(v: seq<int>, i: int) {
    0 <= i < |v| - 1 && v[i] > v[i + 1]
  }

  /** The last index i < m with v[i] > v[i + 1], or -1. */
  function LastDescentBefore(v: seq<int>, m: nat): (i: int)
    ensures i == -1 || (i < m && IsDescent(v, i))
    ensures forall k :: i < k < m ==> !IsDescent(v, k)
  {
    if m == 0 then -1
    else if IsDescent(v, m - 1) then m - 1
    else LastDescentBefore(v, m - 1)
  }

  /** The last index i with v[i] > v[i + 1], or -1 when v is non-decreasing. */
  function LastDescent(v: seq<int>): (i: int)
    ensures i == -1 || IsDescent(v, i)
    ensures forall k :: i < k < |v| - 1 ==> !IsDescent(v, k)
  {
    LastDescentBefore(v, if |v| == 0 then 0 else |v| - 1)
  }

  /** The last index j with lo <= j < m and v[j] < pivot, or -1. */
  function LastSmallerBefore(v: seq<int>, pivot: int, lo: nat, m: nat): (j: int)
    requires m <= |v|
    ensures j == -1 || (lo <= j < m && v[j] < pivot)
    ensures j == -1 ==> forall k :: lo <= k < m ==> v[k] >= pivot
    ensures j >= 0 ==> forall k :: j < k < m ==> v[k] >= pivot
  {
    if m <= lo then -1
    else if v[m - 1] < pivot then m - 1
    else LastSmallerBefore(v, pivot, lo, m - 1)
  }

  /** The last index j >= lo with v[j] < pivot, or -1. */
  function LastSmaller(v: seq<int>, pivot: int, lo: nat): (j: int)
    ensures j == -1 || (lo <= j < |v| && v[j] < pivot)
    ensures j == -1 ==> forall k :: lo <= k < |v| ==> v[k] >= pivot
    ensures j >= 0 ==> forall k :: j < k < |v| ==> v[k] >= pivot
  {
    LastSmallerBefore(v, pivot, lo, |v|)
  }

  /** Swap v[i] and v[j], then reverse everything after position i. */
  function SwapAndReverse(v: seq<int>, i: nat, j: nat): (r: seq<int>)
    requires i < j < |v|
    ensures |r| == |v| && multiset(r) == multiset(v)
    ensures r[..i] == v[..i] && r[i] == v[j]
  {
    var w := v[i := v[j]][j := v[i]];
    SwapAndReversePermutes(v, i, j);
    w[..i + 1] + Reverse(w[i + 1..])
  }

  /** a comes before b in lexicographic order: they agree up to a position where a is
      smaller. */
  predicate LexLess(a: seq<int>, b: seq<int>) {
    exists k :: 0 <= k < |a| && k < |b| && a[..k] == b[..k] && a[k] < b[k]
  }

  predicate NonDecreasing(v: seq<int>) {
    forall a, b :: 0 <= a < b < |v| ==> v[a] <= v[b]
  }

  predicate NonIncreasing(v: seq<int>) {
    forall a, b :: 0 <= a < b < |v| ==> v[a] >= v[b]
  }

  /** `std::prev_permutation` on a whole vector: the flag it returns and the vector it
      leaves, a rearrangement of the input; with no descent the vector is the first
      permutation, and it is reversed into the last one. */
  function PrevPermutation(v: seq<int>): (r: (bool, seq<int>))
    ensures r.0 <==> LastDescent(v) >= 0
    ensures |r.1| == |v| && multiset(r.1) == multiset(v)
  {
    var i := LastDescent(v);
    if i < 0 then
      ReversePermutes(v);
      (false, Reverse(v))
    else (true, SwapAndReverse(v, i, LastSmaller(v, v[i], i + 1)))
  }

  /** The order `std::prev_permutation` promises: with a descent the result comes before
      the input in lexicographic order; without one the input is the first permutation
      (sorted ascending) and the result the last (sorted descending). */
  lemma PrevPermutationOrder(v: seq<int>)
    ensures var r := PrevPermutation(v);
      (r.0 ==> LexLess(r.1, v)) && (!r.0 ==> NonDecreasing(v) && NonIncreasing(r.1))
  {
    var i := LastDescent(v);
    if i < 0 {
      NoDescentSorted(v);
    } else {
      var r := SwapAndReverse(v, i, LastSmaller(v, v[i], i + 1));
      assert r[..i] == v[..i] && r[i] < v[i];
    }
  }

  /** Reversing keeps every element as often as it occurs. */
  lemma {:induction false} ReversePermutes(s: seq<int>)
    ensures multiset(Reverse(s)) == multiset(s)
    decreases |s|
  {
    if s != [] {
      var init := s[..|s| - 1];
      ReversePermutes(init);
      assert Reverse(s) == [s[|s| - 1]] + Reverse(init);
      assert s == init + [s[|s| - 1]];
    }
  }

  /** The swap and the reversal of the tail keep every element as often as it occurs. */
  lemma SwapAndReversePermutes(v: seq<int>, i: nat, j: nat)
    requires i < j < |v|
    ensures var w := v[i := v[j]][j := v[i]];
      multiset(w[..i + 1] + Reverse(w[i + 1..])) == multiset(v)
  {
    var w := v[i := v[j]][j := v[i]];
    ReversePermutes(w[i + 1..]);
    assert w[..i + 1] + w[i + 1..] == w;
    assert multiset(w) == multiset(v);
  }

  /** Without a descent the vector is sorted ascending. */
  lemma {:induction false} NoDescentSorted(v: seq<int>)
    requires forall k :: 0 <= k < |v| - 1 ==> !IsDescent(v, k)
    ensures NonDecreasing(v)
    decreases |v|
  {
    if |v| > 1 {
      var init := v[..|v| - 1];
      assert forall k :: 0 <= k < |init| - 1 ==> !IsDescent(init, k) by {
        forall k | 0 <= k < |init| - 1
          ensures !IsDescent(init, k)
        {
          assert !IsDescent(v, k);
        }
      }
      NoDescentSorted(init);
      forall a, b | 0 <= a < b < |v|
        ensures v[a] <= v[b]
      {
        if b < |v| - 1 {
          assert init[a] <= init[b];
        } else if a < b - 1 {
          assert init[a] <= init[b - 1];
          assert !IsDescent(v, b - 1);
        } else {
          assert !IsDescent(v, a);
        }
      }
    }
  }

  // ---------------------------------------------------------------------------------
  // 0/1 selector vectors.

  function Repeat(x: int, n: nat): (r: seq<int>)
    ensures |r| == n
  {
    seq(n, _ => x)
  }

  predicate IsBin(v: seq<int>) {
    forall i :: 0 <= i < |v| ==> v[i] == 0 || v[i] == 1
  }

  /** The number of ones in v. */
  function Ones(v: seq<int>): nat
  {
    if v == [] then 0 else (if v[0] == 1 then 1 else 0) + Ones(v[1..])
  }

  /** C(n, k) >= 1 whenever k <= n. */
  lemma {:induction false} BinomPositive(n: nat, k: nat)
    requires k <= n
    ensures Combinatorics.Binom(n, k) >= 1
    decreases n
  {
    if 0 < k < n {
      BinomPositive(n - 1, k - 1);
    }
  }

  /** The t-th of the C(n, k) vectors of length n with k ones, in decreasing
      lexicographic order: the C(n-1, k-1) vectors starting with 1 come before the
      C(n-1, k) starting with 0. */
  function Bits(n: nat, k: nat, t: nat): seq<int>
    requires k <= n && t < Combinatorics.Binom(n, k)
    decreases n
  {
    if k == 0 then Repeat(0, n)
    else if k == n then Repeat(1, n)
    else if t < Combinatorics.Binom(n - 1, k - 1) then [1] + Bits(n - 1, k - 1, t)
    else [0] + Bits(n - 1, k, t - Combinatorics.Binom(n - 1, k - 1))
  }

  /** How many selector vectors there are: C(n, k). */
  function Count(n: nat, k: nat): nat
  {
    Combinatorics.Binom(n, k)
  }

  /** The t-th selector vector (a non-recursive name for `Bits`, so that facts proved
      about it are used as stated). */
  function Indicator(n: nat, k: nat, t: nat): (v: seq<int>)
    requires k <= n && t < Count(n, k)
    ensures |v| == n
  {
    BitsShape(n, k, t);
    Bits(n, k, t)
  }

  lemma ConsRepeats(x: int, p: nat, y: int, q: nat)
    ensures [x] + (Repeat(x, p) + Repeat(y, q)) == Repeat(x, p + 1) + Repeat(y, q)
  {
  }

  lemma AppendEmptyRepeat(x: int, n: nat, y: int)
    ensures Repeat(x, n) == Repeat(x, n) + Repeat(y, 0)
    ensures Repeat(x, n) == Repeat(y, 0) + Repeat(x, n)
  {
  }

  /** The enumeration starts at 1^k 0^(n-k), the vector `std::fill` sets up. */
  lemma {:induction false} BitsFirst(n: nat, k: nat)
    requires k <= n
    ensures Combinatorics.Binom(n, k) >= 1
    ensures Bits(n, k, 0) == Repeat(1, k) + Repeat(0, n - k)
    decreases n
  {
    BinomPositive(n, k);
    if k == 0 {
      AppendEmptyRepeat(0, n, 1);
    } else if k == n {
      AppendEmptyRepeat(1, n, 0);
    } else {
      BitsFirst(n - 1, k - 1);
      ConsRepeats(1, k - 1, 0, n - k);
    }
  }

  /** The enumeration ends at 0^(n-k) 1^k. */
  lemma {:induction false} BitsFinal(n: nat, k: nat)
    requires k <= n
    ensures Combinatorics.Binom(n, k) >= 1
    ensures Bits(n, k, Combinatorics.Binom(n, k) - 1) == Repeat(0, n - k) + Repeat(1, k)
    decreases n
  {
    BinomPositive(n, k);
    if k == 0 {
      AppendEmptyRepeat(0, n, 1);
    } else if k == n {
      AppendEmptyRepeat(1, n, 0);
    } else {
      BitsFinal(n - 1, k);
      BinomPositive(n - 1, k - 1);
      ConsRepeats(0, n - 1 - k, 1, k);
    }
  }

  // ---------------------------------------------------------------------------------
  // prev_permutation steps through the enumeration.

  lemma LastDescentIs(v: seq<int>, i: int)
    requires IsDescent(v, i)
    requires forall k :: i < k < |v| - 1 ==> !IsDescent(v, k)
    ensures LastDescent(v) == i
  {
  }

  lemma LastSmallerIs(v: seq<int>, pivot: int, lo: nat, j: int)
    requires lo <= j < |v| && v[j] < pivot
    requires forall k :: j < k < |v| ==> v[k] >= pivot
    ensures LastSmaller(v, pivot, lo) == j
  {
  }

  /** Stepping a vector with a descent does not touch a head element prepended to it. */
  lemma PrevPermutationPrepend(x: int, w: seq<int>)
    requires LastDescent(w) >= 0
    ensures PrevPermutation([x] + w) == (true, [x] + PrevPermutation(w).1)
  {
    var v := [x] + w;
    var i := LastDescent(w);
    assert IsDescent(v, i + 1);
    assert forall k :: i + 1 < k < |v| - 1 ==> !IsDescent(v, k) by {
      forall k | i + 1 < k < |v| - 1
        ensures !IsDescent(v, k)
      {
        assert !IsDescent(w, k - 1);
      }
    }
    LastDescentIs(v, i + 1);
    var j := LastSmaller(w, w[i], i + 1);
    LastSmallerIs(v, v[i + 1], i + 2, j + 1);
    SwapAndReversePrepend(x, w, i, j);
  }

  lemma SwapAndReversePrepend(x: int, w: seq<int>, i: nat, j: nat)
    requires i < j < |w|
    ensures SwapAndReverse([x] + w, i + 1, j + 1) == [x] + SwapAndReverse(w, i, j)
  {
    var v := [x] + w;
    var sw := w[i := w[j]][j := w[i]];
    var sv := v[i + 1 := v[j + 1]][j + 1 := v[i + 1]];
    assert sv == [x] + sw;
    assert sv[..i + 2] == [x] + sw[..i + 1];
    assert sv[i + 2..] == sw[i + 1..];
  }

  lemma ReverseRepeats(a: int, p: nat, b: int, q: nat)
    ensures Reverse(Repeat(a, p) + Repeat(b, q)) == Repeat(b, q) + Repeat(a, p)
  {
  }

  /** 1 0^z 1^o (z >= 1) steps to 0 1^(o+1) 0^(z-1): where the first half of the
      enumeration hands over to the second. */
  lemma PrevPermutationHandOver(v: seq<int>, z: nat, o: nat, u: seq<int>)
    requires z >= 1
    requires v == [1] + (Repeat(0, z) + Repeat(1, o))
    requires u == [0] + (Repeat(1, o + 1) + Repeat(0, z - 1))
    ensures PrevPermutation(v) == (true, u)
  {
    assert IsDescent(v, 0);
    LastDescentIs(v, 0);
    LastSmallerIs(v, 1, 1, z);
    var w := v[0 := v[z]][z := v[0]];
    assert w[..1] == [0];
    assert w[1..] == Repeat(0, z - 1) + Repeat(1, o + 1);
    ReverseRepeats(0, z - 1, 1, o + 1);
  }

  /** 0^z 1^o is the first permutation: prev_permutation reports there is none before it. */
  lemma PrevPermutationSorted(v: seq<int>, z: nat, o: nat)
    requires v == Repeat(0, z) + Repeat(1, o)
    ensures !PrevPermutation(v).0
  {
    assert forall k :: -1 < k < |v| - 1 ==> !IsDescent(v, k);
  }

  /** The enumeration starts at 1^k 0^(n-k), the vector `std::fill` sets up. */
  lemma IndicatorFirst(n: nat, k: nat)
    requires k <= n
    ensures Count(n, k) >= 1
    ensures Indicator(n, k, 0) == Repeat(1, k) + Repeat(0, n - k)
  {
    BitsFirst(n, k);
  }

  /** The enumeration ends at 0^(n-k) 1^k. */
  lemma IndicatorFinal(n: nat, k: nat)
    requires k <= n
    ensures Count(n, k) >= 1
    ensures Indicator(n, k, Count(n, k) - 1) == Repeat(0, n - k) + Repeat(1, k)
  {
    BitsFinal(n, k);
  }

  /** One level of the recursion of `Bits`, in terms of `Indicator` and `Count`. */
  lemma IndicatorUnfold(n: nat, k: nat, t: nat)
    requires 0 < k < n && t < Count(n, k)
    ensures Count(n, k) == Count(n - 1, k - 1) + Count(n - 1, k)
    ensures t < Count(n - 1, k - 1) ==> Indicator(n, k, t) == [1] + Indicator(n - 1, k - 1, t)
    ensures t >= Count(n - 1, k - 1) ==> Indicator(n, k, t) == [0] + Indicator(n - 1, k, t - Count(n - 1, k - 1))
  {
  }

  /** Each selector vector but the last steps to the next one. */
  lemma {:induction false} IndicatorStep(n: nat, k: nat, t: nat)
    requires k <= n && t + 1 < Count(n, k)
    ensures PrevPermutation(Indicator(n, k, t)) == (true, Indicator(n, k, t + 1))
    decreases n
  {
    if 0 < k < n {
      var h := Count(n - 1, k - 1);
      CountUnfold(n, k);
      if t + 1 < h {
        IndicatorStep(n - 1, k - 1, t);
        StepWithinOnes(n, k, t);
      } else if t + 1 == h {
        StepAcross(n, k, t);
      } else {
        IndicatorStep(n - 1, k, t - h);
        StepWithinZeros(n, k, t);
      }
    }
  }

  /** Pascal's rule on the number of selector vectors. */
  lemma CountUnfold(n: nat, k: nat)
    requires 0 < k < n
    ensures Count(n, k) == Count(n - 1, k - 1) + Count(n - 1, k)
  {
  }

  /** Both vectors start with 1: the step happens in the tail. */
  lemma StepWithinOnes(n: nat, k: nat, t: nat)
    requires 0 < k < n && t + 1 < Count(n - 1, k - 1) && t + 1 < Count(n, k)
    requires PrevPermutation(Indicator(n - 1, k - 1, t)) == (true, Indicator(n - 1, k - 1, t + 1))
    ensures PrevPermutation(Indicator(n, k, t)) == (true, Indicator(n, k, t + 1))
  {
    IndicatorUnfold(n, k, t);
    IndicatorUnfold(n, k, t + 1);
    StepPrepend(1, Indicator(n - 1, k - 1, t), Indicator(n - 1, k - 1, t + 1),
      Indicator(n, k, t), Indicator(n, k, t + 1));
  }

  /** From the last vector starting with 1 to the first starting with 0. */
  lemma StepAcross(n: nat, k: nat, t: nat)
    requires 0 < k < n && t + 1 == Count(n - 1, k - 1) && t + 1 < Count(n, k)
    ensures PrevPermutation(Indicator(n, k, t)) == (true, Indicator(n, k, t + 1))
  {
    IndicatorUnfold(n, k, t);
    IndicatorUnfold(n, k, t + 1);
    IndicatorFinal(n - 1, k - 1);
    IndicatorFirst(n - 1, k);
    PrevPermutationHandOver(Indicator(n, k, t), n - k, k - 1, Indicator(n, k, t + 1));
  }

  /** Both vectors start with 0: the step happens in the tail. */
  lemma StepWithinZeros(n: nat, k: nat, t: nat)
    requires 0 < k < n && Count(n - 1, k - 1) <= t && t + 1 < Count(n, k)
    requires Count(n, k) == Count(n - 1, k - 1) + Count(n - 1, k)
    requires PrevPermutation(Indicator(n - 1, k, t - Count(n - 1, k - 1)))
      == (true, Indicator(n - 1, k, t - Count(n - 1, k - 1) + 1))
    ensures PrevPermutation(Indicator(n, k, t)) == (true, Indicator(n, k, t + 1))
  {
    var h := Count(n - 1, k - 1);
    IndicatorUnfold(n, k, t);
    IndicatorUnfold(n, k, t + 1);
    StepPrepend(0, Indicator(n - 1, k, t - h), Indicator(n - 1, k, t - h + 1),
      Indicator(n, k, t), Indicator(n, k, t + 1));
  }

  /** A step of the tail is a step of the whole vector. */
  lemma StepPrepend(x: int, w: seq<int>, w': seq<int>, v: seq<int>, v': seq<int>)
    requires PrevPermutation(w) == (true, w')
    requires v == [x] + w && v' == [x] + w'
    ensures PrevPermutation(v) == (true, v')
  {
    PrevPermutationPrepend(x, w);
  }

  /** The last selector vector ends the enumeration. */
  lemma IndicatorLast(n: nat, k: nat)
    requires k <= n
    ensures Count(n, k) >= 1
    ensures !PrevPermutation(Indicator(n, k, Count(n, k) - 1)).0
  {
    IndicatorFinal(n, k);
    PrevPermutationSorted(Indicator(n, k, Count(n, k) - 1), n - k, k);
  }

  /** Every vector of the enumeration selects k of the n positions. */
  lemma {:induction false} BitsShape(n: nat, k: nat, t: nat)
    requires k <= n && t < Combinatorics.Binom(n, k)
    ensures var v := Bits(n, k, t); |v| == n && IsBin(v) && Ones(v) == k
    decreases n
  {
    if k == 0 {
      RepeatOnes(0, n);
    } else if k == n {
      RepeatOnes(1, n);
    } else {
      var h := Combinatorics.Binom(n - 1, k - 1);
      if t < h {
        var w := Bits(n - 1, k - 1, t);
        BitsShape(n - 1, k - 1, t);
        assert ([1] + w)[1..] == w;
      } else {
        var w := Bits(n - 1, k, t - h);
        BitsShape(n - 1, k, t - h);
        assert ([0] + w)[1..] == w;
      }
    }
  }

  lemma {:induction false} RepeatOnes(x: int, n: nat)
    requires x == 0 || x == 1
    ensures Ones(Repeat(x, n)) == if x == 1 then n else 0
    decreases n
  {
    if n > 0 {
      assert Repeat(x, n)[1..] == Repeat(x, n - 1);
      RepeatOnes(x, n - 1);
    }
  }

  /** No vector is enumerated twice. */
  lemma {:induction false} BitsDistinct(n: nat, k: nat, s: nat, t: nat)
    requires k <= n && s < t < Combinatorics.Binom(n, k)
    ensures Bits(n, k, s) != Bits(n, k, t)
    decreases n
  {
    if 0 < k < n {
      var h := Combinatorics.Binom(n - 1, k - 1);
      if t < h {
        var u, w := Bits(n - 1, k - 1, s), Bits(n - 1, k - 1, t);
        BitsDistinct(n - 1, k - 1, s, t);
        assert ([1] + u)[1..] == u && ([1] + w)[1..] == w;
      } else if s >= h {
        var u, w := Bits(n - 1, k, s - h), Bits(n - 1, k, t - h);
        BitsDistinct(n - 1, k, s - h, t - h);
        assert ([0] + u)[1..] == u && ([0] + w)[1..] == w;
      } else {
        assert Bits(n, k, s)[0] == 1 && Bits(n, k, t)[0] == 0;
      }
    }
  }

  /** Every choice of k of the n positions is enumerated. */
  lemma {:induction false} BitsComplete(n: nat, k: nat, v: seq<int>)
    requires k <= n && |v| == n && IsBin(v) && Ones(v) == k
    ensures exists t: nat :: t < Combinatorics.Binom(n, k) && Bits(n, k, t) == v
    decreases n
  {
    if k == 0 {
      NoOnes(v);
      assert Bits(n, k, 0) == v;
    } else if k == n {
      AllOnes(v);
      assert Bits(n, k, 0) == v;
    } else {
      var h := Combinatorics.Binom(n - 1, k - 1);
      var w := v[1..];
      assert v == [v[0]] + w;
      if v[0] == 1 {
        BitsComplete(n - 1, k - 1, w);
        var t: nat :| t < h && Bits(n - 1, k - 1, t) == w;
        assert Bits(n, k, t) == v;
      } else {
        OnesBound(w);
        BitsComplete(n - 1, k, w);
        var t: nat :| t < Combinatorics.Binom(n - 1, k) && Bits(n - 1, k, t) == w;
        assert Bits(n, k, h + t) == v;
      }
    }
  }
  lemma {:induction false} OnesBound(v: seq<int>)
    ensures Ones(v) <= |v|
    decreases |v|
  {
    if v != [] {
      OnesBound(v[1..]);
    }
  }

  lemma {:induction false} NoOnes(v: seq<int>)
    requires IsBin(v) && Ones(v) == 0
    ensures forall i :: 0 <= i < |v| ==> v[i] == 0
    decreases |v|
  {
    if v != [] {
      NoOnes(v[1..]);
      assert forall i :: 1 <= i < |v| ==> v[i] == v[1..][i - 1];
    }
  }

  lemma {:induction false} AllOnes(v: seq<int>)
    requires IsBin(v) && Ones(v) == |v|
    ensures forall i :: 0 <= i < |v| ==> v[i] == 1
    decreases |v|
  {
    if v != [] {
      OnesBound(v[1..]);
      AllOnes(v[1..]);
      assert forall i :: 1 <= i < |v| ==> v[i] == v[1..][i - 1];
    }
  }
}
