/** The sequence algorithms of Itertools.hpp. Each C++20 generator is modelled by the
    sequence of values it yields, built by the loop of its body; iterator pairs become
    sequences, and the predicate and accumulator functors become Dafny functions. */
module Itertools {

  import opened PyCore
  import opened StdPermutation

  // ---------------------------------------------------------------------------------
  // accumulate

  /** The left fold of f over xs, starting from a: a itself for no element, f(a, x) for
      one. */
  function FoldLeft<T>(f: (T, T) -> T, a: T, xs: seq<T>): (r: T)
    ensures xs == [] ==> r == a
    ensures |xs| == 1 ==> r == f(a, xs[0])
  {
    if xs == [] then a else f(FoldLeft(f, a, xs[..|xs| - 1]), xs[|xs| - 1])
  }

  /** `accumulate(begin, end, func, initial)`: with an initial value, that value and then
      each running total, one per element; without one, nothing for an empty range, else
      the first element and then the running totals. */
  method Accumulate<T>(xs: seq<T>, f: (T, T) -> T, initial: Option<T>) returns (r: seq<T>)
    ensures initial.Some? ==> |r| == |xs| + 1
    ensures initial.Some? ==>
      forall i :: 0 <= i <= |xs| ==> r[i] == FoldLeft(f, initial.value, xs[..i])
    ensures initial.None? && xs == [] ==> r == []
    ensures initial.None? && xs != [] ==> |r| == |xs|
    ensures initial.None? && xs != [] ==>
      forall i :: 0 <= i < |xs| ==> r[i] == FoldLeft(f, xs[0], xs[1..i + 1])
  {
    var start: nat;
    var total: T;
    if initial.None? {
      if |xs| == 0 {
        return [];
      }
      total, start := xs[0], 1;
    } else {
      total, start := initial.value, 0;
    }
    ghost var a := total;
    r := [total];
    var i := start;
    assert xs[start..i] == [];
    while i < |xs|
      invariant start <= i <= |xs|
      invariant total == FoldLeft(f, a, xs[start..i])
      invariant |r| == i - start + 1
      invariant forall j :: start <= j <= i ==> r[j - start] == FoldLeft(f, a, xs[start..j])
    {
      assert xs[start..i + 1] == xs[start..i] + [xs[i]];
      FoldLeftSnoc(f, a, xs[start..i], xs[i]);
      total := f(total, xs[i]);
      r := r + [total];
      i := i + 1;
    }
    if initial.Some? {
      forall j | 0 <= j <= |xs|
        ensures r[j] == FoldLeft(f, initial.value, xs[..j])
      {
        assert xs[start..j] == xs[..j];
      }
    } else {
      forall j | 0 <= j < |xs|
        ensures r[j] == FoldLeft(f, xs[0], xs[1..j + 1])
      {
        assert r[(j + 1) - start] == FoldLeft(f, a, xs[start..j + 1]);
      }
    }
  }

  /** Each value yielded after the first is func applied to the previous one and the next
      element. */
  lemma AccumulateStep<T>(f: (T, T) -> T, a: T, xs: seq<T>, i: nat)
    requires i < |xs|
    ensures FoldLeft(f, a, xs[..i + 1]) == f(FoldLeft(f, a, xs[..i]), xs[i])
  {
    assert xs[..i + 1][..i] == xs[..i];
  }

  /** Folding xs + ys continues from the fold of xs: the running total of `accumulate`
      can be resumed at any point. */
  lemma {:induction false} FoldLeftAppend<T>(f: (T, T) -> T, a: T, xs: seq<T>, ys: seq<T>)
    ensures FoldLeft(f, a, xs + ys) == FoldLeft(f, FoldLeft(f, a, xs), ys)
    decreases |ys|
  {
    if ys == [] {
      assert xs + ys == xs;
    } else {
      var init := ys[..|ys| - 1];
      FoldLeftAppend(f, a, xs, init);
      assert xs + ys == (xs + init) + [ys[|ys| - 1]];
      FoldLeftSnoc(f, a, xs + init, ys[|ys| - 1]);
    }
  }

  lemma FoldLeftSnoc<T>(f: (T, T) -> T, a: T, ys: seq<T>, x: T)
    ensures FoldLeft(f, a, ys + [x]) == f(FoldLeft(f, a, ys), x)
  {
    assert (ys + [x])[..|ys|] == ys;
  }

  // ---------------------------------------------------------------------------------
  // batched and chain

  /** The concatenation of a sequence of sequences; every inner sequence fits in it. */
  function Concat<T>(xss: seq<seq<T>>): (r: seq<T>)
    ensures forall i :: 0 <= i < |xss| ==> |xss[i]| <= |r|
  {
    if xss == [] then [] else Concat(xss[..|xss| - 1]) + xss[|xss| - 1]
  }

  lemma ConcatAppend<T>(xss: seq<seq<T>>, ys: seq<T>)
    ensures Concat(xss + [ys]) == Concat(xss) + ys
  {
    assert (xss + [ys])[..|xss|] == xss;
  }

  /** `batched(begin, end, length)`: nothing for a zero length; otherwise consecutive
      chunks of exactly `length` elements that together cover the range except for a
      trailing piece shorter than `length`, which is dropped. */
  method Batched<T>(xs: seq<T>, length: nat) returns (r: seq<seq<T>>)
    ensures length < 1 ==> r == []
    ensures length >= 1 ==> forall b :: b in r ==> |b| == length
    ensures length >= 1 ==> |Concat(r)| <= |xs| && Concat(r) == xs[..|Concat(r)|]
    ensures length >= 1 ==> |xs| - |Concat(r)| < length
  {
    if length < 1 {
      return [];
    }
    r := [];
    var batch: seq<T> := [];
    var i := 0;
    while i < |xs|
      invariant 0 <= i <= |xs|
      invariant forall b :: b in r ==> |b| == length
      invariant |Concat(r)| + |batch| == i
      invariant Concat(r) + batch == xs[..i]
      invariant |batch| < length
    {
      batch := batch + [xs[i]];
      assert Concat(r) + batch == xs[..i + 1];
      if |batch| == length {
        ConcatAppend(r, batch);
        r := r + [batch];
        batch := [];
      }
      i := i + 1;
    }
    assert xs[..i] == xs;
  }

  /** `chain(begin, end, length)`: the elements of each inner range in turn (the `length`
      parameter of its definition is unused). */
  method Chain<T>(xss: seq<seq<T>>) returns (r: seq<T>)
    ensures r == Concat(xss)
  {
    r := [];
    var i := 0;
    while i < |xss|
      invariant 0 <= i <= |xss|
      invariant r == Concat(xss[..i])
    {
      var j := 0;
      while j < |xss[i]|
        invariant 0 <= j <= |xss[i]|
        invariant r == Concat(xss[..i]) + xss[i][..j]
      {
        r := r + [xss[i][j]];
        j := j + 1;
      }
      assert xss[i][..j] == xss[i];
      assert xss[..i + 1][..i] == xss[..i];
      i := i + 1;
    }
    assert xss[..i] == xss;
  }

  /** An element is chained iff it is in one of the inner ranges. */
  lemma {:induction false} ConcatMembership<T>(xss: seq<seq<T>>, x: T)
    ensures x in Concat(xss) <==> exists i :: 0 <= i < |xss| && x in xss[i]
    decreases |xss|
  {
    if xss != [] {
      var init := xss[..|xss| - 1];
      ConcatMembership(init, x);
      assert forall i :: 0 <= i < |init| ==> init[i] == xss[i];
    }
  }

  /** Chaining adds up the lengths. */
  lemma {:induction false} ConcatLength<T>(xss: seq<seq<T>>, ys: seq<seq<T>>)
    ensures |Concat(xss + ys)| == |Concat(xss)| + |Concat(ys)|
    decreases |ys|
  {
    if ys == [] {
      assert xss + ys == xss;
    } else {
      var init := ys[..|ys| - 1];
      var last := ys[|ys| - 1];
      assert xss + ys == (xss + init) + [last];
      assert ys == init + [last];
      ConcatAppend(xss + init, last);
      ConcatAppend(init, last);
      ConcatLength(xss, init);
    }
  }

  // ---------------------------------------------------------------------------------
  // combinations

  /** The elements of xs whose selector in v is non-zero, in their original order. */
  function Selected<T>(xs: seq<T>, v: seq<int>): (r: seq<T>)
    requires |v| == |xs|
  {
    if xs == [] then []
    else Selected(xs[..|xs| - 1], v[..|v| - 1]) + (if v[|v| - 1] != 0 then [xs[|xs| - 1]] else [])
  }

  /** `combinations(begin, end, length)`: nothing when length exceeds the size; otherwise,
      one combination per selector vector, as `std::prev_permutation` steps through them
      from 1^length 0^(size-length). */
  method Combinations<T>(xs: seq<T>, length: nat) returns (r: seq<seq<T>>)
    ensures length > |xs| ==> r == []
    ensures length <= |xs| ==> |r| == Count(|xs|, length)
    ensures length <= |xs| ==>
      forall t :: 0 <= t < |r| ==> r[t] == Selected(xs, Indicator(|xs|, length, t))
  {
    var size := |xs|;
    if length > size {
      return [];
    }
    var indices := Repeat(1, length) + Repeat(0, size - length);
    IndicatorFirst(size, length);
    r := [];
    var t := 0;
    var more := true;
    while more
      invariant t <= Count(size, length)
      invariant more ==> t < Count(size, length) && indices == Indicator(size, length, t)
      invariant !more ==> t == Count(size, length)
      invariant |r| == t
      invariant forall u :: 0 <= u < t ==> r[u] == Selected(xs, Indicator(size, length, u))
      decreases Count(size, length) - t
    {
      var comb := Select(xs, indices);
      r := r + [comb];
      if t + 1 < Count(size, length) {
        IndicatorStep(size, length, t);
      } else {
        IndicatorLast(size, length);
      }
      var step := PrevPermutation(indices);
      more, indices := step.0, step.1;
      t := t + 1;
    }
  }

  /** The inner loop of `combinations`: the elements whose selector is non-zero, pushed in
      order. */
  method Select<T>(xs: seq<T>, indices: seq<int>) returns (comb: seq<T>)
    requires |indices| == |xs|
    ensures comb == Selected(xs, indices)
  {
    comb := [];
    var i := 0;
    while i < |xs|
      invariant 0 <= i <= |xs|
      invariant comb == Selected(xs[..i], indices[..i])
    {
      if indices[i] != 0 {
        comb := comb + [xs[i]];
      }
      assert xs[..i + 1][..i] == xs[..i] && indices[..i + 1][..i] == indices[..i];
      i := i + 1;
    }
    assert xs[..i] == xs && indices[..i] == indices;
  }

  /** The positions whose selector is non-zero, in increasing order. */
  function Positions(v: seq<int>): (p: seq<nat>)
    ensures forall u :: 0 <= u < |p| ==> p[u] < |v| && v[p[u]] != 0
    ensures forall u, w :: 0 <= u < w < |p| ==> p[u] < p[w]
  {
    if v == [] then []
    else Positions(v[..|v| - 1]) + (if v[|v| - 1] != 0 then [|v| - 1] else [])
  }

  /** A combination lists xs at the selected positions, in increasing order of position:
      the elements keep their original order. */
  lemma {:induction false} SelectedAtPositions<T>(xs: seq<T>, v: seq<int>)
    requires |v| == |xs|
    ensures |Selected(xs, v)| == |Positions(v)|
    ensures forall u :: 0 <= u < |Positions(v)| ==> Selected(xs, v)[u] == xs[Positions(v)[u]]
    decreases |xs|
  {
    if xs != [] {
      SelectedAtPositions(xs[..|xs| - 1], v[..|v| - 1]);
    }
  }

  /** Each combination of a 0/1 vector with k ones has k elements. */
  lemma {:induction false} PositionsCount(v: seq<int>)
    requires IsBin(v)
    ensures |Positions(v)| == Ones(v)
    decreases |v|
  {
    if v != [] {
      var init := v[..|v| - 1];
      PositionsCount(init);
      OnesSnoc(init, v[|v| - 1]);
      assert init + [v[|v| - 1]] == v;
    }
  }

  lemma {:induction false} OnesSnoc(v: seq<int>, b: int)
    ensures Ones(v + [b]) == Ones(v) + (if b == 1 then 1 else 0)
    decreases |v|
  {
    if v == [] {
      assert [b][1..] == [];
    } else {
      assert (v + [b])[1..] == v[1..] + [b];
      OnesSnoc(v[1..], b);
    }
  }

  /** Every combination yielded has exactly `length` elements. */
  lemma CombinationLength<T>(xs: seq<T>, length: nat, t: nat)
    requires length <= |xs| && t < Count(|xs|, length)
    ensures |Selected(xs, Indicator(|xs|, length, t))| == length
  {
    var v := Indicator(|xs|, length, t);
    BitsShape(|xs|, length, t);
    SelectedAtPositions(xs, v);
    PositionsCount(v);
  }

  // ---------------------------------------------------------------------------------
  // compress, drop_while, filter_false

  /** The elements of data whose paired selector is true: never more than data, and all
      of it when every selector is true. */
  function Compressed<T>(data: seq<T>, selectors: seq<bool>): (r: seq<T>)
    requires |data| == |selectors|
    ensures |r| <= |data|
    ensures (forall i :: 0 <= i < |selectors| ==> selectors[i]) ==> r == data
  {
    if data == [] then []
    else
      var kept := if selectors[|selectors| - 1] then [data[|data| - 1]] else [];
      Compressed(data[..|data| - 1], selectors[..|selectors| - 1]) + kept
  }

  function Min(a: nat, b: nat): nat {
    if a < b then a else b
  }

  /** `compress(begin1, end1, begin2, end2)`: the elements whose selector is truthy, up to
      the end of the shorter range. */
  method Compress<T>(data: seq<T>, selectors: seq<bool>) returns (r: seq<T>)
    ensures r == Compressed(data[..Min(|data|, |selectors|)], selectors[..Min(|data|, |selectors|)])
  {
    r := [];
    var i := 0;
    while i < |data| && i < |selectors|
      invariant 0 <= i <= Min(|data|, |selectors|)
      invariant r == Compressed(data[..i], selectors[..i])
    {
      if selectors[i] {
        r := r + [data[i]];
      }
      assert data[..i + 1][..i] == data[..i] && selectors[..i + 1][..i] == selectors[..i];
      i := i + 1;
    }
  }

  /** An element is kept iff some selected position holds it. */
  lemma {:induction false} CompressedMembership<T>(data: seq<T>, selectors: seq<bool>, x: T)
    requires |data| == |selectors|
    ensures x in Compressed(data, selectors) <==> exists i :: 0 <= i < |data| && selectors[i] && data[i] == x
    decreases |data|
  {
    if data != [] {
      CompressedMembership(data[..|data| - 1], selectors[..|selectors| - 1], x);
    }
  }

  /** `drop_while(begin, end, predicate)`: the range from the first element failing the
      predicate on, with every later element kept whatever the predicate says. */
  method DropWhile<T>(xs: seq<T>, p: T -> bool) returns (r: seq<T>)
    ensures |r| <= |xs| && r == xs[|xs| - |r|..]
    ensures forall i :: 0 <= i < |xs| - |r| ==> p(xs[i])
    ensures r != [] ==> !p(r[0])
  {
    var cur := 0;
    r := [];
    while cur < |xs|
      invariant 0 <= cur <= |xs|
      invariant forall i :: 0 <= i < cur ==> p(xs[i])
      invariant r == []
    {
      if !p(xs[cur]) {
        r := r + [xs[cur]];
        cur := cur + 1;
        break;
      }
      cur := cur + 1;
    }
    ghost var first := cur - |r|;
    while cur < |xs|
      invariant first <= cur <= |xs|
      invariant r == xs[first..cur]
    {
      r := r + [xs[cur]];
      cur := cur + 1;
    }
  }

  /** The elements of xs failing p, in order: no more than xs, and none satisfying p. */
  function Rejected<T>(xs: seq<T>, p: T -> bool): (r: seq<T>)
    ensures |r| <= |xs|
    ensures forall i :: 0 <= i < |r| ==> !p(r[i])
  {
    if xs == [] then [] else Rejected(xs[..|xs| - 1], p) + (if !p(xs[|xs| - 1]) then [xs[|xs| - 1]] else [])
  }

  /** `filter_false(begin, end, predicate)`: the elements for which the predicate is
      false, in their order. */
  method FilterFalse<T>(xs: seq<T>, p: T -> bool) returns (r: seq<T>)
    ensures r == Rejected(xs, p)
  {
    r := [];
    var cur := 0;
    while cur < |xs|
      invariant 0 <= cur <= |xs|
      invariant r == Rejected(xs[..cur], p)
    {
      if !p(xs[cur]) {
        r := r + [xs[cur]];
      }
      assert xs[..cur + 1][..cur] == xs[..cur];
      cur := cur + 1;
    }
    assert xs[..cur] == xs;
  }

  /** Exactly the elements failing the predicate survive, each as often as it occurs. */
  lemma {:induction false} RejectedMultiset<T>(xs: seq<T>, p: T -> bool, x: T)
    ensures multiset(Rejected(xs, p))[x] == if p(x) then 0 else multiset(xs)[x]
    decreases |xs|
  {
    if xs != [] {
      var init := xs[..|xs| - 1];
      RejectedMultiset(init, p, x);
      assert xs == init + [xs[|xs| - 1]];
    }
  }

  /** Filtering twice removes nothing more. */
  lemma {:induction false} RejectedIdempotent<T>(xs: seq<T>, p: T -> bool)
    ensures Rejected(Rejected(xs, p), p) == Rejected(xs, p)
    decreases |xs|
  {
    if xs != [] {
      var init := xs[..|xs| - 1];
      var last := xs[|xs| - 1];
      RejectedIdempotent(init, p);
      var ri := Rejected(init, p);
      if !p(last) {
        assert Rejected(xs, p) == ri + [last];
        assert (ri + [last])[..|ri|] == ri;
        assert Rejected(ri + [last], p) == Rejected(ri, p) + [last];
      } else {
        assert Rejected(xs, p) == ri;
      }
    }
  }
}
