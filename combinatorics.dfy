/** Counting formulas (Combinatorics.py): permutations, combinations and "accomodations"
    (arrangements of k out of n), with and without repetition, each a quotient of
    factorials computed with Python's `math.factorial` and `//`. */
module Combinatorics {

  import opened PyCore
  import CppArith

  function Fact(n: nat): (r: nat)
    ensures r >= 1
  {
    if n == 0 then 1 else n * Fact(n - 1)
  }

  /** `math.factorial(n)`: negative arguments raise ValueError. */
  function PyFactorial(n: int): (r: Outcome<nat>)
    ensures n < 0 <==> r == Raise(ValueError)
    ensures n >= 0 ==> r == Return(Fact(n))
  {
    if n < 0 then Raise(ValueError) else Return(Fact(n))
  }

  /** n (n-1) ... (n-k+1): the k-term falling factorial. */
  function Falling(n: nat, k: nat): nat
    requires k <= n
  {
    if k == 0 then 1 else n * Falling(n - 1, k - 1)
  }

  /** The binomial coefficient by Pascal's rule, independent of factorials. */
  function Binom(n: nat, k: nat): nat
  {
    if k > n then 0
    else if k == 0 || k == n then 1
    else Binom(n - 1, k - 1) + Binom(n - 1, k)
  }

  // ---------------------------------------------------------------------------------
  // The functions of the script.

  /** `permutations_no_repeat(n)`: the n! orders of n distinct items. */
  function PermutationsNoRepeat(n: int): (r: Outcome<int>)
    ensures n < 0 <==> r == Raise(ValueError)
    ensures n >= 0 ==> r == Return(Fact(n))
  {
    match PyFactorial(n)
    case Raise(e) => Raise(e)
    case Return(f) => Return(f)
  }

  /** `combinations_no_repeat(k, n)`: factorial(n) // (factorial(n - k) * factorial(k)),
      which is C(n, k), the number of ways to choose k of n. */
  function CombinationsNoRepeat(k: int, n: int): (r: Outcome<int>)
    ensures r.Raise? <==> !(0 <= k <= n)
    ensures r.Raise? ==> r.error == ValueError
    ensures 0 <= k <= n ==> r == Return(Binom(n, k))
  {
    if n < 0 || n - k < 0 || k < 0 then Raise(ValueError)
    else
      BinomFactorial(n, k);
      QuotientOfProduct(Fact(n), Binom(n, k), Fact(k), Fact(n - k));
      Return(Fact(n) / (Fact(n - k) * Fact(k)))
  }

  /** `combinations_repeat(k, n)`: factorial(n + k - 1) // (factorial(n - 1) * factorial(k)),
      which is C(n + k - 1, k), the number of multisets of size k over n kinds; n = 0
      raises even for k = 0. */
  function CombinationsRepeat(k: int, n: int): (r: Outcome<int>)
    ensures r.Raise? <==> !(k >= 0 && n >= 1)
    ensures r.Raise? ==> r.error == ValueError
    ensures k >= 0 && n >= 1 ==> r == Return(Binom(n + k - 1, k))
  {
    if n + k - 1 < 0 || n - 1 < 0 || k < 0 then Raise(ValueError)
    else
      BinomFactorial(n + k - 1, k);
      assert n + k - 1 - k == n - 1;
      QuotientOfProduct(Fact(n + k - 1), Binom(n + k - 1, k), Fact(k), Fact(n - 1));
      Return(Fact(n + k - 1) / (Fact(n - 1) * Fact(k)))
  }

  /** `combinations(k, n)`: a positive k selects the formula without repetition, any other
      k the formula with repetition for -k. */
  function Combinations(k: int, n: int): (r: Outcome<int>)
    ensures 0 < k <= n ==> r == Return(Binom(n, k))
    ensures k > 0 && k > n ==> r == Raise(ValueError)
    ensures k <= 0 && n >= 1 ==> r == Return(Binom(n - k - 1, -k))
    ensures k <= 0 && n < 1 ==> r == Raise(ValueError)
  {
    if k > 0 then CombinationsNoRepeat(k, n) else CombinationsRepeat(-k, n)
  }

  /** `accomodations_no_repeat(k, n)`: factorial(n) // factorial(n - k), the falling
      factorial n (n-1) ... (n-k+1) when 0 <= k <= n. A negative k is not rejected: the
      quotient is then n! // (n - k)!, which is below 1 except for n = 0, k = -1. */
  function AccomodationsNoRepeat(k: int, n: int): (r: Outcome<int>)
    ensures r.Raise? <==> !(n >= 0 && k <= n)
    ensures r.Raise? ==> r.error == ValueError
    ensures 0 <= k <= n ==> r == Return(Falling(n, k))
  {
    if n < 0 || n - k < 0 then Raise(ValueError)
    else
      if k >= 0 then
        FactorialSplit(n, k);
        DivExact(Fact(n), Fact(n - k), Falling(n, k));
        Return(Fact(n) / Fact(n - k))
      else Return(Fact(n) / Fact(n - k))
  }

  function Pow(n: int, k: nat): int
  {
    if k == 0 then 1 else n * Pow(n, k - 1)
  }

  /** A Python number as `**` returns it: an int, or for a negative exponent the float
      closest to 1 / d. */
  datatype Number = Int(i: int) | Reciprocal(d: int)

  /** `accomodations_repeat(k, n)`: n ** k; a negative k gives a float, and 0 to a
      negative power raises ZeroDivisionError. */
  function AccomodationsRepeat(k: int, n: int): (r: Outcome<Number>)
    ensures k >= 0 ==> r == Return(Int(Pow(n, k)))
    ensures k < 0 && n == 0 <==> r == Raise(ZeroDivisionError)
    ensures k < 0 && n != 0 ==> r.Return? && r.value.Reciprocal? && r.value.d == Pow(n, -k)
  {
    if k >= 0 then Return(Int(Pow(n, k)))
    else if n == 0 then Raise(ZeroDivisionError)
    else Return(Reciprocal(Pow(n, -k)))
  }

  /** `accomodations(k, n)`: dispatch on the sign of k like `combinations`; a positive k
      counts arrangements without repetition, any other k words of length -k over n
      letters. */
  function Accomodations(k: int, n: int): (r: Outcome<Number>)
    ensures 0 < k <= n ==> r == Return(Int(Falling(n, k)))
    ensures k > 0 && k > n ==> r == Raise(ValueError)
    ensures k <= 0 ==> r == Return(Int(Pow(n, -k)))
  {
    if k > 0 then
      match AccomodationsNoRepeat(k, n)
      case Raise(e) => Raise(e)
      case Return(v) => Return(Int(v))
    else AccomodationsRepeat(-k, n)
  }

  // ---------------------------------------------------------------------------------
  // permutations_repeat: a loop over the counts.

  function Sum(c: seq<nat>): nat
  {
    if c == [] then 0 else Sum(c[..|c| - 1]) + c[|c| - 1]
  }

  function ProdFact(c: seq<nat>): (r: nat)
    ensures r >= 1
  {
    if c == [] then 1 else ProdFact(c[..|c| - 1]) * Fact(c[|c| - 1])
  }

  /** The multinomial coefficient as a product of binomials: choose the places of the last
      group among all, then arrange the others. */
  function Multinomial(c: seq<nat>): nat
  {
    if c == [] then 1 else Binom(Sum(c), c[|c| - 1]) * Multinomial(c[..|c| - 1])
  }

  predicate AllNat(counts: seq<int>) {
    forall i :: 0 <= i < |counts| ==> counts[i] >= 0
  }

  function AsNats(counts: seq<int>): (c: seq<nat>)
    requires AllNat(counts)
    ensures |c| == |counts| && forall i :: 0 <= i < |c| ==> c[i] == counts[i]
  {
    seq(|counts|, i requires 0 <= i < |counts| => counts[i] as nat)
  }

  /** `permutations_repeat(*counts)`: no counts give 0; a negative count raises
      ValueError from `factorial`; otherwise the multinomial coefficient. */
  method PermutationsRepeat(counts: seq<int>) returns (r: Outcome<int>)
    ensures counts == [] ==> r == Return(0)
    ensures counts != [] && !AllNat(counts) ==> r == Raise(ValueError)
    ensures counts != [] && AllNat(counts) ==> r == Return(Multinomial(AsNats(counts)))
  {
    if |counts| == 0 {
      return Return(0);
    }
    var result: nat, count: nat := 1, 0;
    var i := 0;
    while i < |counts|
      invariant 0 <= i <= |counts|
      invariant AllNat(counts[..i])
      invariant result == ProdFact(AsNats(counts[..i])) && count == Sum(AsNats(counts[..i]))
    {
      var f := PyFactorial(counts[i]);
      if f.Raise? {
        return Raise(f.error);
      }
      assert AsNats(counts[..i + 1]) == AsNats(counts[..i]) + [counts[i] as nat];
      assert AsNats(counts[..i + 1])[..i] == AsNats(counts[..i]);
      result := result * f.value;
      count := count + counts[i];
      i := i + 1;
    }
    assert counts[..i] == counts;
    MultinomialFactorial(AsNats(counts));
    r := Return(Fact(count) / result);
  }

  // ---------------------------------------------------------------------------------
  // The formulas agree with the reference definitions.

  lemma DivExact(a: int, b: int, q: int)
    requires b > 0 && a == q * b
    ensures a / b == q
  {
    CppArith.DivUnique(a, b, q, 0);
  }

  /** If a = q (x y) with x, y positive, then a // (y x) is q. */
  lemma QuotientOfProduct(a: int, q: int, x: int, y: int)
    requires x > 0 && y > 0 && a == q * (x * y)
    ensures a / (y * x) == q
  {
    assert y * x > 0;
    assert a == q * (y * x);
    DivExact(a, y * x, q);
  }

  lemma Associate(x: int, y: int, z: int)
    ensures x * (y * z) == (x * y) * z
  {
  }

  /** The arithmetic of one step of the multinomial product. */
  lemma MultinomialArithmetic(b: int, m: int, p: int, fl: int, fs: int, f: int)
    requires m * p == fs && b * (fl * fs) == f
    ensures (b * m) * (p * fl) == f
  {
    assert (b * m) * (p * fl) == b * (fl * (m * p));
  }

  /** The arithmetic of one step of Pascal's rule, over plain integers. */
  lemma PascalArithmetic(b1: int, b2: int, fk1: int, fnk1: int, k: int, n: int, f: int)
    requires b1 * (fk1 * ((n - k) * fnk1)) == f
    requires b2 * ((k * fk1) * fnk1) == f
    ensures (b1 + b2) * ((k * fk1) * ((n - k) * fnk1)) == n * f
  {
    var x := (k * fk1) * ((n - k) * fnk1);
    assert b1 * x == k * (b1 * (fk1 * ((n - k) * fnk1)));
    assert b2 * x == (n - k) * (b2 * ((k * fk1) * fnk1));
    assert (b1 + b2) * x == b1 * x + b2 * x;
  }

  /** n! = k! (n-k)! C(n, k). */
  lemma {:induction false} BinomFactorial(n: nat, k: nat)
    requires k <= n
    ensures Binom(n, k) * (Fact(k) * Fact(n - k)) == Fact(n)
    decreases n
  {
    if k == 0 || k == n {
    } else {
      var b1 := Binom(n - 1, k - 1);
      var b2 := Binom(n - 1, k);
      BinomFactorial(n - 1, k - 1);
      BinomFactorial(n - 1, k);
      var fk1 := Fact(k - 1);
      var fnk1 := Fact(n - k - 1);
      assert Fact(k) == k * fk1;
      assert Fact(n - k) == (n - k) * fnk1;
      PascalArithmetic(b1, b2, fk1, fnk1, k, n, Fact(n - 1));
    }
  }

  /** n! = n (n-1) ... (n-k+1) * (n-k)!. */
  lemma {:induction false} FactorialSplit(n: nat, k: nat)
    requires k <= n
    ensures Fact(n) == Falling(n, k) * Fact(n - k)
    decreases k
  {
    if k > 0 {
      FactorialSplit(n - 1, k - 1);
      var a, b := Falling(n - 1, k - 1), Fact(n - k);
      assert Fact(n - 1) == a * b;
      assert Fact(n) == n * Fact(n - 1);
      assert Falling(n, k) == n * a;
      Associate(n, a, b);
    }
  }

  /** (c1 + ... + cm)! = c1! ... cm! * Multinomial(c): the quotient the script takes is
      exact. */
  lemma {:induction false} MultinomialFactorial(c: seq<nat>)
    ensures Multinomial(c) * ProdFact(c) == Fact(Sum(c))
    ensures Fact(Sum(c)) / ProdFact(c) == Multinomial(c)
    decreases |c|
  {
    if c != [] {
      var init := c[..|c| - 1];
      var last := c[|c| - 1];
      var s := Sum(init);
      MultinomialFactorial(init);
      BinomFactorial(s + last, last);
      var b := Binom(s + last, last);
      assert Sum(c) == s + last;
      assert ProdFact(c) == ProdFact(init) * Fact(last);
      assert Multinomial(c) == b * Multinomial(init);
      MultinomialArithmetic(b, Multinomial(init), ProdFact(init), Fact(last), Fact(s), Fact(s + last));
    }
    DivExact(Fact(Sum(c)), ProdFact(c), Multinomial(c));
  }

  // ---------------------------------------------------------------------------------
  // The script's doctests, as facts about the model.

  lemma DoctestPermutationsNoRepeat()
    ensures PermutationsNoRepeat(5) == Return(120)
    ensures PermutationsNoRepeat(6) == Return(720)
  {
  }

  lemma DoctestCombinations()
    ensures CombinationsNoRepeat(3, 50) == Return(19600)
    ensures Combinations(3, 50) == Return(19600)
    ensures CombinationsRepeat(7, 3) == Return(36)
    ensures Combinations(-7, 3) == Return(36)
  {
    FactorialSplit(50, 3);
    assert Falling(50, 3) == 117600;
    assert Fact(3) == 6;
    DivExact(Fact(50), Fact(47) * Fact(3), 19600);
    FactorialSplit(9, 2);
    assert Fact(7) == 5040;
    DivExact(Fact(9), Fact(2) * Fact(7), 36);
  }

  lemma DoctestAccomodations()
    ensures AccomodationsNoRepeat(3, 90) == Return(704880)
    ensures Accomodations(3, 90) == Return(Int(704880))
    ensures AccomodationsRepeat(8, 62) == Return(Int(218340105584896))
    ensures Accomodations(-8, 62) == Return(Int(218340105584896))
  {
    assert AccomodationsNoRepeat(3, 90) == Return(Falling(90, 3));
  }

  lemma DoctestPermutationsRepeat()
    ensures Multinomial(AsNats([2, 1, 1, 1, 1, 1, 1])) == 20160
  {
    var c := AsNats([2, 1, 1, 1, 1, 1, 1]);
    assert c == [2, 1, 1, 1, 1, 1, 1];
    assert Sum([2]) == 2 && ProdFact([2]) == 2;
    assert [2, 1][..1] == [2];
    assert Sum([2, 1]) == 3 && ProdFact([2, 1]) == 2;
    assert [2, 1, 1][..2] == [2, 1];
    assert Sum([2, 1, 1]) == 4 && ProdFact([2, 1, 1]) == 2;
    assert [2, 1, 1, 1][..3] == [2, 1, 1];
    assert Sum([2, 1, 1, 1]) == 5 && ProdFact([2, 1, 1, 1]) == 2;
    assert [2, 1, 1, 1, 1][..4] == [2, 1, 1, 1];
    assert Sum([2, 1, 1, 1, 1]) == 6 && ProdFact([2, 1, 1, 1, 1]) == 2;
    assert [2, 1, 1, 1, 1, 1][..5] == [2, 1, 1, 1, 1];
    assert Sum([2, 1, 1, 1, 1, 1]) == 7 && ProdFact([2, 1, 1, 1, 1, 1]) == 2;
    assert [2, 1, 1, 1, 1, 1, 1][..6] == [2, 1, 1, 1, 1, 1];
    assert Sum([2, 1, 1, 1, 1, 1, 1]) == 8 && ProdFact([2, 1, 1, 1, 1, 1, 1]) == 2;
    assert Fact(8) == 40320;
    MultinomialFactorial(c);
  }
}
