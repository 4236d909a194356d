/** Sums of a real-valued weight over a sequence. */
module Sums {

  function SumBy<T>(xs: seq<T>, f: T -> real): real {
    if xs == [] then 0.0 else SumBy(xs[..|xs| - 1], f) + f(xs[|xs| - 1])
  }

  lemma SumByOne<T>(xs: seq<T>, x: T, f: T -> real)
    ensures SumBy(xs + [x], f) == SumBy(xs, f) + f(x)
  {
    assert (xs + [x])[..|xs|] == xs;
  }

  lemma {:induction false} SumByConcat<T>(xs: seq<T>, ys: seq<T>, f: T -> real)
    ensures SumBy(xs + ys, f) == SumBy(xs, f) + SumBy(ys, f)
  {
    if ys == [] {
      assert xs + ys == xs;
    } else {
      var n := |ys| - 1;
      assert xs + ys == (xs + ys[..n]) + [ys[n]];
      SumByOne(xs + ys[..n], ys[n], f);
      SumByConcat(xs, ys[..n], f);
    }
  }

  lemma Removed<T>(ys: seq<T>, i: nat, f: T -> real) returns (rest: seq<T>)
    requires i < |ys|
    ensures multiset(rest) == multiset(ys) - multiset{ys[i]}
    ensures SumBy(ys, f) == SumBy(rest, f) + f(ys[i])
  {
    rest := ys[..i] + ys[i + 1..];
    assert ys == ys[..i] + [ys[i]] + ys[i + 1..];
    SumByConcat(ys[..i], ys[i + 1..], f);
    SumByConcat(ys[..i] + [ys[i]], ys[i + 1..], f);
    SumByOne(ys[..i], ys[i], f);
  }

  // The order of the summands does not matter.
  lemma {:induction false} SumByPermutes<T>(xs: seq<T>, ys: seq<T>, f: T -> real)
    requires multiset(xs) == multiset(ys)
    ensures SumBy(xs, f) == SumBy(ys, f)
  {
    if xs == [] {
      assert |multiset(xs)| == 0 && |multiset(ys)| == |ys|;
    } else {
      var n := |xs| - 1;
      var x := xs[n];
      assert xs == xs[..n] + [x];
      assert x in multiset(ys);
      var i :| 0 <= i < |ys| && ys[i] == x;
      var rest := Removed(ys, i, f);
      SumByPermutes(xs[..n], rest, f);
    }
  }

  // Fewer summands, in any order, sum to no more when none is negative.
  lemma {:induction false} SumBySubset<T>(xs: seq<T>, ys: seq<T>, f: T -> real)
    requires multiset(xs) <= multiset(ys) && forall y | y in ys :: f(y) >= 0.0
    ensures SumBy(xs, f) <= SumBy(ys, f)
  {
    if xs == [] {
      SumByNonNegative(ys, f);
    } else {
      var n := |xs| - 1;
      var x := xs[n];
      assert xs == xs[..n] + [x];
      assert x in multiset(ys);
      var i :| 0 <= i < |ys| && ys[i] == x;
      var rest := Removed(ys, i, f);
      forall y | y in rest ensures f(y) >= 0.0 {
        assert y in multiset(rest);
        assert y in multiset(ys);
      }
      SumBySubset(xs[..n], rest, f);
    }
  }

  lemma {:induction false} SumByMonotone<T>(xs: seq<T>, f: T -> real, g: T -> real)
    requires forall x | x in xs :: f(x) <= g(x)
    ensures SumBy(xs, f) <= SumBy(xs, g)
  {
    if xs != [] {
      assert xs[|xs| - 1] in xs;
      SumByMonotone(xs[..|xs| - 1], f, g);
    }
  }

  lemma {:induction false} SumByEqual<T>(xs: seq<T>, f: T -> real, g: T -> real)
    requires forall x | x in xs :: f(x) == g(x)
    ensures SumBy(xs, f) == SumBy(xs, g)
  {
    SumByMonotone(xs, f, g);
    SumByMonotone(xs, g, f);
  }

  lemma {:induction false} SumByNonNegative<T>(xs: seq<T>, f: T -> real)
    requires forall x | x in xs :: f(x) >= 0.0
    ensures SumBy(xs, f) >= 0.0
  {
    if xs != [] {
      assert xs[|xs| - 1] in xs;
      SumByNonNegative(xs[..|xs| - 1], f);
    }
  }

  lemma {:induction false} SumByZero<T>(xs: seq<T>, f: T -> real)
    requires forall x | x in xs :: f(x) == 0.0
    ensures SumBy(xs, f) == 0.0
  {
    if xs != [] {
      assert xs[|xs| - 1] in xs;
      SumByZero(xs[..|xs| - 1], f);
    }
  }

  // A sum of weights that are not negative is positive exactly when one of them is.
  lemma {:induction false} SumByPositiveIff<T>(xs: seq<T>, f: T -> real)
    requires forall x | x in xs :: f(x) >= 0.0
    ensures SumBy(xs, f) > 0.0 <==> exists x | x in xs :: f(x) > 0.0
  {
    if xs != [] {
      var init, last := xs[..|xs| - 1], xs[|xs| - 1];
      assert last in xs && forall x | x in init :: x in xs;
      assert forall x | x in xs :: x == last || x in init;
      SumByPositiveIff(init, f);
      SumByNonNegative(init, f);
    }
  }
}
