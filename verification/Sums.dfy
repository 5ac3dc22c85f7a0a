/** Finite sums over sequences. */
module Sums {

  function Sum<T>(xs: seq<T>, f: T -> nat): nat {
    if xs == [] then 0 else f(xs[0]) + Sum(xs[1..], f)
  }

  lemma {:induction false} SumConcat<T>(xs: seq<T>, ys: seq<T>, f: T -> nat)
    ensures Sum(xs + ys, f) == Sum(xs, f) + Sum(ys, f)
    decreases |xs|
  {
    if xs == [] {
      assert xs + ys == ys;
    } else {
      assert (xs + ys)[1..] == xs[1..] + ys;
      SumConcat(xs[1..], ys, f);
    }
  }

  lemma SumSnoc<T>(xs: seq<T>, x: T, f: T -> nat)
    ensures Sum(xs + [x], f) == Sum(xs, f) + f(x)
  {
    SumConcat(xs, [x], f);
  }

  lemma SumUpdate<T>(xs: seq<T>, i: nat, x: T, f: T -> nat)
    requires i < |xs|
    ensures Sum(xs[i := x], f) == Sum(xs, f) - f(xs[i]) + f(x)
  {
    assert xs == xs[..i] + [xs[i]] + xs[i + 1..];
    assert xs[i := x] == xs[..i] + [x] + xs[i + 1..];
    SumSnoc(xs[..i], xs[i], f);
    SumSnoc(xs[..i], x, f);
    SumConcat(xs[..i] + [xs[i]], xs[i + 1..], f);
    SumConcat(xs[..i] + [x], xs[i + 1..], f);
  }

  lemma {:induction false} SumMonotone<T>(xs: seq<T>, f: T -> nat, g: T -> nat)
    requires forall x :: x in xs ==> f(x) <= g(x)
    ensures Sum(xs, f) <= Sum(xs, g)
    ensures Sum(xs, f) == Sum(xs, g) <==> forall x :: x in xs ==> f(x) == g(x)
    decreases |xs|
  {
    if xs != [] {
      SumMonotone(xs[1..], f, g);
      assert xs == [xs[0]] + xs[1..];
    }
  }

  lemma {:induction false} SumPointwise<T>(xs: seq<T>, f: T -> nat, g: T -> nat, h: T -> nat)
    requires forall x :: x in xs ==> h(x) == f(x) + g(x)
    ensures Sum(xs, h) == Sum(xs, f) + Sum(xs, g)
    decreases |xs|
  {
    if xs != [] {
      SumPointwise(xs[1..], f, g, h);
    }
  }

  lemma SumCongruent<T>(xs: seq<T>, f: T -> nat, g: T -> nat)
    requires forall x :: x in xs ==> f(x) == g(x)
    ensures Sum(xs, f) == Sum(xs, g)
  {
    SumMonotone(xs, f, g);
  }

  lemma {:induction false} SumZero<T>(xs: seq<T>, f: T -> nat)
    requires forall x :: x in xs ==> f(x) == 0
    ensures Sum(xs, f) == 0
    decreases |xs|
  {
    if xs != [] {
      SumZero(xs[1..], f);
    }
  }

  lemma {:induction false} SumBounds<T>(xs: seq<T>, i: nat, f: T -> nat)
    requires i < |xs|
    ensures f(xs[i]) <= Sum(xs, f)
    decreases |xs|
  {
    if i > 0 {
      SumBounds(xs[1..], i - 1, f);
    }
  }

  function One<T>(): T -> nat {
    x => 1
  }

  lemma {:induction false} SumOne<T>(xs: seq<T>)
    ensures Sum(xs, One()) == |xs|
    decreases |xs|
  {
    if xs != [] {
      SumOne(xs[1..]);
    }
  }

  // ----- exchanging two sums -----

  function Row<X, Y>(f: (X, Y) -> nat, x: X): Y -> nat {
    y => f(x, y)
  }

  function Column<X, Y>(f: (X, Y) -> nat, y: Y): X -> nat {
    x => f(x, y)
  }

  function RowSum<X, Y>(f: (X, Y) -> nat, ys: seq<Y>): X -> nat {
    x => Sum(ys, Row(f, x))
  }

  function ColumnSum<X, Y>(f: (X, Y) -> nat, xs: seq<X>): Y -> nat {
    y => Sum(xs, Column(f, y))
  }

  lemma {:induction false} Exchange<X, Y>(xs: seq<X>, ys: seq<Y>, f: (X, Y) -> nat)
    ensures Sum(xs, RowSum(f, ys)) == Sum(ys, ColumnSum(f, xs))
    decreases |xs|
  {
    if xs == [] {
      SumZero(ys, ColumnSum(f, xs));
    } else {
      Exchange(xs[1..], ys, f);
      SumPointwise(ys, Row(f, xs[0]), ColumnSum(f, xs[1..]), ColumnSum(f, xs));
    }
  }

  // ----- real sums and permutations -----

  function Total<T>(xs: seq<T>, f: T -> real): real {
    if xs == [] then 0.0 else f(xs[0]) + Total(xs[1..], f)
  }

  lemma {:induction false} TotalConcat<T>(xs: seq<T>, ys: seq<T>, f: T -> real)
    ensures Total(xs + ys, f) == Total(xs, f) + Total(ys, f)
    decreases |xs|
  {
    if xs == [] {
      assert xs + ys == ys;
    } else {
      assert (xs + ys)[1..] == xs[1..] + ys;
      TotalConcat(xs[1..], ys, f);
    }
  }

  lemma TotalUpdate<T>(xs: seq<T>, i: nat, x: T, f: T -> real)
    requires i < |xs|
    ensures Total(xs[i := x], f) == Total(xs, f) - f(xs[i]) + f(x)
  {
    assert xs == xs[..i] + ([xs[i]] + xs[i + 1..]);
    assert xs[i := x] == xs[..i] + ([x] + xs[i + 1..]);
    TotalConcat(xs[..i], [xs[i]] + xs[i + 1..], f);
    TotalConcat(xs[..i], [x] + xs[i + 1..], f);
  }

  lemma RemoveOne<T>(xs: seq<T>, i: nat)
    requires i < |xs|
    ensures multiset(xs[..i] + xs[i + 1..]) == multiset(xs) - multiset{xs[i]}
  {
    assert xs == xs[..i] + [xs[i]] + xs[i + 1..];
  }

  lemma TotalRemoveOne<T>(xs: seq<T>, i: nat, f: T -> real)
    requires i < |xs|
    ensures Total(xs, f) == f(xs[i]) + Total(xs[..i] + xs[i + 1..], f)
  {
    assert xs == xs[..i] + xs[i..];
    TotalConcat(xs[..i], xs[i..], f);
    TotalConcat(xs[..i], xs[i + 1..], f);
  }

  lemma Member<T>(x: T, xs: seq<T>) returns (i: nat)
    requires x in multiset(xs)
    ensures i < |xs| && xs[i] == x
  {
    i :| 0 <= i < |xs| && xs[i] == x;
  }

  lemma {:induction false} TotalPermutation<T>(xs: seq<T>, ys: seq<T>, f: T -> real)
    requires multiset(xs) == multiset(ys)
    ensures Total(xs, f) == Total(ys, f)
    decreases |xs|
  {
    if xs == [] {
      assert |multiset(ys)| == 0;
    } else {
      var i := Member(xs[0], ys);
      RemoveOne(xs, 0);
      RemoveOne(ys, i);
      var rest := xs[..0] + xs[1..];
      TotalPermutation(rest, ys[..i] + ys[i + 1..], f);
      TotalRemoveOne(xs, 0, f);
      TotalRemoveOne(ys, i, f);
    }
  }
}
