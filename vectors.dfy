/**
  Numeric vectors and the exact-arithmetic reference that the summation kernels are
  compared against. A `double` is modelled by a `real`: every property proved here holds
  under exact arithmetic, which is what the extended-precision reference stands for.
 */
module Vectors {

  /** A `std::vector<double>` that an operation resizes or rewrites in place. */
  class DoubleVector {
    var elems: seq<real>

    constructor (init: seq<real>)
      ensures elems == init
    {
      elems := init;
    }
  }

  function Min(a: nat, b: nat): nat
  {
    if a <= b then a else b
  }

  function Id(x: real): real
  {
    x
  }

  /** The exact sum of `f` over `s`. */
  function SumBy<T>(s: seq<T>, f: T -> real): real
  {
    if s == [] then 0.0 else f(s[0]) + SumBy(s[1..], f)
  }

  /** The exact sum of the elements of `s`. */
  function Sum(s: seq<real>): real
  {
    SumBy(s, Id)
  }

  /** The element-wise products over the common prefix of `v` and `w`. */
  function Products(v: seq<real>, w: seq<real>): (z: seq<real>)
    ensures |z| == Min(|v|, |w|)
    ensures forall i :: 0 <= i < |z| ==> z[i] == v[i] * w[i]
  {
    seq(Min(|v|, |w|), i requires 0 <= i < Min(|v|, |w|) => v[i] * w[i])
  }

  /** The exact inner product of `v` and `w` over their common prefix. */
  function Dot(v: seq<real>, w: seq<real>): real
  {
    Sum(Products(v, w))
  }

  lemma {:induction false} SumByConcat<T>(a: seq<T>, b: seq<T>, f: T -> real)
    ensures SumBy(a + b, f) == SumBy(a, f) + SumBy(b, f)
  {
    if a == [] {
      assert a + b == b;
    } else {
      assert (a + b)[1..] == a[1..] + b;
      SumByConcat(a[1..], b, f);
    }
  }

  /** An exact sum does not depend on the order of its terms. */
  lemma {:induction false} SumByPermutation<T>(a: seq<T>, b: seq<T>, f: T -> real)
    requires multiset(a) == multiset(b)
    ensures SumBy(a, f) == SumBy(b, f)
  {
    if a == [] {
      assert |b| == |multiset(b)| == 0;
    } else {
      var x := a[0];
      assert x in multiset(b);
      var j :| 0 <= j < |b| && b[j] == x;
      var rest := b[..j] + b[j + 1..];
      assert b == b[..j] + ([x] + b[j + 1..]);
      SumByConcat(b[..j], [x] + b[j + 1..], f);
      SumByConcat([x], b[j + 1..], f);
      SumByConcat(b[..j], b[j + 1..], f);
      assert a == [x] + a[1..];
      assert multiset(b) == multiset(b[..j]) + multiset{x} + multiset(b[j + 1..]);
      assert multiset(rest) == multiset(b[..j]) + multiset(b[j + 1..]);
      assert multiset(a) == multiset{x} + multiset(a[1..]);
      assert multiset(a[1..]) == multiset(a) - multiset{x};
      assert multiset(rest) == multiset(b) - multiset{x};
      SumByPermutation(a[1..], rest, f);
    }
  }

  /** Two sequences with the same elements have the same exact sum. */
  lemma SumPermutation(a: seq<real>, b: seq<real>)
    requires multiset(a) == multiset(b)
    ensures Sum(a) == Sum(b)
  {
    SumByPermutation(a, b, Id);
  }

  lemma SumConcat(a: seq<real>, b: seq<real>)
    ensures Sum(a + b) == Sum(a) + Sum(b)
  {
    SumByConcat(a, b, Id);
  }

  /** Every element of `v` multiplied by `c`. */
  function Scaled(v: seq<real>, c: real): (r: seq<real>)
    ensures |r| == |v|
    ensures forall k :: 0 <= k < |v| ==> r[k] == c * v[k]
  {
    seq(|v|, k requires 0 <= k < |v| => c * v[k])
  }

  lemma ScaledByOne(v: seq<real>)
    ensures Scaled(v, 1.0) == v
  {
    assert forall k :: 0 <= k < |v| ==> Scaled(v, 1.0)[k] == v[k];
  }

  /** Scaling commutes with an exact sum. */
  lemma {:induction false} SumScaled(v: seq<real>, c: real)
    ensures Sum(Scaled(v, c)) == c * Sum(v)
    decreases |v|
  {
    if v != [] {
      SumScaled(v[1..], c);
      forall k | 0 <= k < |v| - 1 ensures Scaled(v, c)[1..][k] == Scaled(v[1..], c)[k] {
        assert Scaled(v, c)[k + 1] == c * v[k + 1];
      }
      assert Scaled(v, c)[1..] == Scaled(v[1..], c);
    }
  }

  /** The products of two concatenations of matching lengths are the concatenated products. */
  lemma ProductsConcat(v1: seq<real>, v2: seq<real>, w1: seq<real>, w2: seq<real>)
    requires |v1| == |w1| && |v2| == |w2|
    ensures Products(v1 + v2, w1 + w2) == Products(v1, w1) + Products(v2, w2)
  {
    var p, q := Products(v1 + v2, w1 + w2), Products(v1, w1) + Products(v2, w2);
    forall k | 0 <= k < |p| ensures p[k] == q[k] {
      if k >= |v1| {
        assert (v1 + v2)[k] == v2[k - |v1|] && (w1 + w2)[k] == w2[k - |v1|];
      }
    }
  }

  lemma ScaledProduct(x: real, y: real, c: real)
    ensures x * (c * y) == c * (x * y)
  {
  }

  /** Scaling one factor scales every product. */
  lemma ProductsScaled(v: seq<real>, w: seq<real>, c: real)
    requires |v| == |w|
    ensures Products(v, Scaled(w, c)) == Scaled(Products(v, w), c)
  {
    var p, q := Products(v, Scaled(w, c)), Scaled(Products(v, w), c);
    forall k | 0 <= k < |v| ensures p[k] == q[k] {
      ScaledProduct(v[k], w[k], c);
    }
  }
}
