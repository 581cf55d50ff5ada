/**
  The sort-by-magnitude step shared by every sorting kernel: the comparator
  `fabs(p) < fabs(q)` puts the terms in ASCENDING order of absolute value (the comment
  "descending" next to the first use does not match the code), and the accumulation that
  follows runs serially over that order. The accumulators themselves (`std::accumulate`,
  the Kahan loop) are floating-point procedures and enter as function parameters.
 */
module MagnitudeSort {
  import opened Wrappers
  import opened Vectors

  function Abs(x: real): real
  {
    if x < 0.0 then -x else x
  }

  /** Non-decreasing in absolute value. */
  ghost predicate SortedByMagnitude(s: seq<real>)
  {
    forall i, j :: 0 <= i < j < |s| ==> Abs(s[i]) <= Abs(s[j])
  }

  /** Puts `x` in front of the first element of larger magnitude. */
  function Insert(x: real, s: seq<real>): (r: seq<real>)
    requires SortedByMagnitude(s)
    ensures SortedByMagnitude(r)
    ensures multiset(r) == multiset(s) + multiset{x}
    ensures |r| == |s| + 1
  {
    if s == [] then [x]
    else if Abs(x) <= Abs(s[0]) then
      ConsSorted(x, s);
      [x] + s
    else
      var tail := Insert(x, s[1..]);
      InsertTailAbove(x, s, tail);
      assert s == [s[0]] + s[1..];
      [s[0]] + tail
  }

  lemma ConsSorted(y: real, t: seq<real>)
    requires SortedByMagnitude(t)
    requires t != [] ==> Abs(y) <= Abs(t[0])
    ensures SortedByMagnitude([y] + t)
  {
  }

  lemma InsertTailAbove(x: real, s: seq<real>, tail: seq<real>)
    requires s != [] && SortedByMagnitude(s) && Abs(s[0]) < Abs(x)
    requires SortedByMagnitude(tail) && multiset(tail) == multiset(s[1..]) + multiset{x}
    ensures SortedByMagnitude([s[0]] + tail)
  {
    if tail != [] {
      var y := tail[0];
      assert y in multiset(tail);
      if y != x {
        assert y in multiset(s[1..]);
        var j :| 0 <= j < |s[1..]| && s[1..][j] == y;
        assert s[j + 1] == y;
      }
    }
    ConsSorted(s[0], tail);
  }

  /** The model of `std::sort` with the comparator `fabs(p) < fabs(q)`. */
  function SortByMagnitude(s: seq<real>): (r: seq<real>)
    ensures SortedByMagnitude(r)
    ensures multiset(r) == multiset(s)
    ensures |r| == |s|
  {
    if s == [] then []
    else
      assert s == [s[0]] + s[1..];
      Insert(s[0], SortByMagnitude(s[1..]))
  }

  /**
    The buffer `z` of `InnerProduct_SortAlg` and `InnerProduct_Sort_KahanAlg` right before
    accumulation: the element-wise products over the common prefix, sorted by magnitude.
   */
  function SortedProducts(v: seq<real>, w: seq<real>): (z: seq<real>)
    ensures |z| == Min(|v|, |w|)
    ensures SortedByMagnitude(z)
    ensures multiset(z) == multiset(Products(v, w))
  {
    SortByMagnitude(Products(v, w))
  }

  /**
    `InnerProduct_SortAlg` (with `accumulate` for std::accumulate) and
    `InnerProduct_Sort_KahanAlg` (with `accumulate` for the Kahan loop): the two kernels
    differ only in the serial accumulation applied to the sorted products.
   */
  function SortThenAccumulate(v: seq<real>, w: seq<real>, accumulate: seq<real> -> real): (s: real)
    ensures accumulate == Sum ==> s == Dot(v, w)
  {
    // under exact arithmetic, sorting before accumulating does not change the inner product
    SumPermutation(SortedProducts(v, w), Products(v, w));
    accumulate(SortedProducts(v, w))
  }

  /**
    Sorts the caller's vector in place by magnitude (a visible side effect). Like `std::sort`
    it promises only some order sorted by magnitude, not which of several equal-magnitude
    elements comes first.
   */
  method SortByMagnitudeInPlace(v: DoubleVector)
    modifies v
    ensures SortedByMagnitude(v.elems) && multiset(v.elems) == multiset(old(v.elems))
  {
    v.elems := SortByMagnitude(v.elems);
  }

  /** `Sort_And_Accumulate`: sorts `v` in place, then accumulates serially in that order. */
  method SortAndAccumulate(v: DoubleVector, accumulate: seq<real> -> real) returns (s: real)
    modifies v
    ensures SortedByMagnitude(v.elems) && multiset(v.elems) == multiset(old(v.elems))
    ensures s == accumulate(v.elems)
    ensures accumulate == Sum ==> s == Sum(old(v.elems))
  {
    SortByMagnitudeInPlace(v);
    s := accumulate(v.elems);
    if accumulate == Sum {
      SumPermutation(v.elems, old(v.elems));
    }
  }

  /** `Kahan_Sort_And_Sum`: sorts `v` in place, then runs the Kahan loop over it. */
  method KahanSortAndSum(v: DoubleVector, kahanSum: seq<real> -> real) returns (s: real)
    modifies v
    ensures SortedByMagnitude(v.elems) && multiset(v.elems) == multiset(old(v.elems))
    ensures s == kahanSum(v.elems)
    ensures kahanSum == Sum ==> s == Sum(old(v.elems))
  {
    SortByMagnitudeInPlace(v);
    s := kahanSum(v.elems);
    SumPermutation(v.elems, old(v.elems));
  }

  /**
    The products step of `InnerProduct_SortAlg` and `InnerProduct_Sort_KahanAlg(const DVec&,
    const DVec&)` AS WRITTEN: `transform(v.begin(), v.end(), w.begin(), z.begin(), *)`
    reads `|v|` elements of `w` and writes `|v|` slots of `z`, which holds min(|v|, |w|)
    slots. `None` stands for the out-of-bounds access when `v` is the longer vector.
   */
  function ProductsAsWritten(v: seq<real>, w: seq<real>): (r: Option<seq<real>>)
    ensures r.Some? <==> |v| <= |w|
  {
    if |v| <= |w| then Some(seq(|v|, i requires 0 <= i < |v| => v[i] * w[i])) else None
  }

  /** Where the written transform stays in bounds it computes the intended products. */
  lemma ProductsAsWrittenAgrees(v: seq<real>, w: seq<real>)
    requires |v| <= |w|
    ensures ProductsAsWritten(v, w) == Some(Products(v, w))
  {
    assert ProductsAsWritten(v, w).value == Products(v, w);
  }

  /** With `v` longer than `w` the written transform overruns, whereas `Products` is defined. */
  lemma ProductsAsWrittenOverruns()
    ensures ProductsAsWritten([1.0, 2.0], [3.0]).None?
    ensures Products([1.0, 2.0], [3.0]) == [3.0]
  {
    assert Products([1.0, 2.0], [3.0])[0] == 3.0;
  }
}
