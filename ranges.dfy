/**
  The `range` helper: an arithmetic progression `from, from + step, from + 2 * step, ...`
  that stops at the first value not strictly before `end` in the direction of `step`.
  The element type is modelled as an unbounded `int`.
 */
module Ranges {
  import opened Arithmetic

  /** `range(from, end, step)`: the three constants of a range object. */
  datatype Range = Range(from: int, end: int, step: int)

  /** `range(from, end, step)`, which asserts a non-zero step. */
  function MakeRange(from: int, end: int, step: int): (r: Range)
    requires step != 0
    ensures r.from == from && r.end == end && r.step == step
  {
    Range(from, end, step)
  }

  /** `range(end)`, which asserts a positive end: from 0 in steps of 1. */
  function RangeTo(end: int): (r: Range)
    requires end > 0
    ensures r.from == 0 && r.end == end && r.step == 1
  {
    Range(0, end, 1)
  }

  /** `x` lies strictly before `end` when moving in the direction of `step`. */
  predicate Before(step: int, x: int, end: int)
  {
    (x - end) * step < 0
  }

  lemma BeforeCases(step: int, x: int, end: int)
    ensures step > 0 ==> (Before(step, x, end) <==> x < end)
    ensures step < 0 ==> (Before(step, x, end) <==> x > end)
    ensures step == 0 ==> !Before(step, x, end)
  {
    if step > 0 {
      if x < end {
        MulNegPos(x - end, step);
      } else {
        MulNonNeg(x - end, step);
      }
    } else if step < 0 {
      if x > end {
        MulNegPos(step, x - end);
      } else {
        MulNonNeg(end - x, -step);
      }
    }
  }

  lemma MulNegPos(a: int, b: int)
    requires a < 0 && b > 0
    ensures a * b < 0
  {
  }

  lemma MulNonNeg(a: int, b: int)
    requires a >= 0 && b >= 0
    ensures a * b >= 0
  {
  }

  /** The iterator: the current value and the range's step. */
  class RangeIter {
    var val: int
    const step: int

    constructor (v: int, step: int)
      ensures val == v && this.step == step
    {
      val := v;
      this.step := step;
    }

    /** `operator ++`: advance by exactly one step. */
    method Increment()
      modifies this
      ensures val == old(val) + step
    {
      val := val + step;
    }

    /** `operator !=`: the iterator is still strictly before `other` in the step direction. */
    predicate NotEqual(other: RangeIter)
      reads this, other
      requires step == other.step
      ensures step != 0 ==> (NotEqual(other) <==> Before(step, val, other.val))
    {
      BeforeCases(step, val, other.val);
      if step > 0 then val < other.val else val > other.val
    }

    /** `operator ==`: the negation of `!=`, so the iterator has reached or passed `other`. */
    predicate Equal(other: RangeIter)
      reads this, other
      requires step == other.step
      ensures Equal(other) <==> !NotEqual(other)
      ensures step != 0 ==> (Equal(other) <==> !Before(step, val, other.val))
    {
      !NotEqual(other)
    }
  }

  /** `begin()`. */
  method Begin(r: Range) returns (it: RangeIter)
    ensures fresh(it) && it.val == r.from && it.step == r.step
  {
    it := new RangeIter(r.from, r.step);
  }

  /** `end()`. */
  method End(r: Range) returns (it: RangeIter)
    ensures fresh(it) && it.val == r.end && it.step == r.step
  {
    it := new RangeIter(r.end, r.step);
  }

  /** The number of multiples of `step` below `distance`: ceil(distance / step). */
  function CeilDiv(distance: nat, step: nat): nat
    requires step > 0
  {
    (distance + step - 1) / step
  }

  lemma CeilDivBound(distance: nat, step: nat, k: nat)
    requires step > 0
    ensures k * step < distance <==> k < CeilDiv(distance, step)
  {
    var c := CeilDiv(distance, step);
    var m := distance + step - 1;
    assert m == c * step + m % step;
    if k < c {
      MulMonotone(k + 1, c, step);
    } else {
      MulMonotone(c, k, step);
    }
  }

  /** How many values the loop `for (auto i : r)` visits. */
  function IterCount(r: Range): nat
  {
    if r.step > 0 then CeilDiv(if r.end > r.from then r.end - r.from else 0, r.step)
    else if r.step < 0 then CeilDiv(if r.from > r.end then r.from - r.end else 0, -r.step)
    else 0
  }

  /** The values visited: `from + k * step` for each `k` below `IterCount(r)`. */
  function Visits(r: Range): (s: seq<int>)
    ensures |s| == IterCount(r)
    ensures forall k :: 0 <= k < |s| ==> s[k] == r.from + k * r.step
  {
    seq(IterCount(r), k requires 0 <= k < IterCount(r) => r.from + k * r.step)
  }

  /**
    The `k`-th value of the progression is before `end` exactly when `k` is below the
    count: the iteration stops at the first value that reaches or jumps past `end`.
   */
  lemma BeforeIffBelowCount(r: Range, k: nat)
    requires r.step != 0
    ensures Before(r.step, r.from + k * r.step, r.end) <==> k < IterCount(r)
  {
    var x := r.from + k * r.step;
    BeforeCases(r.step, x, r.end);
    if r.step > 0 {
      var d := if r.end > r.from then r.end - r.from else 0;
      CeilDivBound(d, r.step, k);
      MulNonNeg(k, r.step);
    } else {
      var d := if r.from > r.end then r.from - r.end else 0;
      CeilDivBound(d, -r.step, k);
      MulNonNeg(k, -r.step);
      assert k * (-r.step) == -(k * r.step);
    }
  }

  /** Every visited value is strictly before `end`, and the next one is not. */
  lemma VisitsStayBeforeEnd(r: Range)
    requires r.step != 0
    ensures forall k :: 0 <= k < |Visits(r)| ==> Before(r.step, Visits(r)[k], r.end)
    ensures !Before(r.step, r.from + |Visits(r)| * r.step, r.end)
  {
    forall k | 0 <= k < |Visits(r)| ensures Before(r.step, Visits(r)[k], r.end) {
      BeforeIffBelowCount(r, k);
    }
    BeforeIffBelowCount(r, |Visits(r)|);
  }

  /** `range(end)` visits exactly 0, 1, ..., end - 1. */
  lemma RangeToVisits(end: int)
    requires end > 0
    ensures Visits(RangeTo(end)) == seq(end, k requires 0 <= k < end => k)
  {
    assert IterCount(RangeTo(end)) == end;
  }

  lemma NextTerm(r: Range, n: nat, x: int)
    requires x == r.from + n * r.step + r.step
    ensures x == r.from + (n + 1) * r.step
  {
  }

  /** `for (auto i : r)`: run the iterators from `begin()` until `!=` fails against `end()`. */
  method Iterate(r: Range) returns (visited: seq<int>)
    requires r.step != 0
    ensures visited == Visits(r)
  {
    var it := Begin(r);
    var last := End(r);
    visited := [];
    while it.NotEqual(last)
      modifies it
      invariant it != last && it.step == r.step && last.step == r.step && last.val == r.end
      invariant it.val == r.from + |visited| * r.step
      invariant |visited| <= IterCount(r) && visited == Visits(r)[..|visited|]
      decreases IterCount(r) - |visited|
    {
      BeforeIffBelowCount(r, |visited|);
      visited := visited + [it.val];  // `*it`
      it.Increment();
      NextTerm(r, |visited| - 1, it.val);
    }
    BeforeIffBelowCount(r, |visited|);
  }

  /**
    `operator std::vector<T>` as written: `for (i = from; i < end; i += step)`. The test
    ignores the direction, so the loop ends only for a positive step, or for a negative
    step that starts at or past `end`, where it yields nothing.
   */
  method ToVector(r: Range) returns (v: seq<int>)
    requires r.step > 0 || r.from >= r.end
    ensures r.step > 0 ==> v == Visits(r)
    ensures r.step <= 0 ==> v == []
  {
    v := [];
    var i := r.from;
    while i < r.end
      invariant r.step > 0 || i >= r.end
      invariant r.step > 0 ==> i == r.from + |v| * r.step && |v| <= IterCount(r) && v == Visits(r)[..|v|]
      invariant r.step <= 0 ==> v == []
      decreases r.end - i
    {
      BeforeIffBelowCount(r, |v|);
      v := v + [i];
      i := i + r.step;
    }
    if r.step > 0 {
      BeforeIffBelowCount(r, |v|);
    }
  }

  /** For a negative step that starts before `end`, the test `i < end` holds forever. */
  lemma ToVectorNeverStops(r: Range, k: nat)
    requires r.step < 0 && r.from < r.end
    ensures r.from + k * r.step < r.end
  {
    MulNonNeg(k, -r.step);
    assert k * (-r.step) == -(k * r.step);
  }

  /** Counting down from 3 to 0 iterates 3, 2, 1, but the conversion gives nothing. */
  lemma ToVectorDropsCountdown()
    ensures Visits(Range(3, 0, -1)) == [3, 2, 1]
  {
    assert IterCount(Range(3, 0, -1)) == 3;
  }

  /** The conversion with the direction-sensitive test of `operator !=`. */
  method ToVectorFixed(r: Range) returns (v: seq<int>)
    requires r.step != 0
    ensures v == Visits(r)
  {
    v := [];
    var i := r.from;
    while if r.step > 0 then i < r.end else i > r.end
      invariant i == r.from + |v| * r.step && |v| <= IterCount(r) && v == Visits(r)[..|v|]
      decreases IterCount(r) - |v|
    {
      BeforeIffBelowCount(r, |v|);
      BeforeCases(r.step, i, r.end);
      v := v + [i];
      i := i + r.step;
    }
    BeforeIffBelowCount(r, |v|);
    BeforeCases(r.step, i, r.end);
  }
}
