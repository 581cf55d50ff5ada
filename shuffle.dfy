/**
  The random reordering at the end of the Algorithm 908 data generator: `2 * MAXNUM`
  swaps of two distinct positions, each position drawn as `rand() % MAXNUM`, the second
  redrawn while it equals the first. `rand()` is a sequence of non-negative draws; a
  sequence that runs out before the swaps are complete stands for a run that does not end.
 */
module Shuffle {
  import opened Wrappers

  /** Exchange the elements at positions `x` and `y`. */
  datatype Swap = Swap(x: nat, y: nat)

  predicate SwapIn(s: Swap, n: nat)
  {
    s.x < n && s.y < n && s.x != s.y
  }

  /**
    `while (x == y) y = rand() % n;` starting at draw `pos`: the final `y` and the
    position of the next unread draw, or `None` when the draws run out first.
   */
  function RedrawY(n: nat, draws: seq<nat>, pos: nat, x: nat, y: nat): (r: Option<(nat, nat)>)
    requires n > 0 && y < n
    ensures r.Some? ==> r.value.0 < n && r.value.0 != x && pos <= r.value.1 <= |draws|
    ensures r.Some? && x != y ==> r.value == (y, pos)
    decreases |draws| - pos
  {
    if x != y then (if pos <= |draws| then Some((y, pos)) else None)
    else if pos >= |draws| then None
    else RedrawY(n, draws, pos + 1, x, draws[pos] % n)
  }

  /** One iteration of the swap loop, starting at draw `pos`. */
  function NextSwap(n: nat, draws: seq<nat>, pos: nat): (r: Option<(Swap, nat)>)
    requires n > 0
    ensures r.Some? ==> SwapIn(r.value.0, n) && pos + 2 <= r.value.1 <= |draws|
    ensures r.Some? ==> r.value.0.x == draws[pos] % n
  {
    if pos + 2 > |draws| then None
    else match RedrawY(n, draws, pos + 2, draws[pos] % n, draws[pos + 1] % n)
      case None => None
      case Some((y, next)) => Some((Swap(draws[pos] % n, y), next))
  }

  /** The `count` swaps the loop performs from draw `pos`, or `None` if it cannot finish. */
  function Plan(n: nat, draws: seq<nat>, pos: nat, count: nat): (r: Option<seq<Swap>>)
    requires count > 0 ==> n > 0
    ensures r.Some? ==> |r.value| == count
    ensures r.Some? ==> forall k :: 0 <= k < |r.value| ==> SwapIn(r.value[k], n)
    decreases count
  {
    if count == 0 then Some([])
    else match NextSwap(n, draws, pos)
      case None => None
      case Some((s, next)) => Prepend([s], Plan(n, draws, next, count - 1))
  }

  function Prepend<T>(prefix: seq<T>, r: Option<seq<T>>): Option<seq<T>>
  {
    match r
    case None => None
    case Some(rest) => Some(prefix + rest)
  }

  function SwapAt<T>(a: seq<T>, s: Swap): (b: seq<T>)
    requires s.x < |a| && s.y < |a|
    ensures |b| == |a| && multiset(b) == multiset(a)
    ensures b[s.x] == a[s.y] && b[s.y] == a[s.x]
    ensures forall k :: 0 <= k < |a| && k != s.x && k != s.y ==> b[k] == a[k]
  {
    a[s.x := a[s.y]][s.y := a[s.x]]
  }

  predicate AllIn(swaps: seq<Swap>, n: nat)
  {
    forall k :: 0 <= k < |swaps| ==> swaps[k].x < n && swaps[k].y < n
  }

  /** The sequence after the swaps, performed first to last. */
  function ApplySwaps<T>(a: seq<T>, swaps: seq<Swap>): (b: seq<T>)
    requires AllIn(swaps, |a|)
    ensures |b| == |a|
    decreases |swaps|
  {
    if swaps == [] then a
    else SwapAt(ApplySwaps(a, swaps[..|swaps| - 1]), swaps[|swaps| - 1])
  }

  /** Swapping only ever reorders: the result is a permutation of the input. */
  lemma {:induction false} ApplySwapsPermutes<T>(a: seq<T>, swaps: seq<Swap>)
    requires AllIn(swaps, |a|)
    ensures multiset(ApplySwaps(a, swaps)) == multiset(a)
    decreases |swaps|
  {
    if swaps != [] {
      ApplySwapsPermutes(a, swaps[..|swaps| - 1]);
    }
  }

  /** A plan that finishes is made of the first swap followed by the plan for the rest. */
  lemma PrependAssociates<T>(a: seq<T>, b: seq<T>, r: Option<seq<T>>)
    ensures Prepend(a, Prepend(b, r)) == Prepend(a + b, r)
  {
    if r.Some? {
      assert a + (b + r.value) == (a + b) + r.value;
    }
  }

  /** Whatever holds of every element of a sequence holds of every element of a permutation of it. */
  lemma PermutationKeepsAll<T>(a: seq<T>, b: seq<T>, p: T -> bool)
    requires multiset(a) == multiset(b)
    requires forall k :: 0 <= k < |a| ==> p(a[k])
    ensures forall k :: 0 <= k < |b| ==> p(b[k])
  {
    forall k | 0 <= k < |b| ensures p(b[k]) {
      assert b[k] in multiset(a);
      var j :| 0 <= j < |a| && a[j] == b[k];
    }
  }

  /**
    With a single element the loop can never finish: every draw modulo 1 is 0, so `y`
    always equals `x` and `while (x == y)` redraws forever.
   */
  lemma {:induction false} OneElementNeverFinishes(draws: seq<nat>, pos: nat, count: nat)
    requires count > 0
    ensures Plan(1, draws, pos, count) == None
  {
    NoRedrawForOne(draws, pos + 2);
  }

  lemma {:induction false} NoRedrawForOne(draws: seq<nat>, pos: nat)
    ensures RedrawY(1, draws, pos, 0, 0) == None
    decreases |draws| - pos
  {
    if pos < |draws| {
      NoRedrawForOne(draws, pos + 1);
    }
  }

  /** With at least two elements, a swap finishes once some later draw gives a new position. */
  lemma {:induction false} RedrawFinds(n: nat, draws: seq<nat>, pos: nat, x: nat, y: nat, k: nat)
    requires n > 0 && y < n && pos <= k < |draws| && draws[k] % n != x
    ensures RedrawY(n, draws, pos, x, y).Some?
    decreases k - pos
  {
    if x == y && pos < k {
      RedrawFinds(n, draws, pos + 1, x, draws[pos] % n, k);
    }
  }

  lemma RedrawAgain(n: nat, draws: seq<nat>, pos: nat, x: nat)
    requires n > 0 && x < n && pos < |draws|
    ensures RedrawY(n, draws, pos, x, x) == RedrawY(n, draws, pos + 1, x, draws[pos] % n)
  {
  }

  lemma PlanStart(plan: Option<seq<Swap>>)
    ensures plan == Prepend([], plan)
  {
    if plan.Some? {
      assert [] + plan.value == plan.value;
    }
  }

  lemma PlanEnd(n: nat, draws: seq<nat>, pos: nat, done: seq<Swap>, plan: Option<seq<Swap>>)
    requires plan == Prepend(done, Plan(n, draws, pos, 0))
    ensures plan == Some(done)
  {
    assert done + [] == done;
  }

  /** When the draws run out inside an iteration, the plan cannot finish. */
  lemma PlanStops(n: nat, draws: seq<nat>, start: nat, count: nat)
    requires n > 0 && count > 0 && NextSwap(n, draws, start) == None
    ensures Plan(n, draws, start, count) == None
  {
  }

  /** After one finished iteration, the swap performed joins those already done. */
  lemma PlanAdvance(n: nat, draws: seq<nat>, start: nat, next: nat, s: Swap, done: seq<Swap>,
                    done': seq<Swap>, plan: Option<seq<Swap>>, count: nat, count': nat)
    requires n > 0 && count > 0 && NextSwap(n, draws, start) == Some((s, next))
    requires plan == Prepend(done, Plan(n, draws, start, count))
    requires done' == done + [s] && count' == count - 1
    ensures plan == Prepend(done', Plan(n, draws, next, count'))
  {
    PrependAssociates(done, [s], Plan(n, draws, next, count'));
  }

  lemma ApplySwapsSnoc<T>(a: seq<T>, done: seq<Swap>, s: Swap)
    requires AllIn(done, |a|) && s.x < |a| && s.y < |a|
    ensures AllIn(done + [s], |a|)
    ensures ApplySwaps(a, done + [s]) == SwapAt(ApplySwaps(a, done), s)
  {
    assert (done + [s])[..|done|] == done;
  }

  /**
    The inner loop `while (x == y) y = rand() % n;` reading from draw `pos`: the final
    `y` and the next unread position, with `ok` false when the draws run out.
   */
  method Redraw(n: nat, draws: seq<nat>, pos: nat, x: nat, y: nat) returns (y': nat, next: nat, ok: bool)
    requires n > 0 && x < n && y < n
    ensures ok <==> RedrawY(n, draws, pos, x, y).Some?
    ensures ok ==> (y', next) == RedrawY(n, draws, pos, x, y).value
  {
    if pos > |draws| {
      return y, pos, false;
    }
    y', next := y, pos;
    while x == y'
      invariant pos <= next <= |draws| && y' < n
      invariant RedrawY(n, draws, next, x, y') == RedrawY(n, draws, pos, x, y)
      decreases |draws| - next
    {
      if next >= |draws| {
        return y', next, false;
      }
      RedrawAgain(n, draws, next, x);
      y' := draws[next] % n;
      next := next + 1;
    }
    ok := true;
  }

  /**
    The swap loop on the array behind the vector. Returns `false` when the draws run out;
    otherwise the array holds the old contents rearranged by the swaps `Plan` describes.
   */
  method ShuffleInPlace<T>(list: array<T>, draws: seq<nat>) returns (completed: bool)
    modifies list
    ensures completed <==> Plan(list.Length, draws, 0, 2 * list.Length).Some?
    ensures completed ==> list[..] == ApplySwaps(old(list[..]), Plan(list.Length, draws, 0, 2 * list.Length).value)
    ensures multiset(list[..]) == multiset(old(list[..]))
  {
    var n := list.Length;
    ghost var original := list[..];
    ghost var plan := Plan(n, draws, 0, 2 * n);
    ghost var done: seq<Swap> := [];
    var pos: nat := 0;
    var i: nat := 0;
    ghost var left: nat := 2 * n;
    PlanStart(plan);
    while i < 2 * n
      invariant i <= 2 * n && left == 2 * n - i
      invariant |done| == i && AllIn(done, n)
      invariant plan == Prepend(done, Plan(n, draws, pos, left))
      invariant list[..] == ApplySwaps(original, done)
    {
      ghost var start := pos;
      var ok;
      ghost var s;
      pos, ok, s := SwapStep(list, draws, pos);
      if !ok {
        PlanStops(n, draws, start, left);
        ApplySwapsPermutes(original, done);
        return false;
      }
      ApplySwapsSnoc(original, done, s);
      ghost var doneBefore, leftBefore := done, left;
      done, left := done + [s], left - 1;
      PlanAdvance(n, draws, start, pos, s, doneBefore, done, plan, leftBefore, left);
      i := i + 1;
    }
    PlanEnd(n, draws, pos, done, plan);
    ApplySwapsPermutes(original, done);
    return true;
  }

  /**
    One iteration of the swap loop: draw `x` and `y`, redraw `y` while it equals `x`,
    exchange the two elements. `ok` is false, and nothing changes, when the draws run out.
   */
  method SwapStep<T>(list: array<T>, draws: seq<nat>, pos: nat) returns (next: nat, ok: bool, ghost s: Swap)
    requires list.Length > 0
    modifies list
    ensures ok <==> NextSwap(list.Length, draws, pos).Some?
    ensures ok ==> NextSwap(list.Length, draws, pos).value == (s, next)
    ensures ok ==> list[..] == SwapAt(old(list[..]), s)
    ensures !ok ==> list[..] == old(list[..])
  {
    var n := list.Length;
    if pos + 2 > |draws| {
      return pos, false, Swap(0, 0);
    }
    var x := draws[pos] % n;
    var y;
    y, next, ok := Redraw(n, draws, pos + 2, x, draws[pos + 1] % n);
    s := Swap(x, y);
    if ok {
      list[x], list[y] := list[y], list[x];
    }
  }
}
