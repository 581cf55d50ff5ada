/**
  The Algorithm 908 test-data generator (`FP_Test_DataSet_Generator` and its private
  `_908_sandbox`). Each `Rand` call builds a binary64 value from 64 random bits, forces its
  exponent into a band around the bias, and then, depending on the data type flag, returns
  it as drawn (random and Anderson data), with the sign bit set (well-conditioned data), or
  pairs it with its own negation (data whose exact sum is zero). `Generate` fills a vector
  with such draws, optionally subtracts their floating-point mean, and shuffles it.

  `rand()` is a sequence of non-negative draws read in order. Floating-point addition,
  subtraction and division of binary64 values are parameters (`FloatOps`).
 */
module Generator {
  import opened Wrappers
  import opened Arithmetic
  import opened Vectors
  import opened Binary64
  import opened Shuffle

  /** Machine binary64 arithmetic as the generator uses it: `st += x`, `x -= st / MAXNUM`. */
  datatype FloatOps = FloatOps(add: (Double, Double) -> Double, sub: (Double, Double) -> Double,
                               divide: (Double, nat) -> Double)

  // ---- one call of Rand ----

  /** The draws one `Rand(expo)` consumes: 32 + 32 bits, and one more when `expo` is not 0. */
  function DrawsPerRand(expo: int): nat
  {
    if expo != 0 then 65 else 64
  }

  /**
    The value `Rand(expo)` assembles from its draws, before the sign logic: the mantissa is
    the first 52 random bits and the sign the 64th; the 11 bits drawn for the exponent are
    overwritten by the forced exponent.
   */
  function RawDraw(expo: int, draws: seq<nat>): (d: Double)
    requires |draws| == DrawsPerRand(expo)
    ensures d.mantissa == PackBits(draws[..52])
    ensures d.sign == draws[63] % 2
    ensures expo == 0 ==> d.exponent == Bias
    ensures expo != 0 ==> d.exponent == StoreExponent(ForcedExponent(expo, draws[64]))
  {
    var bits := draws[..64];
    assert bits[..32] == draws[..32] && bits[32..] == draws[32..64];
    assert bits[..52] == draws[..52] && bits[63] == draws[63];
    FieldsOfBits(bits);
    FromWords(PackWord(draws[..32]), PackWord(draws[32..64]))
      .(exponent := ExponentOverride(expo, if expo != 0 then draws[64] else 0))
  }

  /**
    The exponent band a spread `expo` in [0, 2047] allows: `expo` consecutive exponents
    starting at 0x3ff - expo / 2, or exactly the bias when `expo` is 0.
   */
  predicate InBand(expo: int, d: Double)
  {
    if expo == 0 then d.exponent == Bias
    else Bias - expo / 2 <= d.exponent <= Bias - expo / 2 + expo - 1
  }

  /** With a spread in [0, 2047] every drawn value is finite and in the band. */
  lemma RawDrawInBand(expo: int, draws: seq<nat>)
    requires |draws| == DrawsPerRand(expo) && 0 <= expo <= 2047
    ensures IsFinite(RawDraw(expo, draws)) && InBand(expo, RawDraw(expo, draws))
  {
    var r := if expo != 0 then draws[64] else 0;
    assert RawDraw(expo, draws).exponent == ExponentOverride(expo, r);
    if expo != 0 {
      assert ForcedExponent(expo, r) == ExponentOverride(expo, r);
    }
  }

  // ---- the sign logic of Rand ----

  /** The sandbox fields `rflag` and `ret_saved` that survive from one `Rand` call to the next. */
  datatype SignState = SignState(rflag: int, saved: Double)

  /** What one `Rand` call returns and the state it leaves. */
  datatype Draw = Draw(out: Double, next: SignState)

  /**
    The tail of `Rand`: data types 2 and 3 return the value as drawn; type 1 returns it with
    the sign bit set; otherwise calls alternate between saving the value and returning it
    with the sign bit set, and returning the saved value with the sign bit cleared.
   */
  function SignStep(pflag: int, st: SignState, raw: Double): (d: Draw)
    ensures pflag == 2 || pflag == 3 ==> d.out == raw && d.next == st
    ensures pflag == 1 ==> d.out.sign == 1
    ensures pflag != 2 && pflag != 3 ==> d.next.rflag == d.out.sign
    ensures pflag != 2 && pflag != 3 && d.out.sign == 1 ==> d.out == raw.(sign := 1) && d.next.saved == raw
    ensures pflag != 2 && pflag != 3 && d.out.sign == 0 ==> d.out == st.saved.(sign := 0) && st.rflag != 0
  {
    if pflag == 2 || pflag == 3 then Draw(raw, st)
    else
      var rflag := if pflag == 1 then 0 else st.rflag;
      if rflag == 0 then Draw(raw.(sign := 1), SignState(1, raw))
      else Draw(st.saved.(sign := 0), SignState(0, st.saved))
  }

  /** The values successive `Rand` calls return and the state after the last. */
  datatype Trace = Trace(outs: seq<Double>, final: SignState)

  function Run(pflag: int, st: SignState, raws: seq<Double>): (t: Trace)
    ensures |t.outs| == |raws|
    decreases |raws|
  {
    if raws == [] then Trace([], st)
    else
      var t := Run(pflag, st, raws[..|raws| - 1]);
      var d := SignStep(pflag, t.final, raws[|raws| - 1]);
      Trace(t.outs + [d.out], d.next)
  }

  lemma RunSnoc(pflag: int, st: SignState, raws: seq<Double>, i: nat)
    requires i < |raws|
    ensures Run(pflag, st, raws[..i + 1]).outs
         == Run(pflag, st, raws[..i]).outs + [SignStep(pflag, Run(pflag, st, raws[..i]).final, raws[i]).out]
    ensures Run(pflag, st, raws[..i + 1]).final == SignStep(pflag, Run(pflag, st, raws[..i]).final, raws[i]).next
  {
    assert raws[..i + 1][..i] == raws[..i];
  }

  /** Random and Anderson data: every value is returned as drawn and the state is untouched. */
  lemma {:induction false} RunRandom(pflag: int, st: SignState, raws: seq<Double>)
    requires pflag == 2 || pflag == 3
    ensures Run(pflag, st, raws) == Trace(raws, st)
    decreases |raws|
  {
    if raws != [] {
      RunRandom(pflag, st, raws[..|raws| - 1]);
      assert raws[..|raws| - 1] + [raws[|raws| - 1]] == raws;
    }
  }

  /** Well-conditioned data: every value is returned with its sign bit set. */
  lemma {:induction false} RunWellConditioned(st: SignState, raws: seq<Double>)
    ensures forall k :: 0 <= k < |raws| ==> Run(1, st, raws).outs[k] == raws[k].(sign := 1)
    decreases |raws|
  {
    if raws != [] {
      var init := raws[..|raws| - 1];
      RunWellConditioned(st, init);
      forall k | 0 <= k < |raws| ensures Run(1, st, raws).outs[k] == raws[k].(sign := 1) {
        if k < |init| {
          assert Run(1, st, raws).outs[k] == Run(1, st, init).outs[k];
        }
      }
    }
  }

  /** The output expected at position `k` of exact-zero data. */
  function ExactZeroAt(raws: seq<Double>, k: nat): Double
    requires k < |raws|
  {
    if k % 2 == 0 then raws[k].(sign := 1) else raws[k - 1].(sign := 0)
  }

  /**
    Exact-zero data, starting from a fresh flag: the even calls return the value drawn with
    the sign bit set, each odd call the previous value with the sign bit cleared, so the
    calls come in pairs x, -x.
   */
  lemma {:induction false} RunExactZero(pflag: int, st: SignState, raws: seq<Double>)
    requires pflag != 1 && pflag != 2 && pflag != 3 && st.rflag == 0
    ensures Run(pflag, st, raws).final.rflag == |raws| % 2
    ensures |raws| % 2 == 1 ==> Run(pflag, st, raws).final.saved == raws[|raws| - 1]
    ensures forall k :: 0 <= k < |raws| ==> Run(pflag, st, raws).outs[k] == ExactZeroAt(raws, k)
    decreases |raws|
  {
    if raws != [] {
      var init := raws[..|raws| - 1];
      RunExactZero(pflag, st, init);
      forall k | 0 <= k < |raws| ensures Run(pflag, st, raws).outs[k] == ExactZeroAt(raws, k) {
        if k < |init| {
          assert Run(pflag, st, raws).outs[k] == Run(pflag, st, init).outs[k];
          assert ExactZeroAt(init, k) == ExactZeroAt(raws, k);
        }
      }
    }
  }

  /** A sequence made of pairs x, -x sums to zero. */
  lemma {:induction false} PairsSumToZero(s: seq<Double>)
    requires |s| % 2 == 0
    requires forall i :: 0 <= i < |s| && i % 2 == 1 ==> Value(s[i]) == -Value(s[i - 1])
    ensures SumBy(s, Value) == 0.0
    decreases |s|
  {
    if s != [] {
      var rest := s[2..];
      forall i | 0 <= i < |rest| && i % 2 == 1 ensures Value(rest[i]) == -Value(rest[i - 1]) {
        assert rest[i] == s[i + 2] && rest[i - 1] == s[i + 1];
      }
      PairsSumToZero(rest);
      assert s[1..][1..] == rest;
      assert Value(s[1]) == -Value(s[0]);
    }
  }

  /** Exact-zero data of even length, drawn from finite values, sums to exactly zero. */
  lemma ExactZeroSumsToZero(pflag: int, st: SignState, raws: seq<Double>)
    requires pflag != 1 && pflag != 2 && pflag != 3 && st.rflag == 0 && |raws| % 2 == 0
    requires forall k :: 0 <= k < |raws| ==> IsFinite(raws[k])
    ensures SumBy(Run(pflag, st, raws).outs, Value) == 0.0
  {
    var outs := Run(pflag, st, raws).outs;
    RunExactZero(pflag, st, raws);
    forall i | 0 <= i < |outs| && i % 2 == 1 ensures Value(outs[i]) == -Value(outs[i - 1]) {
      assert outs[i] == raws[i - 1].(sign := 0) && outs[i - 1] == raws[i - 1].(sign := 1);
      SignFlipNegates(raws[i - 1]);
    }
    PairsSumToZero(outs);
  }

  /** States that produce the same outputs: equal flags, and equal saved values when it matters. */
  predicate Agree(a: SignState, b: SignState)
  {
    a.rflag == b.rflag && (a.rflag != 0 ==> a.saved == b.saved)
  }

  /**
    `ret_saved` starts out uninitialised, but with `rflag` 0 it is written before it is
    read: the outputs do not depend on its initial contents.
   */
  lemma {:induction false} RunIgnoresInitialSaved(pflag: int, a: Double, b: Double, raws: seq<Double>)
    ensures Run(pflag, SignState(0, a), raws).outs == Run(pflag, SignState(0, b), raws).outs
    ensures Agree(Run(pflag, SignState(0, a), raws).final, Run(pflag, SignState(0, b), raws).final)
    decreases |raws|
  {
    if raws != [] {
      RunIgnoresInitialSaved(pflag, a, b, raws[..|raws| - 1]);
    }
  }

  /** The value `d` has the exponent and mantissa of one of the draws, or of the saved value. */
  predicate Drawn(d: Double, raws: seq<Double>, st: SignState)
  {
    (exists j :: 0 <= j < |raws| && d.exponent == raws[j].exponent && d.mantissa == raws[j].mantissa)
    || (st.rflag != 0 && d.exponent == st.saved.exponent && d.mantissa == st.saved.mantissa)
  }

  lemma DrawnInPrefix(d: Double, raws: seq<Double>, m: nat, st: SignState)
    requires m <= |raws| && Drawn(d, raws[..m], st)
    ensures Drawn(d, raws, st)
  {
    if j :| 0 <= j < m && d.exponent == raws[..m][j].exponent && d.mantissa == raws[..m][j].mantissa {
      assert raws[j] == raws[..m][j];
    }
  }

  /** The sign logic only ever changes sign bits: every output is one of the draws, up to sign. */
  lemma {:induction false} RunOnlyChangesSigns(pflag: int, st: SignState, raws: seq<Double>)
    ensures forall k :: 0 <= k < |raws| ==> Drawn(Run(pflag, st, raws).outs[k], raws, st)
    ensures Run(pflag, st, raws).final.rflag != 0 ==> Drawn(Run(pflag, st, raws).final.saved, raws, st)
    decreases |raws|
  {
    if raws != [] {
      var m := |raws| - 1;
      var init := raws[..m];
      var t := Run(pflag, st, init);
      RunOnlyChangesSigns(pflag, st, init);
      var d := SignStep(pflag, t.final, raws[m]);
      assert Drawn(raws[m], raws, st);
      if t.final.rflag != 0 {
        DrawnInPrefix(t.final.saved, raws, m, st);
      }
      forall k | 0 <= k < |raws| ensures Drawn(Run(pflag, st, raws).outs[k], raws, st) {
        if k < m {
          assert Run(pflag, st, raws).outs[k] == t.outs[k];
          DrawnInPrefix(t.outs[k], raws, m, st);
        }
      }
    }
  }

  // ---- the fill ----

  /** The draws the `k`-th of `n` `Rand` calls reads. */
  function RandDraws(expo: int, draws: seq<nat>, n: nat, k: nat): (r: seq<nat>)
    requires k < n && n * DrawsPerRand(expo) <= |draws|
    ensures |r| == DrawsPerRand(expo)
  {
    var per := DrawsPerRand(expo);
    MulMonotone(k + 1, n, per);
    assert (k + 1) * per == k * per + per;
    draws[k * per..k * per + per]
  }

  /** The values the `n` `Rand` calls of one fill assemble, before the sign logic. */
  function RawDraws(expo: int, draws: seq<nat>, n: nat): (r: seq<Double>)
    requires n * DrawsPerRand(expo) <= |draws|
    ensures |r| == n
  {
    seq(n, k requires 0 <= k < n => RawDraw(expo, RandDraws(expo, draws, n, k)))
  }

  /** The draws left for the shuffle once the fill is done. */
  function ShuffleDraws(expo: int, draws: seq<nat>, n: nat): seq<nat>
    requires n * DrawsPerRand(expo) <= |draws|
  {
    draws[n * DrawsPerRand(expo)..]
  }

  /** `st`: the floating-point running sum of the filled values, in order. */
  function FloatSum(ops: FloatOps, s: seq<Double>): Double
    decreases |s|
  {
    if s == [] then Zero else ops.add(FloatSum(ops, s[..|s| - 1]), s[|s| - 1])
  }

  /** Anderson's ill-conditioned data: every value minus the floating-point mean `st / MAXNUM`. */
  function Anderson(ops: FloatOps, s: seq<Double>): (r: seq<Double>)
    ensures |r| == |s|
  {
    seq(|s|, k requires 0 <= k < |s| => ops.sub(s[k], ops.divide(FloatSum(ops, s), |s|)))
  }

  /** The vector `Generate` holds just before the shuffle. */
  function Prepared(pflag: int, expo: int, draws: seq<nat>, n: nat, ops: FloatOps, st: SignState): (r: seq<Double>)
    requires n * DrawsPerRand(expo) <= |draws|
    ensures |r| == n
  {
    var outs := Run(pflag, st, RawDraws(expo, draws, n)).outs;
    if pflag == 3 then Anderson(ops, outs) else outs
  }

  /** The sandbox as a fresh `_908_sandbox` leaves it: `rflag` 0. */
  const FreshState: SignState := SignState(0, Zero)

  /** Data type 1: every value carries the sign bit, so all values have one sign. */
  lemma PreparedWellConditioned(expo: int, draws: seq<nat>, n: nat, ops: FloatOps, st: SignState)
    requires n * DrawsPerRand(expo) <= |draws|
    ensures forall k :: 0 <= k < n ==> Prepared(1, expo, draws, n, ops, st)[k].sign == 1
  {
    RunWellConditioned(st, RawDraws(expo, draws, n));
  }

  /** Data type 2: the values are the draws themselves. */
  lemma PreparedRandom(expo: int, draws: seq<nat>, n: nat, ops: FloatOps, st: SignState)
    requires n * DrawsPerRand(expo) <= |draws|
    ensures Prepared(2, expo, draws, n, ops, st) == RawDraws(expo, draws, n)
  {
    RunRandom(2, st, RawDraws(expo, draws, n));
  }

  /** Data type 3: the draws with their floating-point mean subtracted. */
  lemma PreparedAnderson(expo: int, draws: seq<nat>, n: nat, ops: FloatOps, st: SignState)
    requires n * DrawsPerRand(expo) <= |draws|
    ensures Prepared(3, expo, draws, n, ops, st) == Anderson(ops, RawDraws(expo, draws, n))
  {
    RunRandom(3, st, RawDraws(expo, draws, n));
  }

  /**
    Data type 4 of even length, from a fresh sandbox, with a spread in [0, 2047] (so that
    every value is finite): the exact sum is zero.
   */
  lemma PreparedExactZero(expo: int, draws: seq<nat>, n: nat, ops: FloatOps, st: SignState)
    requires n * DrawsPerRand(expo) <= |draws| && n % 2 == 0 && st.rflag == 0 && 0 <= expo <= 2047
    ensures SumBy(Prepared(4, expo, draws, n, ops, st), Value) == 0.0
  {
    var raws := RawDraws(expo, draws, n);
    forall k | 0 <= k < n ensures IsFinite(raws[k]) {
      RawDrawInBand(expo, RandDraws(expo, draws, n, k));
    }
    ExactZeroSumsToZero(4, st, raws);
  }

  /** Data types 1, 2 and 4 with a spread in [0, 2047]: every value is finite and in the band. */
  lemma PreparedInBand(pflag: int, expo: int, draws: seq<nat>, n: nat, ops: FloatOps, st: SignState)
    requires n * DrawsPerRand(expo) <= |draws| && pflag != 3 && st.rflag == 0 && 0 <= expo <= 2047
    ensures forall k :: 0 <= k < n ==>
      IsFinite(Prepared(pflag, expo, draws, n, ops, st)[k]) && InBand(expo, Prepared(pflag, expo, draws, n, ops, st)[k])
  {
    var raws := RawDraws(expo, draws, n);
    RunOnlyChangesSigns(pflag, st, raws);
    forall k | 0 <= k < n
      ensures IsFinite(Prepared(pflag, expo, draws, n, ops, st)[k]) && InBand(expo, Prepared(pflag, expo, draws, n, ops, st)[k])
    {
      var d := Run(pflag, st, raws).outs[k];
      var j :| 0 <= j < n && d.exponent == raws[j].exponent && d.mantissa == raws[j].mantissa;
      RawDrawInBand(expo, RandDraws(expo, draws, n, j));
    }
  }

  // ---- the sandbox ----

  /** `_908_sandbox`: the data type flag and the state of the sign logic. */
  class Sandbox {
    var pflag: int
    var rflag: int
    var retSaved: Double

    /** A fresh sandbox; the C++ leaves `ret_saved` uninitialised, here it starts at +0. */
    constructor ()
      ensures pflag == 1 && rflag == 0 && retSaved == Zero
    {
      pflag, rflag, retSaved := 1, 0, Zero;
    }

    function State(): SignState
      reads this
    {
      SignState(rflag, retSaved)
    }

    /** One random value with exponent spread `expo`, reading `DrawsPerRand(expo)` draws. */
    method Rand(expo: int, draws: seq<nat>) returns (ret: Double)
      requires |draws| == DrawsPerRand(expo)
      modifies this
      ensures pflag == old(pflag)
      ensures Draw(ret, State()) == SignStep(pflag, old(State()), RawDraw(expo, draws))
    {
      var low := ShiftIn(draws[..32]);
      var high := ShiftIn(draws[32..64]);
      ret := FromWords(low, high);
      if expo != 0 {
        ret := ret.(exponent := StoreExponent(ForcedExponent(expo, draws[64])));
      } else {
        ret := ret.(exponent := Bias);
      }
      if pflag == 2 || pflag == 3 {
        return;
      }
      if pflag == 1 {
        rflag := 0;
      }
      if rflag == 0 {
        retSaved := ret;
        ret := ret.(sign := 1);
        rflag := 1;
      } else {
        ret := retSaved.(sign := 0);
        rflag := 0;
      }
    }

    /**
      Fill `list` with `Rand(deltaExp)` values of data type `pFlag`, subtract the
      floating-point mean for type 3, then shuffle. `completed` is false when the draws run
      out in the shuffle, which stands for a shuffle that never ends.
     */
    method Generate(list: array<Double>, deltaExp: int, pFlag: int, draws: seq<nat>, ops: FloatOps)
      returns (completed: bool)
      requires 1 <= pFlag <= 4
      requires list.Length * DrawsPerRand(deltaExp) <= |draws|
      modifies this, list
      ensures pflag == pFlag
      ensures State() == Run(pFlag, old(State()), RawDraws(deltaExp, draws, list.Length)).final
      ensures multiset(list[..]) == multiset(Prepared(pFlag, deltaExp, draws, list.Length, ops, old(State())))
      ensures completed <==> Plan(list.Length, ShuffleDraws(deltaExp, draws, list.Length), 0, 2 * list.Length).Some?
      ensures completed ==> list[..] == ApplySwaps(Prepared(pFlag, deltaExp, draws, list.Length, ops, old(State())),
                                                   Plan(list.Length, ShuffleDraws(deltaExp, draws, list.Length), 0, 2 * list.Length).value)
    {
      pflag := pFlag;
      var st := FillDraws(list, deltaExp, draws, ops);
      if pflag == 3 {
        SubtractMean(list, st, ops);
      }
      completed := ShuffleInPlace(list, ShuffleDraws(deltaExp, draws, list.Length));
    }

    /** The first loop of `Generate`: one `Rand(deltaExp)` per element, summed into `st`. */
    method FillDraws(list: array<Double>, deltaExp: int, draws: seq<nat>, ops: FloatOps) returns (st: Double)
      requires list.Length * DrawsPerRand(deltaExp) <= |draws|
      modifies this, list
      ensures pflag == old(pflag)
      ensures list[..] == Run(pflag, old(State()), RawDraws(deltaExp, draws, list.Length)).outs
      ensures State() == Run(pflag, old(State()), RawDraws(deltaExp, draws, list.Length)).final
      ensures st == FloatSum(ops, list[..])
    {
      var n := list.Length;
      ghost var s0 := State();
      ghost var raws := RawDraws(deltaExp, draws, n);
      st := Zero;
      var i := 0;
      while i < n
        invariant 0 <= i <= n && pflag == old(pflag)
        invariant list[..i] == Run(pflag, s0, raws[..i]).outs
        invariant State() == Run(pflag, s0, raws[..i]).final
        invariant st == FloatSum(ops, list[..i])
      {
        var ret := Rand(deltaExp, RandDraws(deltaExp, draws, n, i));
        list[i] := ret;
        st := ops.add(st, list[i]);
        RunSnoc(pflag, s0, raws, i);
        assert list[..i + 1][..i] == list[..i];
        i := i + 1;
      }
      assert raws[..n] == raws && list[..n] == list[..];
    }
  }

  /** The loop for Anderson's data: subtract `st / MAXNUM` from every element. */
  method SubtractMean(list: array<Double>, st: Double, ops: FloatOps)
    requires st == FloatSum(ops, list[..])
    modifies list
    ensures list[..] == Anderson(ops, old(list[..]))
  {
    ghost var outs := list[..];
    var n := list.Length;
    var j := 0;
    while j < n
      invariant 0 <= j <= n
      invariant forall k :: 0 <= k < j ==> list[k] == Anderson(ops, outs)[k]
      invariant forall k :: j <= k < n ==> list[k] == outs[k]
    {
      list[j] := ops.sub(list[j], ops.divide(st, n));
      j := j + 1;
    }
    assert list[..] == Anderson(ops, outs);
  }

  /**
    `Fill_Numerical_Data_No`: a fresh sandbox fills `num` values of data type `flag`.
    Besides what `Generate` promises, the data type shows: type 1 values all carry the
    sign bit, type 2 values are the draws, even-length type 4 data sums to exactly zero,
    and without mean subtraction a spread in [0, 2047] gives finite values in the band. The
    zero sum is stated for spreads in [0, 2047] only: outside that range the exponent can
    wrap to all ones and the values are not finite.
   */
  method FillNumericalDataNo(flag: int, num: nat, deltaExp: int, draws: seq<nat>, ops: FloatOps)
    returns (data: array<Double>, completed: bool)
    requires 1 <= flag <= 4
    requires num * DrawsPerRand(deltaExp) <= |draws|
    ensures data.Length == num
    ensures multiset(data[..]) == multiset(Prepared(flag, deltaExp, draws, num, ops, FreshState))
    ensures completed <==> Plan(num, ShuffleDraws(deltaExp, draws, num), 0, 2 * num).Some?
    ensures completed ==> data[..] == ApplySwaps(Prepared(flag, deltaExp, draws, num, ops, FreshState),
                                                 Plan(num, ShuffleDraws(deltaExp, draws, num), 0, 2 * num).value)
    ensures num == 1 ==> !completed
    ensures flag == 1 ==> forall k :: 0 <= k < num ==> data[k].sign == 1
    ensures flag == 2 ==> multiset(data[..]) == multiset(RawDraws(deltaExp, draws, num))
    ensures flag == 4 && num % 2 == 0 && 0 <= deltaExp <= 2047 ==> SumBy(data[..], Value) == 0.0
    ensures flag != 3 && 0 <= deltaExp <= 2047 ==>
      forall k :: 0 <= k < num ==> IsFinite(data[k]) && InBand(deltaExp, data[k])
  {
    var box := new Sandbox();
    data := new Double[num](_ => Zero);
    completed := box.Generate(data, deltaExp, flag, draws, ops);
    if num == 1 {
      OneElementNeverFinishes(ShuffleDraws(deltaExp, draws, num), 0, 2);
    }
    FilledData(flag, num, deltaExp, draws, ops, data[..]);
  }

  /** What the data type promises of any arrangement of the prepared values. */
  lemma FilledData(flag: int, num: nat, deltaExp: int, draws: seq<nat>, ops: FloatOps, data: seq<Double>)
    requires num * DrawsPerRand(deltaExp) <= |draws|
    requires multiset(data) == multiset(Prepared(flag, deltaExp, draws, num, ops, FreshState))
    ensures flag == 1 ==> forall k :: 0 <= k < |data| ==> data[k].sign == 1
    ensures flag == 2 ==> multiset(data) == multiset(RawDraws(deltaExp, draws, num))
    ensures flag == 4 && num % 2 == 0 && 0 <= deltaExp <= 2047 ==> SumBy(data, Value) == 0.0
    ensures flag != 3 && 0 <= deltaExp <= 2047 ==>
      forall k :: 0 <= k < |data| ==> IsFinite(data[k]) && InBand(deltaExp, data[k])
  {
    var prepared := Prepared(flag, deltaExp, draws, num, ops, FreshState);
    if flag == 1 {
      PreparedWellConditioned(deltaExp, draws, num, ops, FreshState);
      PermutationKeepsAll(prepared, data, (d: Double) => d.sign == 1);
    }
    if flag == 2 {
      PreparedRandom(deltaExp, draws, num, ops, FreshState);
    }
    if flag == 4 && num % 2 == 0 && 0 <= deltaExp <= 2047 {
      PreparedExactZero(deltaExp, draws, num, ops, FreshState);
      SumByPermutation(prepared, data, Value);
    }
    if flag != 3 && 0 <= deltaExp <= 2047 {
      PreparedInBand(flag, deltaExp, draws, num, ops, FreshState);
      PermutationKeepsAll(prepared, data, (d: Double) => IsFinite(d) && InBand(deltaExp, d));
    }
  }

  // ---- duplication ----

  /** `v` followed by `multFactor` times each element of `v`. */
  function Duplicated(v: seq<real>, multFactor: real): (r: seq<real>)
    ensures |r| == 2 * |v| && r[..|v|] == v && r[|v|..] == Scaled(v, multFactor)
  {
    v + Scaled(v, multFactor)
  }

  /** `Duplicate`: grow the vector to twice its size and fill the new half with scaled copies. */
  method Duplicate(inVec: DoubleVector, multFactor: real)
    modifies inVec
    ensures inVec.elems == Duplicated(old(inVec.elems), multFactor)
  {
    ghost var v := inVec.elems;
    var kElems := |inVec.elems|;
    inVec.elems := inVec.elems + seq(kElems, _ => 0.0);
    var n := 0;
    while n < kElems
      invariant 0 <= n <= kElems && |inVec.elems| == 2 * kElems
      invariant inVec.elems[..kElems] == v
      invariant forall k :: 0 <= k < n ==> inVec.elems[kElems + k] == multFactor * v[k]
    {
      assert inVec.elems[n] == v[n];
      inVec.elems := inVec.elems[kElems + n := multFactor * inVec.elems[n]];
      n := n + 1;
    }
    forall k | 0 <= k < kElems ensures inVec.elems[kElems..][k] == Scaled(v, multFactor)[k] {
      assert inVec.elems[kElems + k] == multFactor * v[k];
    }
    assert inVec.elems[kElems..] == Scaled(v, multFactor);
    assert inVec.elems == inVec.elems[..kElems] + inVec.elems[kElems..];
  }

  /** `DuplicateWithNegated`: append the negated copy. */
  method DuplicateWithNegated(inVec: DoubleVector)
    modifies inVec
    ensures inVec.elems == Duplicated(old(inVec.elems), -1.0)
  {
    Duplicate(inVec, -1.0);
  }

  /** A vector followed by its negated copy sums to exactly zero. */
  lemma DuplicatedNegatedSumsToZero(v: seq<real>)
    ensures Sum(Duplicated(v, -1.0)) == 0.0
  {
    SumConcat(v, Scaled(v, -1.0));
    SumScaled(v, -1.0);
  }

  /**
    The inner-zero data set: `v` duplicated as is and `w` duplicated negated have an exact
    inner product of zero, whatever `v` and `w` of equal length hold.
   */
  lemma DuplicatedInnerProductIsZero(v: seq<real>, w: seq<real>)
    requires |v| == |w|
    ensures Dot(Duplicated(v, 1.0), Duplicated(w, -1.0)) == 0.0
  {
    var q := Products(v, w);
    ScaledByOne(v);
    ProductsConcat(v, Scaled(v, 1.0), w, Scaled(w, -1.0));
    ProductsScaled(v, w, -1.0);
    SumConcat(q, Scaled(q, -1.0));
    SumScaled(q, -1.0);
  }
}
