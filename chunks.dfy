/**
  The parallel chunk coordinator of `InnerProduct_KahanAlg_Par`,
  `InnerProduct_SortKahanAlg_Par` and `InnerProduct_908_Par`, run sequentially: the common
  prefix of the two vectors is cut into `n / chunkSize` full chunks and one remainder chunk
  of `n % chunkSize` elements (omitted when empty), one task per chunk is launched in
  chunk order, slot `i` of the partial-sum array receives the result of task `i`, and the
  combination step is applied to that array only. The per-chunk kernels and the
  combination are floating-point procedures and enter as function parameters.
 */
module ChunkCoordinator {
  import opened Vectors
  import opened MagnitudeSort
  import opened Arithmetic

  /** A launched chunk task: the kernel reads `length` elements from `offset` on. */
  datatype Task = Task(offset: nat, length: nat)

  /** The size of `par_sum`: one slot per full chunk, plus one for a remainder. */
  function SlotCount(n: nat, chunkSize: nat): (slots: nat)
    requires chunkSize > 0
    ensures n <= slots * chunkSize < n + chunkSize
  {
    var k, r := n / chunkSize, n % chunkSize;
    assert n == k * chunkSize + r;
    assert (k + 1) * chunkSize == k * chunkSize + chunkSize;
    k + (if r > 0 then 1 else 0)
  }

  function ChunkLength(n: nat, chunkSize: nat, i: nat): nat
    requires chunkSize > 0
  {
    if i < n / chunkSize then chunkSize else n % chunkSize
  }

  /** Chunk `i` as the coordinator launches it: its offset and its length. */
  function ChunkTask(n: nat, chunkSize: nat, i: nat): Task
    requires chunkSize > 0
  {
    Task(i * chunkSize, ChunkLength(n, chunkSize, i))
  }

  /** Chunk `i` is non-empty and ends at min((i + 1) * chunkSize, n). */
  lemma ChunkBounds(n: nat, chunkSize: nat, i: nat)
    requires chunkSize > 0 && i < SlotCount(n, chunkSize)
    ensures ChunkLength(n, chunkSize, i) > 0
    ensures i * chunkSize + ChunkLength(n, chunkSize, i) == Min((i + 1) * chunkSize, n)
  {
    var k := n / chunkSize;
    assert n == k * chunkSize + n % chunkSize;
    if i < k {
      MulMonotone(i + 1, k, chunkSize);
    } else {
      assert i == k;
      assert (i + 1) * chunkSize == k * chunkSize + chunkSize;
    }
  }

  /** The elements of `s` that chunk `i` of a length-`n` prefix covers. */
  function Chunk(s: seq<real>, n: nat, chunkSize: nat, i: nat): (c: seq<real>)
    requires chunkSize > 0 && n <= |s| && i < SlotCount(n, chunkSize)
    ensures |c| == ChunkLength(n, chunkSize, i)
  {
    ChunkBounds(n, chunkSize, i);
    s[i * chunkSize..i * chunkSize + ChunkLength(n, chunkSize, i)]
  }

  /** What slot `i` of `par_sum` holds once every task has been joined. */
  function PartialSums(v: seq<real>, w: seq<real>, chunkSize: nat,
                       kernel: (seq<real>, seq<real>) -> real): (p: seq<real>)
    requires chunkSize > 0
    ensures |p| == SlotCount(Min(|v|, |w|), chunkSize)
  {
    var n := Min(|v|, |w|);
    seq(SlotCount(n, chunkSize), i requires 0 <= i < SlotCount(n, chunkSize) =>
      kernel(Chunk(v, n, chunkSize, i), Chunk(w, n, chunkSize, i)))
  }

  /** The slot count is the ceiling of n / chunkSize. */
  lemma SlotCountIsCeiling(n: nat, chunkSize: nat)
    requires chunkSize > 0
    ensures SlotCount(n, chunkSize) == (n + chunkSize - 1) / chunkSize
    ensures n <= SlotCount(n, chunkSize) * chunkSize < n + chunkSize
  {
    var k, r := n / chunkSize, n % chunkSize;
    assert n == k * chunkSize + r;
    var m := SlotCount(n, chunkSize);
    if r > 0 {
      assert m * chunkSize == k * chunkSize + chunkSize;
      assert n + chunkSize - 1 == m * chunkSize + (r - 1);
      DivIsUnique(n + chunkSize - 1, chunkSize, m);
    } else {
      assert n + chunkSize - 1 == m * chunkSize + (chunkSize - 1);
      DivIsUnique(n + chunkSize - 1, chunkSize, m);
    }
  }

  /**
    The chunks tile [0, n) in order: the first starts at 0, each starts where the previous
    ends, each is non-empty, full chunks hold `chunkSize` elements, the remainder chunk
    holds `n % chunkSize`, and the last ends at `n`.
   */
  lemma ChunksTile(n: nat, chunkSize: nat)
    requires chunkSize > 0
    ensures n > 0 ==> ChunkTask(n, chunkSize, 0).offset == 0
    ensures forall i :: 0 <= i < SlotCount(n, chunkSize) ==> ChunkLength(n, chunkSize, i) > 0
    ensures forall i :: 0 <= i < n / chunkSize ==> ChunkLength(n, chunkSize, i) == chunkSize
    ensures n % chunkSize > 0 ==> ChunkLength(n, chunkSize, n / chunkSize) == n % chunkSize
    ensures forall i :: 0 <= i < SlotCount(n, chunkSize) - 1 ==>
      ChunkTask(n, chunkSize, i + 1).offset == ChunkTask(n, chunkSize, i).offset + ChunkLength(n, chunkSize, i)
    ensures n > 0 ==> (SlotCount(n, chunkSize) - 1) * chunkSize + ChunkLength(n, chunkSize, SlotCount(n, chunkSize) - 1) == n
  {
    forall i | 0 <= i < SlotCount(n, chunkSize)
      ensures ChunkLength(n, chunkSize, i) > 0
    {
      ChunkBounds(n, chunkSize, i);
    }
    forall i | 0 <= i < SlotCount(n, chunkSize) - 1
      ensures ChunkTask(n, chunkSize, i + 1).offset == ChunkTask(n, chunkSize, i).offset + ChunkLength(n, chunkSize, i)
    {
      ChunkBounds(n, chunkSize, i);
      assert i < n / chunkSize;
    }
    if n > 0 {
      var m := SlotCount(n, chunkSize);
      ChunkBounds(n, chunkSize, m - 1);
      SlotCountIsCeiling(n, chunkSize);
    }
  }

  /** Every index of [0, n) lies in chunk j / chunkSize ... */
  lemma ChunkOfIndex(n: nat, chunkSize: nat, j: nat)
    requires chunkSize > 0 && j < n
    ensures j / chunkSize < SlotCount(n, chunkSize)
    ensures ChunkTask(n, chunkSize, j / chunkSize).offset <= j
    ensures j < ChunkTask(n, chunkSize, j / chunkSize).offset + ChunkLength(n, chunkSize, j / chunkSize)
  {
    var q := j / chunkSize;
    var m := SlotCount(n, chunkSize);
    assert j == q * chunkSize + j % chunkSize;
    SlotCountIsCeiling(n, chunkSize);
    if q >= m {
      MulMonotone(m, q, chunkSize);
      assert false;
    }
    ChunkBounds(n, chunkSize, q);
    assert (q + 1) * chunkSize == q * chunkSize + chunkSize;
  }

  /** ... and in no other chunk. */
  lemma ChunkOfIndexUnique(n: nat, chunkSize: nat, j: nat, i: nat)
    requires chunkSize > 0 && i < SlotCount(n, chunkSize)
    requires ChunkTask(n, chunkSize, i).offset <= j < ChunkTask(n, chunkSize, i).offset + ChunkLength(n, chunkSize, i)
    ensures i == j / chunkSize
  {
    ChunkBounds(n, chunkSize, i);
    assert (i + 1) * chunkSize == i * chunkSize + chunkSize;
    DivIsUnique(j, chunkSize, i);
  }

  /** The 100-element, chunk-size-30 case: four slots of 30, 30, 30 and 10 elements. */
  lemma HundredByThirty()
    ensures SlotCount(100, 30) == 4
    ensures ChunkTask(100, 30, 0) == Task(0, 30) && ChunkTask(100, 30, 1) == Task(30, 30)
    ensures ChunkTask(100, 30, 2) == Task(60, 30) && ChunkTask(100, 30, 3) == Task(90, 10)
  {
  }

  /** The launch loops: one task per full chunk, then one for the remainder if present. */
  method LaunchTasks(n: nat, chunkSize: nat) returns (pool: seq<Task>)
    requires chunkSize > 0
    ensures |pool| == SlotCount(n, chunkSize)
    ensures forall i :: 0 <= i < |pool| ==> pool[i] == ChunkTask(n, chunkSize, i)
  {
    var numOfChunks := n / chunkSize;
    var remainder := n % chunkSize;
    pool := [];
    var i := 0;
    while i < numOfChunks
      invariant 0 <= i <= numOfChunks
      invariant |pool| == i
      invariant forall j :: 0 <= j < i ==> pool[j] == ChunkTask(n, chunkSize, j)
    {
      pool := pool + [Task(i * chunkSize, chunkSize)];
      i := i + 1;
    }
    if remainder > 0 {
      pool := pool + [Task(i * chunkSize, remainder)];
    }
  }

  /**
    Sizes `par_sum` by the slot count, checks it against the number of launched tasks,
    and joins task `i` into slot `i`.
   */
  method CollectPartialSums(v: seq<real>, w: seq<real>, chunkSize: nat, pool: seq<Task>,
                            kernel: (seq<real>, seq<real>) -> real) returns (parSum: seq<real>)
    requires chunkSize > 0
    requires |pool| == SlotCount(Min(|v|, |w|), chunkSize)
    requires forall i :: 0 <= i < |pool| ==> pool[i] == ChunkTask(Min(|v|, |w|), chunkSize, i)
    ensures |parSum| == |pool|
    ensures forall i :: 0 <= i < |parSum| ==>
      parSum[i] == kernel(Chunk(v, Min(|v|, |w|), chunkSize, i), Chunk(w, Min(|v|, |w|), chunkSize, i))
  {
    var n := Min(|v|, |w|);
    var slots := new real[SlotCount(n, chunkSize)](_ => 0.0);
    assert slots.Length == |pool|;
    for i := 0 to |pool|
      invariant forall j :: 0 <= j < i ==> slots[j] == kernel(Chunk(v, n, chunkSize, j), Chunk(w, n, chunkSize, j))
    {
      var t := pool[i];
      ChunkBounds(n, chunkSize, i);
      slots[i] := kernel(v[t.offset..t.offset + t.length], w[t.offset..t.offset + t.length]);
    }
    parSum := slots[..];
  }

  /** The per-chunk kernel of `InnerProduct_SortKahanAlg_Par`: sort the products, then Kahan. */
  function SortKahanKernel(kahanSum: seq<real> -> real): (kernel: (seq<real>, seq<real>) -> real)
    ensures kahanSum == Sum ==> forall a, b :: kernel(a, b) == Dot(a, b)
  {
    (a: seq<real>, b: seq<real>) => SortThenAccumulate(a, b, kahanSum)
  }

  /** The per-chunk kernel of `InnerProduct_908_Par`: exact summation of the products. */
  function ExactSumKernel(exactSum: seq<real> -> real): (kernel: (seq<real>, seq<real>) -> real)
    ensures exactSum == Sum ==> forall a, b :: kernel(a, b) == Dot(a, b)
  {
    (a: seq<real>, b: seq<real>) => exactSum(Products(a, b))
  }

  /** `InnerProduct_KahanAlg_Par`: Kahan per chunk, then sort-and-Kahan over `par_sum`. */
  method InnerProductKahanAlgPar(v: seq<real>, w: seq<real>, chunkSize: nat,
                                 kahanDot: (seq<real>, seq<real>) -> real,
                                 kahanSum: seq<real> -> real) returns (result: real)
    requires chunkSize > 0
    ensures exists z :: SortedByMagnitude(z) && multiset(z) == multiset(PartialSums(v, w, chunkSize, kahanDot))
                        && result == kahanSum(z)
    ensures kahanDot == Dot && kahanSum == Sum ==> result == Dot(v, w)
  {
    var pool := LaunchTasks(Min(|v|, |w|), chunkSize);
    var parSum := CollectPartialSums(v, w, chunkSize, pool, kahanDot);
    assert parSum == PartialSums(v, w, chunkSize, kahanDot);
    var buffer := new DoubleVector(parSum);
    result := KahanSortAndSum(buffer, kahanSum);
    assert SortedByMagnitude(buffer.elems) && multiset(buffer.elems) == multiset(parSum);
    ParallelMatchesSerial(v, w, chunkSize);
  }

  /** `InnerProduct_SortKahanAlg_Par`: sort-and-Kahan per chunk and over `par_sum`. */
  method InnerProductSortKahanAlgPar(v: seq<real>, w: seq<real>, chunkSize: nat,
                                     kahanSum: seq<real> -> real) returns (result: real)
    requires chunkSize > 0
    ensures exists z :: SortedByMagnitude(z)
                        && multiset(z) == multiset(PartialSums(v, w, chunkSize, SortKahanKernel(kahanSum)))
                        && result == kahanSum(z)
    ensures kahanSum == Sum ==> result == Dot(v, w)
  {
    var pool := LaunchTasks(Min(|v|, |w|), chunkSize);
    var parSum := CollectPartialSums(v, w, chunkSize, pool, SortKahanKernel(kahanSum));
    assert parSum == PartialSums(v, w, chunkSize, SortKahanKernel(kahanSum));
    var buffer := new DoubleVector(parSum);
    result := KahanSortAndSum(buffer, kahanSum);
    assert SortedByMagnitude(buffer.elems) && multiset(buffer.elems) == multiset(parSum);
    ParallelMatchesSerial(v, w, chunkSize);
  }

  /** `InnerProduct_908_Par`: exact summation per chunk and over `par_sum` (no sort). */
  method InnerProduct908Par(v: seq<real>, w: seq<real>, chunkSize: nat,
                            exactSum: seq<real> -> real) returns (result: real)
    requires chunkSize > 0
    ensures result == exactSum(PartialSums(v, w, chunkSize, ExactSumKernel(exactSum)))
    ensures exactSum == Sum ==> result == Dot(v, w)
  {
    var pool := LaunchTasks(Min(|v|, |w|), chunkSize);
    var parSum := CollectPartialSums(v, w, chunkSize, pool, ExactSumKernel(exactSum));
    assert parSum == PartialSums(v, w, chunkSize, ExactSumKernel(exactSum));
    result := exactSum(parSum);
    ParallelMatchesSerial(v, w, chunkSize);
  }

  /** The products of chunk `i` are the products of the whole prefix restricted to it. */
  lemma ChunkProducts(v: seq<real>, w: seq<real>, chunkSize: nat, i: nat)
    requires chunkSize > 0 && i < SlotCount(Min(|v|, |w|), chunkSize)
    ensures var n := Min(|v|, |w|);
      Products(Chunk(v, n, chunkSize, i), Chunk(w, n, chunkSize, i)) == Chunk(Products(v, w), n, chunkSize, i)
  {
    var n := Min(|v|, |w|);
    ChunkBounds(n, chunkSize, i);
    var off, len := i * chunkSize, ChunkLength(n, chunkSize, i);
    var a, b := Chunk(v, n, chunkSize, i), Chunk(w, n, chunkSize, i);
    assert a == v[off..off + len] && b == w[off..off + len];
    assert Chunk(Products(v, w), n, chunkSize, i) == Products(v, w)[off..off + len];
    SliceProducts(v, w, off, off + len);
  }

  lemma SliceProducts(v: seq<real>, w: seq<real>, lo: nat, hi: nat)
    requires lo <= hi <= Min(|v|, |w|)
    ensures Products(v[lo..hi], w[lo..hi]) == Products(v, w)[lo..hi]
  {
    var lhs, rhs := Products(v[lo..hi], w[lo..hi]), Products(v, w)[lo..hi];
    assert |lhs| == |rhs|;
    forall k | 0 <= k < |lhs| ensures lhs[k] == rhs[k] {
      assert lhs[k] == v[lo + k] * w[lo + k];
    }
  }

  lemma SumSnoc(s: seq<real>, x: real)
    ensures Sum(s + [x]) == Sum(s) + x
  {
    SumConcat(s, [x]);
    assert [x][1..] == [];
    assert Sum([x]) == Id(x) + SumBy([], Id);
  }

  /** The prefix that ends with chunk `i` is the prefix before it followed by the chunk. */
  lemma PrefixThroughChunk(p: seq<real>, n: nat, chunkSize: nat, i: nat)
    requires chunkSize > 0 && n == |p| && i < SlotCount(n, chunkSize)
    ensures Min(i * chunkSize, n) == i * chunkSize
    ensures p[..Min((i + 1) * chunkSize, n)] == p[..i * chunkSize] + Chunk(p, n, chunkSize, i)
  {
    ChunkBounds(n, chunkSize, i);
  }

  lemma {:induction false} PrefixOfPartialSums(v: seq<real>, w: seq<real>, chunkSize: nat, m: nat)
    requires chunkSize > 0 && m <= SlotCount(Min(|v|, |w|), chunkSize)
    ensures Sum(PartialSums(v, w, chunkSize, Dot)[..m]) == Sum(Products(v, w)[..Min(m * chunkSize, Min(|v|, |w|))])
  {
    var n := Min(|v|, |w|);
    var ps := PartialSums(v, w, chunkSize, Dot);
    var p := Products(v, w);
    if m == 0 {
      assert ps[..0] == [] && p[..0] == [];
    } else {
      var i := m - 1;
      PrefixOfPartialSums(v, w, chunkSize, i);
      ChunkProducts(v, w, chunkSize, i);
      assert ps[i] == Sum(Chunk(p, n, chunkSize, i));
      assert ps[..m] == ps[..i] + [ps[i]];
      SumSnoc(ps[..i], ps[i]);
      PrefixThroughChunk(p, n, chunkSize, i);
      SumConcat(p[..i * chunkSize], Chunk(p, n, chunkSize, i));
    }
  }

  /** Summing the exact per-chunk inner products gives the exact inner product. */
  lemma PartialSumsAddUp(v: seq<real>, w: seq<real>, chunkSize: nat)
    requires chunkSize > 0
    ensures Sum(PartialSums(v, w, chunkSize, Dot)) == Dot(v, w)
  {
    var n := Min(|v|, |w|);
    var m := SlotCount(n, chunkSize);
    PrefixOfPartialSums(v, w, chunkSize, m);
    SlotCountIsCeiling(n, chunkSize);
    var ps := PartialSums(v, w, chunkSize, Dot);
    assert ps[..m] == ps;
    assert Products(v, w)[..n] == Products(v, w);
  }

  /**
    Under exact arithmetic each of the three coordinators returns the serial inner product
    of the common prefix, whatever the chunk size and whatever order the combination step
    puts `par_sum` in.
   */
  lemma ParallelMatchesSerial(v: seq<real>, w: seq<real>, chunkSize: nat)
    requires chunkSize > 0
    ensures forall z :: multiset(z) == multiset(PartialSums(v, w, chunkSize, Dot)) ==> Sum(z) == Dot(v, w)
    ensures forall z :: multiset(z) == multiset(PartialSums(v, w, chunkSize, SortKahanKernel(Sum))) ==>
      Sum(z) == Dot(v, w)
    ensures Sum(PartialSums(v, w, chunkSize, ExactSumKernel(Sum))) == Dot(v, w)
  {
    var exact := PartialSums(v, w, chunkSize, Dot);
    PartialSumsAddUp(v, w, chunkSize);
    forall z | multiset(z) == multiset(exact) ensures Sum(z) == Dot(v, w) {
      SumPermutation(z, exact);
    }
    SameKernelSameSums(v, w, chunkSize, SortKahanKernel(Sum));
    SameKernelSameSums(v, w, chunkSize, ExactSumKernel(Sum));
  }

  /** A kernel that agrees with the exact inner product fills `par_sum` with the exact partial sums. */
  lemma SameKernelSameSums(v: seq<real>, w: seq<real>, chunkSize: nat, kernel: (seq<real>, seq<real>) -> real)
    requires chunkSize > 0 && forall a, b :: kernel(a, b) == Dot(a, b)
    ensures PartialSums(v, w, chunkSize, kernel) == PartialSums(v, w, chunkSize, Dot)
  {
    var lhs, rhs := PartialSums(v, w, chunkSize, kernel), PartialSums(v, w, chunkSize, Dot);
    forall i | 0 <= i < |lhs| ensures lhs[i] == rhs[i] {
      var n := Min(|v|, |w|);
      assert lhs[i] == kernel(Chunk(v, n, chunkSize, i), Chunk(w, n, chunkSize, i));
    }
  }
}
