# InnerProductMeasurement: a verified model of its exact, deterministic layer

InnerProductMeasurement compares ways of computing the inner product of two `double`
vectors: `std::inner_product`, a parallel transform-reduce, sort-by-magnitude followed by
serial accumulation, Kahan summation, and chunked parallel versions of these. It also ships
a test-data generator (the "908" sandbox) and a small `range` helper for integer loops. This
project models the part of that code whose behaviour is exact and can be stated without
floating-point rounding:

- `vectors.dfy` (module `Vectors`): vectors of reals. It has the exact sum and inner product
  that the arbitrary-precision reference stands for, and lemmas on permutation,
  concatenation and scaling.
- `magnitude_sort.dfy` (module `MagnitudeSort`): the `fabs(p) < fabs(q)` sort shared by every
  sorting kernel. It covers the product buffer of length `min(|v|, |w|)` and the in-place
  sorts of `Sort_And_Accumulate` and `Kahan_Sort_And_Sum`.
- `chunks.dfy` (module `ChunkCoordinator`): the chunk coordinator of `InnerProduct_KahanAlg_Par`,
  `InnerProduct_SortKahanAlg_Par` and `InnerProduct_908_Par`, run sequentially. It covers the
  slot count, the chunk offsets and lengths, one launch per chunk, and joining the results into
  `par_sum`.
- `binary64.dfy` (module `Binary64`): the `str_double` bit fields of an IEEE 754 binary64
  value. It covers the assembly of the two 32-bit words by shifting in random bits, and the
  exponent override.
- `shuffle.dfy` (module `Shuffle`): the `2 * MAXNUM` random swaps of `Generate`, done in
  place on an array.
- `generator.dfy` (module `Generator`): `_908_sandbox` as a class. It covers the sign machine
  of `Rand`, `Generate`, `Fill_Numerical_Data_No`, `Duplicate` and `DuplicateWithNegated`.
- `ranges.dfy` (module `Ranges`): `range`, `range_iter`, iteration with `begin()`/`end()`,
  and the conversion to `std::vector`.
- `wrappers.dfy` and `arithmetic.dfy`: `Option` and three lemmas on natural-number
  multiplication and division.

How the model stands in for the C++:

- **Randomness.** `rand()` is an explicit oracle, a sequence of naturals read in order. One
  `Rand(expo)` call consumes 64 draws for the bits, plus one for the exponent when
  `expo != 0`.
- **Extra vector elements.** The fill is given enough draws for `num` values. If the
  shuffle runs out of draws it reports `completed == false`. That outcome stands for a loop
  that has not ended after the draws it was given. With one element it never ends.
- **Arithmetic.** Doubles in the summation layer are `real`s. The floating-point operations
  the generator performs on bit patterns (`st += x`, `x -= st / MAXNUM`) are abstract
  functions of a `FloatOps` value. The Kahan loop, `std::accumulate` and the exact-sum
  library are function parameters of the kernels.

## Model

| member | source | states |
|---|---|---|
| Vectors.Products | src/InnerProductVerification.cpp:248-254 | the product buffer has `min(|v|, |w|)` elements and element `i` is `v[i] * w[i]` |
| Vectors.SumByPermutation | src/InnerProductVerification.cpp:257-260 | an exact sum is the same for any two sequences with the same multiset of terms |
| Vectors.SumPermutation | src/InnerProductVerification.cpp:269-270 | reordering the terms (as the sort does before accumulating) leaves the exact sum unchanged |
| Vectors.SumByConcat | src/InnerProductVerification.cpp:672-675 | the exact sum of a concatenation is the sum of the two parts' sums |
| Vectors.SumConcat | src/InnerProductVerification.cpp:672-675 | the same for plain sums of reals |
| Vectors.Scaled | src/InnerProductVerification.cpp:205 | every element multiplied by the factor, same length |
| Vectors.ScaledByOne | src/InnerProductVerification.cpp:927 | scaling by `+1.0` changes nothing |
| Vectors.SumScaled | src/InnerProductVerification.cpp:205 | the sum of a scaled vector is the factor times the sum |
| Vectors.ProductsConcat | src/InnerProductVerification.cpp:926-929 | products of matching-length concatenations are the concatenated products |
| Vectors.ProductsScaled | src/InnerProductVerification.cpp:926-929 | scaling one factor vector scales every element-wise product |
| MagnitudeSort.Insert | src/InnerProductVerification.cpp:257 | inserting into a magnitude-sorted sequence keeps it sorted and adds exactly one occurrence of the element |
| MagnitudeSort.SortByMagnitude | src/InnerProductVerification.cpp:257 | the result is non-decreasing in absolute value (ascending, although the comment at line 256 says descending), is a permutation of the input and has its length |
| MagnitudeSort.SortedProducts | src/InnerProductVerification.cpp:393-401 | the buffer before accumulation has `min(|v|, |w|)` elements, is sorted by magnitude and is a permutation of the element-wise products |
| MagnitudeSort.SortThenAccumulate | src/InnerProductVerification.cpp:246-261 | under exact accumulation, sort-then-accumulate equals the inner product of the common prefix |
| MagnitudeSort.SortByMagnitudeInPlace | src/InnerProductVerification.cpp:317 | the caller's vector ends sorted by magnitude and is a permutation of its old contents; which of several equal-magnitude elements comes first is not promised |
| MagnitudeSort.SortAndAccumulate | src/InnerProductVerification.cpp:265-271 | sorts the caller's vector in place, returns the accumulation of the sorted order, and with exact accumulation returns the sum of the original vector |
| MagnitudeSort.KahanSortAndSum | src/InnerProductVerification.cpp:315-319 | leaves the caller's vector sorted by magnitude and a permutation of its old contents, returns the Kahan loop (a parameter) applied to that new order, and with exact summation returns the sum of the original vector |
| MagnitudeSort.ProductsAsWritten | src/InnerProductVerification.cpp:248-254 | the transform as written stays in bounds exactly when `|v| <= |w|` |
| MagnitudeSort.ProductsAsWrittenAgrees | src/InnerProductVerification.cpp:248-254 | where it stays in bounds, the transform computes the intended product buffer |
| MagnitudeSort.ProductsAsWrittenOverruns | src/InnerProductVerification.cpp:396-398 | for `v` of length 2 and `w` of length 1 the transform overruns, while the intended buffer is `[3.0]` |
| ChunkCoordinator.ChunkBounds | src/InnerProductVerification.cpp:663-669 | every slot's chunk is non-empty and ends at `min((i + 1) * chunk, n)` |
| ChunkCoordinator.Chunk | src/InnerProductVerification.cpp:665 | chunk `i` of a vector has exactly the length the coordinator launches it with |
| ChunkCoordinator.PartialSums | src/InnerProductVerification.cpp:655 | `par_sum` has one slot per full chunk plus one for a non-empty remainder |
| ChunkCoordinator.SlotCount | src/InnerProductVerification.cpp:648-655 | `n / chunk` full chunks plus one for a non-zero remainder are just enough slots: `n <= slots * chunk < n + chunk` |
| ChunkCoordinator.SlotCountIsCeiling | src/InnerProductVerification.cpp:647-655 | the slot count equals `ceil(n / chunk)` and `n <= slots * chunk < n + chunk` |
| ChunkCoordinator.ChunksTile | src/InnerProductVerification.cpp:663-669 | the chunks start at 0, each starts where the previous ends, full chunks hold `chunk` elements, the remainder holds `n % chunk`, and the last ends at `n` |
| ChunkCoordinator.ChunkOfIndex | src/InnerProductVerification.cpp:736-742 | every index of `[0, n)` lies in chunk `j / chunk`, which is a launched chunk (no gap) |
| ChunkCoordinator.ChunkOfIndexUnique | src/InnerProductVerification.cpp:736-742 | an index lies in no other chunk (no overlap) |
| ChunkCoordinator.HundredByThirty | src/InnerProductVerification.cpp:649-655 | 100 elements in chunks of 30 give 4 slots: `(0,30)`, `(30,30)`, `(60,30)`, `(90,10)` |
| ChunkCoordinator.LaunchTasks | src/InnerProductVerification.cpp:663-669 | the launch loops push exactly one task per slot, task `i` being chunk `i`, so the pool size matches `par_sum` (the assertion at line 671) |
| ChunkCoordinator.CollectPartialSums | src/InnerProductVerification.cpp:671-673 | slot `i` of `par_sum` holds the kernel applied to chunk `i` of both vectors, for every slot |
| ChunkCoordinator.SortKahanKernel | src/InnerProductVerification.cpp:693 | with exact summation the per-chunk sort-and-Kahan kernel returns the chunk's exact inner product |
| ChunkCoordinator.ExactSumKernel | src/InnerProductVerification.cpp:731 | with exact summation the per-chunk kernel returns the chunk's exact inner product |
| ChunkCoordinator.InnerProductKahanAlgPar | src/InnerProductVerification.cpp:645-676 | the result is the Kahan loop applied to some magnitude-sorted permutation of exactly the per-chunk Kahan results; with exact kernels it is the inner product of the common prefix |
| ChunkCoordinator.InnerProductSortKahanAlgPar | src/InnerProductVerification.cpp:679-712 | the result is the Kahan loop applied to some magnitude-sorted permutation of the per-chunk sort-and-Kahan results; with exact summation it is the inner product of the common prefix |
| ChunkCoordinator.InnerProduct908Par | src/InnerProductVerification.cpp:717-749 | the result is the exact-sum combination of the per-chunk exact sums; with exact summation it is the inner product of the common prefix |
| ChunkCoordinator.ChunkProducts | src/InnerProductVerification.cpp:665 | a chunk's element-wise products are the whole prefix's products restricted to that chunk |
| ChunkCoordinator.PrefixOfPartialSums | src/InnerProductVerification.cpp:672-673 | the first `m` exact partial sums add up to the exact sum of the products covered by the first `m` chunks |
| ChunkCoordinator.PartialSumsAddUp | src/InnerProductVerification.cpp:672-675 | the exact partial sums add up to the exact inner product |
| ChunkCoordinator.ParallelMatchesSerial | src/InnerProductVerification.cpp:645-749 | under exact arithmetic the three coordinators' combination steps give the serial inner product for every chunk size and for any order of `par_sum` |
| ChunkCoordinator.SameKernelSameSums | src/InnerProductVerification.cpp:672-675 | a kernel that agrees with the exact inner product on every chunk fills `par_sum` with the exact partial sums |
| Binary64.FieldsRoundTrip | src/InnerProductVerification.cpp:104-105 | splitting a pattern into its two words and reassembling it gives the same sign, exponent and mantissa |
| Binary64.FromWords | src/InnerProductVerification.cpp:104-105 | storing two words as the lower and upper halves of a double and reading them back gives the same words |
| Binary64.PatternOfWords | src/InnerProductVerification.cpp:104-105 | `low` is the lower and `high` the upper 32 bits of the 64-bit pattern |
| Binary64.SignFlipNegates | src/InnerProductVerification.cpp:117-123 | setting the sign bit negates the value, and clearing it gives a non-negative value |
| Binary64.SignSetMeansNegative | src/InnerProductVerification.cpp:117 | a non-zero pattern with the sign bit set is negative |
| Binary64.PackBitsBound | src/InnerProductVerification.cpp:88-103 | `k` packed bits form a number below `2^k` |
| Binary64.PackBitsBit | src/InnerProductVerification.cpp:88-103 | bit `j` of the packed number is the `j`-th bit |
| Binary64.PackBitsBits | src/InnerProductVerification.cpp:88-103 | the same for all bits at once |
| Binary64.ShiftedInPacks | src/InnerProductVerification.cpp:90-96 | after `i` shift-in steps the word holds the `i` bits drawn so far in its top `i` positions |
| Binary64.PackBitsSplit | src/InnerProductVerification.cpp:104-105 | division and remainder by `2^|a|` split a packed concatenation back into its parts |
| Binary64.FieldsOfBits | src/InnerProductVerification.cpp:88-105 | of the 64 drawn bits, bits 0-51 form the mantissa, bits 52-62 the exponent, and bit 63 is the sign |
| Binary64.ShiftIn | src/InnerProductVerification.cpp:88-96 | the 32-step loop leaves bit `j` of the word equal to the `j`-th drawn bit, for every `j` |
| Binary64.CRemOfNatural | src/InnerProductVerification.cpp:107 | C's `%` of a non-negative draw by `expo` lies in `[0, |expo|)` and is the mathematical remainder |
| Binary64.ForcedExponent | src/InnerProductVerification.cpp:107 | for `expo > 0` the forced exponent lies in `[0x3ff - expo/2, 0x3ff - expo/2 + expo - 1]`, and in the mirrored band for `expo < 0` |
| Binary64.ExponentOverride | src/InnerProductVerification.cpp:106-109 | the stored exponent is `0x3ff` when `expo` is 0 and the forced one for `0 < expo <= 2047`; for `0 <= expo <= 2047` it is never the all-ones exponent, so the value is finite |
| Binary64.ExponentOverrideWraps | src/InnerProductVerification.cpp:107 | with `expo == 2048` and a draw of 0 the 11-bit field wraps to the all-ones exponent |
| Shuffle.RedrawY | src/InnerProductVerification.cpp:164-165 | the redraw loop ends with an index different from `x`, and keeps the first `y` when it already differs |
| Shuffle.NextSwap | src/InnerProductVerification.cpp:162-165 | one swap draws two distinct in-range indices, the first being `rand() % MAXNUM` |
| Shuffle.Plan | src/InnerProductVerification.cpp:160-165 | a finished plan has exactly `count` swaps, each of two distinct in-range indices |
| Shuffle.SwapAt | src/InnerProductVerification.cpp:166-168 | a swap exchanges the two entries, preserves the multiset and leaves every other entry alone |
| Shuffle.ApplySwapsPermutes | src/InnerProductVerification.cpp:160-169 | any sequence of in-range swaps yields a permutation of the list |
| Shuffle.PermutationKeepsAll | src/InnerProductVerification.cpp:160-169 | a property held by every element before the shuffle is held by every element after it |
| Shuffle.OneElementNeverFinishes | src/InnerProductVerification.cpp:164-165 | with `MAXNUM == 1` no plan with a swap ever finishes, whatever the draws |
| Shuffle.RedrawFinds | src/InnerProductVerification.cpp:164-165 | the redraw loop ends once a draw different from `x` is available |
| Shuffle.PlanAdvance | src/InnerProductVerification.cpp:160-169 | one completed swap moves the loop from the plan for `count` swaps to the plan for `count - 1` |
| Shuffle.ApplySwapsSnoc | src/InnerProductVerification.cpp:166-168 | applying one more swap is a swap of the current list |
| Shuffle.Redraw | src/InnerProductVerification.cpp:164-165 | the `while (x == y)` loop produces exactly the index and draw position of `RedrawY`, and stops if and only if one exists |
| Shuffle.ShuffleInPlace | src/InnerProductVerification.cpp:159-169 | the list is always a permutation of its old contents; the loop finishes if and only if the `2 * MAXNUM`-swap plan exists, and then the list is the old list with that plan's swaps applied |
| Shuffle.SwapStep | src/InnerProductVerification.cpp:162-168 | one iteration draws the swap of `NextSwap` and applies it in place, or leaves the list unchanged when the draws run out |
| Generator.RawDraw | src/InnerProductVerification.cpp:88-109 | the raw double has the first 52 drawn bits as mantissa, bit 63 as sign, and the exponent `0x3ff`, or for `expo != 0` the field-width truncation of the forced exponent |
| Generator.RawDrawInBand | src/InnerProductVerification.cpp:106-109 | for `0 <= expo <= 2047` a raw draw is finite and its exponent is in the band of `ForcedExponent` |
| Generator.SignStep | src/InnerProductVerification.cpp:110-126 | `pflag` 2 and 3 return the raw double and keep the state; `pflag` 1 always sets the sign; otherwise a set sign means the raw double was saved and returned negative, a cleared sign means the saved double was returned positive, and `rflag` records the sign just produced |
| Generator.Run | src/InnerProductVerification.cpp:147-151 | filling `n` slots through the sign machine gives exactly `n` values |
| Generator.RunSnoc | src/InnerProductVerification.cpp:147-151 | one more fill step appends the next `Rand` output and advances the sandbox state |
| Generator.RunRandom | src/InnerProductVerification.cpp:110-111 | for `pflag` 2 and 3 every raw pattern is returned unchanged and the sandbox state does not move |
| Generator.RunWellConditioned | src/InnerProductVerification.cpp:112-118 | for `pflag` 1 every output is its raw pattern with the sign bit set |
| Generator.RunExactZero | src/InnerProductVerification.cpp:114-125 | for `pflag` 4 from `rflag == 0`, odd-numbered draws are the raw pattern with the sign set, even-numbered draws repeat the previous raw pattern with the sign cleared, and `rflag` alternates |
| Generator.PairsSumToZero | src/InnerProductVerification.cpp:181-182 | an even-length sequence of `(-m, +m)` pairs sums to exactly zero |
| Generator.ExactZeroSumsToZero | src/InnerProductVerification.cpp:181-182 | for `pflag` 4 an even number of finite draws sums to exactly zero |
| Generator.RunIgnoresInitialSaved | src/InnerProductVerification.cpp:83 | the outputs do not depend on the initial `ret_saved`, which the C++ leaves uninitialised |
| Generator.RunOnlyChangesSigns | src/InnerProductVerification.cpp:110-126 | every output, and a saved pattern, is one of the raw patterns with at most its sign changed |
| Generator.RandDraws | src/InnerProductVerification.cpp:147-149 | the `k`-th `Rand` call of the fill reads its own block of draws |
| Generator.RawDraws | src/InnerProductVerification.cpp:147-149 | the fill produces one raw pattern per slot |
| Generator.Anderson | src/InnerProductVerification.cpp:155-157 | the mean subtraction keeps the length |
| Generator.Prepared | src/InnerProductVerification.cpp:147-157 | the list before the shuffle has `n` elements |
| Generator.PreparedWellConditioned | src/InnerProductVerification.cpp:112-118 | with flag 1 every prepared value has its sign bit set |
| Generator.PreparedRandom | src/InnerProductVerification.cpp:110-111 | with flag 2 the prepared list is exactly the raw draws |
| Generator.PreparedAnderson | src/InnerProductVerification.cpp:154-157 | with flag 3 the prepared list is the raw draws with the running sum over `MAXNUM` subtracted from each |
| Generator.PreparedExactZero | src/InnerProductVerification.cpp:181-182 | with flag 4, an even count and a spread `0 <= deltaExp <= 2047` the prepared list sums to exactly zero |
| Generator.PreparedInBand | src/InnerProductVerification.cpp:106-126 | for flags other than 3 and `0 <= expo <= 2047`, every prepared value is finite with its exponent in the band |
| Generator.Sandbox.constructor | src/InnerProductVerification.cpp:78-83 | a fresh sandbox has `pflag == 1` and `rflag == 0` |
| Generator.Sandbox.Rand | src/InnerProductVerification.cpp:85-127 | the returned double and the new `rflag`/`ret_saved` are one step of the sign machine on the assembled raw pattern; `pflag` is untouched |
| Generator.Sandbox.Generate | src/InnerProductVerification.cpp:130-174 | asserts `1 <= pFlag <= 4`, stores `pFlag`, and leaves the list a permutation of the prepared values; the shuffle finishes if and only if its plan exists, and then the list is that plan applied |
| Generator.Sandbox.FillDraws | src/InnerProductVerification.cpp:143-151 | slot `i` receives the `i`-th sign-machine output, and `st` is the running sum of the slots in order |
| Generator.SubtractMean | src/InnerProductVerification.cpp:155-157 | each slot has `st / MAXNUM` subtracted from it |
| Generator.FillNumericalDataNo | src/InnerProductVerification.cpp:183-188 | yields exactly `num_of_data` elements forming a permutation of the prepared values; flag 1 gives only negative-sign values, flag 2 a permutation of the raw draws, flag 4 with an even count and a spread in `[0, 2047]` an exact zero sum; one element never finishes |
| Generator.FilledData | src/InnerProductVerification.cpp:181-188 | the per-flag guarantees carry over from the prepared values to any permutation of them |
| Generator.Duplicated | src/InnerProductVerification.cpp:201-206 | twice the length, the first half unchanged, the second half the first scaled by the factor |
| Generator.Duplicate | src/InnerProductVerification.cpp:201-206 | the vector becomes itself followed by itself times `multFactor` |
| Generator.DuplicateWithNegated | src/InnerProductVerification.cpp:208-211 | exactly `Duplicate` with factor `-1.0` |
| Generator.DuplicatedNegatedSumsToZero | src/InnerProductVerification.cpp:208-211 | a vector duplicated with its negation sums to exactly zero |
| Generator.DuplicatedInnerProductIsZero | src/InnerProductVerification.cpp:926-929 | the inner product of `Duplicate(v, +1)` and `Duplicate(w, -1)` is exactly zero |
| Ranges.MakeRange | include/range.h:34-40 | `range(from, end, step)` keeps its three constants and demands a non-zero step |
| Ranges.RangeTo | include/range.h:43-47 | `range(end)` demands `end > 0` and starts at 0 with step 1 |
| Ranges.BeforeCases | include/range.h:75 | "before `end`" means `< end` for a positive step, `> end` for a negative one, and never holds for step 0 |
| Ranges.RangeIter.constructor | include/range.h:56 | a new iterator holds the given value and step |
| Ranges.RangeIter.Increment | include/range.h:60 | `++` adds exactly `step` to the current value |
| Ranges.RangeIter.NotEqual | include/range.h:68-76 | demands equal steps and holds exactly when the iterator is strictly before the other in the step direction |
| Ranges.RangeIter.Equal | include/range.h:63-66 | is exactly the negation of `!=`: the end has been reached or passed |
| Ranges.Begin | include/range.h:79 | `begin()` is a new iterator at `from` with the range's step |
| Ranges.End | include/range.h:80 | `end()` is a new iterator at `end` with the range's step |
| Ranges.CeilDivBound | include/range.h:68-76 | `k * step < distance` exactly when `k` is below `ceil(distance / step)` |
| Ranges.Visits | include/range.h:56-80 | the visited values are `from + k * step` for `k` below the iteration count |
| Ranges.BeforeIffBelowCount | include/range.h:68-76 | the `k`-th value is still before `end` if and only if `k` is below the iteration count |
| Ranges.VisitsStayBeforeEnd | include/range.h:68-76 | every visited value is strictly on the near side of `end` and the next one is not, so iteration stops even when a step jumps past `end` |
| Ranges.RangeToVisits | include/range.h:43-47 | `range(end)` visits exactly `0, 1, ..., end - 1` |
| Ranges.Iterate | include/range.h:56-80 | a range-for loop over `begin()`/`end()` visits exactly `Visits(r)` and terminates |
| Ranges.ToVector | include/range.h:85-91 | the conversion as written yields the iteration's values for a positive step and nothing for a negative step |
| Ranges.ToVectorNeverStops | include/range.h:88 | for a negative step that starts below `end`, the written test `i < end` holds for every value, so the loop never ends |
| Ranges.ToVectorDropsCountdown | include/range.h:85-91 | `range(3, 0, -1)` iterates `3, 2, 1`, whereas the conversion as written yields an empty vector |
| Ranges.ToVectorFixed | include/range.h:85-91 | the conversion with the direction-sensitive test yields exactly the iteration's values for every non-zero step |

## Left out

- Floating-point accumulation is not modelled. This covers `InnerProduct_StdAlg`,
  `InnerProduct_TR_Alg`, `Kahan_Sum`, both `InnerProduct_KahanAlg` overloads, the Kahan
  loops of both `InnerProduct_Sort_KahanAlg` overloads, and `std::accumulate`. Their point is
  IEEE rounding, and under exact arithmetic the Kahan correction is zero. They enter the
  model only as function parameters (`kahanSum`, `kahanDot`, `exactSum`, `accumulate`).
- The arbitrary-precision reference `PrecLongComp::InnerProduct_BNum` (ttmath) and the
  `ES::*` exact-sum routines are not modelled. They call libraries outside this repository.
  The exact `real` sums of `Vectors` stand for what they compute.
- Concurrency is not modelled: `std::async`, `future::get` and `std::execution::par`. The
  coordinator is modelled as a sequential loop that launches tasks in chunk order and then
  joins them in the same order.
- `rand()`, `srand(time(NULL))`, `mt19937`, `random_device` and `uniform_real_distribution`
  are replaced by an oracle of draws. `Fill_Numerical_Data_MersenneUniform` is left out; its
  only role in the model is to supply the vectors that `Duplicate` receives.
- The experiment driver, `src/Time.cpp` and `src/main.cpp` are left out. They hold console
  and file output, timing, and a demonstration program.
- The header declaring `str_double` is not part of this model. Its bit fields are taken to
  be the binary64 layout of IEEE 754-2008 section 3.4: mantissa bits 0-51, exponent bits
  52-62, sign bit 63.
- Generator.FloatOps: the double additions, subtractions and divisions of `Generate` are
  abstract. `Anderson` therefore states only which operations are applied, not their
  rounding.
- Generator.Sandbox.Generate: the fill, Anderson and shuffle loops are the helper methods
  `FillDraws`, `SubtractMean` and `Shuffle.ShuffleInPlace`. The fill requires the oracle to
  hold `num * DrawsPerRand(deltaExp)` draws. When the shuffle runs out of draws, the
  method returns `completed == false` instead of looping forever.
- Generator.FillNumericalDataNo: for `num_of_data == 0`, `&inVec[0]` on an empty vector
  is undefined behaviour in C++. The model treats it as a generator with no elements.
- Generator.Sandbox.constructor: `ret_saved` is uninitialised in C++. Here it starts at
  `Zero`. `RunIgnoresInitialSaved` shows that the outputs do not depend on the starting
  value.
- Generator.Duplicate: `multFactor * x` is modelled as exact multiplication. `-1.0 * x`
  is exact in binary64 anyway.
- MagnitudeSort.SortByMagnitude: `std::sort` leaves the order of elements with equal
  magnitude unspecified. The functions `SortByMagnitude`, `SortedProducts`,
  `SortThenAccumulate` and `ChunkCoordinator.SortKahanKernel` fix one order (insertion that
  is stable for equal magnitudes), so their results are those of that one order. The
  in-place methods `SortByMagnitudeInPlace`, `SortAndAccumulate`, `KahanSortAndSum`,
  `InnerProductKahanAlgPar` and `InnerProductSortKahanAlgPar` promise only some sorted
  permutation. Under floating-point Kahan summation the tie order could change the result;
  under exact summation it cannot (`Vectors.SumByPermutation`).
- ChunkCoordinator.InnerProductKahanAlgPar, InnerProductSortKahanAlgPar and
  InnerProduct908Par: with an empty vector, `&v[0]` (lines 652, 687 and 725) is undefined
  behaviour in C++. `InnerProduct908Par` would also fail `assert(kEnd > 0)`
  (include/range.h:46) through `range(my_thread_poool.size())` at line 745 when there are
  no chunks. The model treats this case as zero chunks and returns the combination of an
  empty `par_sum`.
- Integer widths in the generator and coordinators are not modelled. `int MAXNUM =
  inVec.size()` (lines 135 and 160), `MAXNUM*2` (line 160) and the `int s` chunk-length
  parameter of the kernel lambdas (lines 658, 693 and 731) are unbounded naturals here, so
  narrowing and overflow for more than `2^31 - 1` elements are not modelled.
- Default arguments are not modelled: every parameter is explicit. The defaults are
  `deltaExp = 10` (line 183), `multFactor = 1.0` (line 201), `kChunkSize = 10000`
  (lines 645, 679 and 717) and `step = 1` (include/range.h:34).
- Generator.FillNumericalDataNo, Generator.FilledData, Generator.PreparedExactZero and
  Generator.ExactZeroSumsToZero: the exact-zero sum is promised only for a spread
  `0 <= deltaExp <= 2047`. Outside that range the 11-bit exponent field of lines 106-109
  can truncate to all ones (`Binary64.ExponentOverrideWraps`). The draw is then an infinity
  or a NaN, and the pairs need not cancel.
- Ranges.Range: the element type `T` defaults to `size_t`. The model uses unbounded
  integers, so unsigned wrap-around and overflow are not modelled.
- Ranges.ToVector: the model requires `step > 0 || from >= end`. For a negative step that
  starts below `end`, the written loop never ends (`ToVectorNeverStops`).
- Ranges.RangeIter: the two conversion operators and `operator *` (include/range.h:57-59)
  only read the current value. The model reads the field `val` directly, as `Iterate` does.
- The commented-out sign checks of the `range` constructor (include/range.h:38-39) are not
  part of the code and are not modelled.

## Findings

| source | as written | input that shows it | evidently intended | confidence | as-written member | corrected member |
|---|---|---|---|---|---|---|
| include/range.h:88 | the vector conversion tests `i < kEnd` whatever the sign of the step | `range(3, 0, -1)` converts to an empty vector, although iterating it visits `3, 2, 1`; `range(0, 5, -1)` never ends | the direction-sensitive test of `operator !=`, so that conversion and iteration agree | not executed | Ranges.ToVector, Ranges.ToVectorDropsCountdown, Ranges.ToVectorNeverStops | Ranges.ToVectorFixed |
| src/InnerProductVerification.cpp:252 | `transform(v.begin(), v.end(), w.begin(), z.begin(), ...)` runs over all of `v`, into a buffer of `min(|v|, |w|)` slots | `v` of length 2 and `w` of length 1 reads `w[1]` and writes `z[1]` out of bounds | products over the common prefix only, as `z`'s size shows | not executed | MagnitudeSort.ProductsAsWritten, MagnitudeSort.ProductsAsWrittenOverruns | Vectors.Products |
