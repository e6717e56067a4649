# ParallelOMP summation, modelled in Dafny

The program generates ten million integers drawn uniformly from [-100, 100],
sums them once with `std::accumulate` (a sequential left fold from `0L`) and
once with an OpenMP `parallel for reduction(+ : r)` loop, and asserts that the
two results are equal.

This project models the `Summation` class of `main.cpp` and then proves that
assertion. The model has two modules:

- `Summation` (`summation.dfy`) holds the three operations and their proofs:
  - `Generate` fills a freshly zeroed buffer in a loop, one draw per index.
  - `Sum` is the left fold.
  - `SumParallel` is the reduction.
  - The lemmas relate the fold to every split of the index range.
- `Benchmark` (`benchmark.dfy`) holds what `main` computes before its
  assertion. It contains `THREADS = 8` and `N = 10,000,000`.

Threads are not modelled. The loop at main.cpp:61 has no `schedule` clause,
so OpenMP leaves the schedule to the implementation. The default static
schedule of common implementations, such as GCC and Clang, gives each worker
one contiguous chunk of the index range. `SumParallel` models that case. It
takes the split as a parameter `cuts`, with `0 = cuts[0] <= ... <= cuts[k] = n`.
Each slice `cuts[t] .. cuts[t + 1]` may be empty. Every slice is summed by the
loop body `r += array[i]` into a private total that starts at 0, and the
partial totals are then added into `r = 0`. The correctness theorem holds for
every such split.

Other schedules, such as `static` with a chunk size or `dynamic`, can give a
worker iterations that are not next to each other. `ScheduleEqualsFold`
covers all of them. It takes an arbitrary map `owner` from each index to one
of the workers, and proves that the workers' private totals add up to the
sequential fold. A separate lemma shows that the order of combining the
partials does not matter either.

C++ `int` is the subset type `Int32`. The model assumes a platform where
`long` is 64 bits wide (LP64, as on Linux and macOS), so `long` is `Int64`.
The accumulators in the methods are `Int64`, so every `+=` is checked to stay
in range. Signed overflow is undefined behaviour in C++, so staying in range
is something the callers must guarantee. It appears as the preconditions
`FitsLong` and `ReductionFits`. `GeneratedInputFits` proves they hold for
generated input of the benchmark's size, because every prefix sum has
magnitude at most `100 * n = 10^9`. That bound is below 2^31, so
`GeneratedSumFitsInt32` shows the serial fold does not overflow even where
`long` is only 32 bits wide (LLP64, as on Windows).

Both summations take their input as an immutable `seq`, which models the
`const std::vector<int>&` parameter: neither one can modify its input.
Calling one twice gives the same result because `Sum` is a function and
`SumParallel` ensures `r == Sum(a)` for every split. `PartitionIrrelevant`
states the same for two runs that split the range differently.

## Model

| member | source | states |
|---|---|---|
| `Summation.SumBounded` | main.cpp:55-57 | The fold `Sum` models `std::accumulate` from `0L`. When every element is in [-100, 100], its result lies in [-100·n, 100·n] for a vector of length n. |
| `Summation.SumEmptyAndSingleton` | main.cpp:56 | The fold of an empty vector is the identity 0. The fold of a one-element vector is that element. |
| `Summation.SumConcat` | main.cpp:56 | The fold of a concatenation is the sum of the folds of the parts. This is the fact that justifies the reduction. |
| `Summation.SumPermutation` | main.cpp:61 | Two sequences with the same multiset of values have the same sum. So the unspecified order in which OpenMP combines the partial sums cannot change the result. |
| `Summation.Partials` | main.cpp:61-64 | The workers' private copies of `r`: one partial sum per slice, so a chain of k + 1 cut points yields exactly k partials. Each partial is the fold from 0 over its slice. |
| `Summation.ReductionOverChain` | main.cpp:61-65 | For any non-decreasing chain of cut points, adding up the per-slice partial sums gives the fold over the whole range the chain covers. |
| `Summation.ReductionEqualsFold` | main.cpp:61-65 | For every split of [0, n) into contiguous slices, the sum of the per-slice partial sums equals the sequential fold of the vector. |
| `Summation.ScheduleEqualsFold` | main.cpp:61-65 | Under any schedule, the workers' private totals add up to the sequential fold `Sum(a)`. A schedule is any assignment of each index to one of the workers, including non-contiguous ones; each worker sums its own iterations from 0 in index order. |
| `Summation.PartitionIrrelevant` | main.cpp:59-66 | Take two different splits, and combine the partials of the second in any order. The result equals that of the first split. |
| `Summation.ReductionEmptyAndSingleton` | main.cpp:59-66 | For every split, the reduction of an empty vector is 0 and the reduction of a one-element vector is that element. |
| `Summation.Generate` | main.cpp:43-53 | Returns exactly n values, each in [-100, 100]. It fills a zeroed buffer of length n one index at a time. |
| `Summation.PrefixesBounded` | main.cpp:46 | If every element is in [-100, 100] and 100·n fits a `long` for a vector of length n, then no intermediate value of the fold overflows. |
| `Summation.GeneratedInputFits` | main.cpp:46-66 | Take input drawn from [-100, 100] with 100·n within `long` range, and any split. Then neither the serial fold nor any worker's partial sum nor the combining total overflows. |
| `Summation.SumSlice` | main.cpp:60-64 | The loop `r += array[i]` over [lo, hi), starting from 0 and using an `Int64` accumulator, returns the fold of that slice. After the iteration for index i the accumulator equals the fold of [lo, i]. With lo = 0 and hi = n this is how the loop runs on a single thread. The same fold over the partial totals is the combining step. |
| `Summation.SumParallel` | main.cpp:59-66 | Each slice is summed from 0 into a partial total, and the partials are then added, in order, into r = 0, all in `Int64`. The result equals the combined partial sums and also the sequential fold `Sum(a)`. |
| `Benchmark.RunCheck` | main.cpp:69-83 | Generates N = 10,000,000 values. For any split into THREADS = 8 contiguous chunks, the serial and parallel results both fit a `long` and are equal, which is the assertion on line 83. |
| `Benchmark.GeneratedSumFitsInt32` | main.cpp:12 | For N = 10,000,000 values in [-100, 100], every prefix of the serial fold lies within the 32-bit signed range. So the fold does not overflow even where `long` is 32 bits wide. |
| `Benchmark.ExampleScenario` | main.cpp:55-66 | For the vector [3, -1, 4, 1, -5], the fold returns 2, and so does the reduction under every split of its five indices. |

## Left out

- `Printer` (console output of a result and a duration): output only.
- `measureTime`: wall-clock time through `std::chrono` and a `double` duration. This is clock I/O and floating point.
- The random engine (`std::random_device`, `std::mt19937`, `uniform_int_distribution`): modelled only as an arbitrary choice of a value in [-100, 100]. Uniformity and the seed are not modelled.
- The OpenMP runtime: thread creation, `omp_set_num_threads`, and the synchronisation of the combine step.
  - `SumParallel` takes an arbitrary contiguous split and combines it sequentially. That is the default static schedule of common implementations.
  - A lemma shows that the combine order does not matter.
- Schedules that give a worker non-contiguous iterations (`static` with a chunk size, `dynamic`, `guided`) are covered only by the lemma `ScheduleEqualsFold`. No method runs them, and no-overflow is not shown for them.
- `Summation.GeneratedInputFits`: no-overflow is shown only for combining the partial sums in slice order. For a permuted combine order, `PartitionIrrelevant` proves the value equal but does not bound its intermediate totals.
- `Summation.Generate`: always succeeds. The allocation `std::vector<int> result(n)` can throw `std::bad_alloc` or `std::length_error` in the program, and that failure is not modelled.
- `Benchmark.GeneratedSumFitsInt32`: covers the serial fold only. The reduction's accumulators are modelled at 64 bits (LP64).
- `main`'s printing, and the abort that a failing `assert` would cause. Only the equality the assertion checks is kept, as the postcondition of `RunCheck`.
- `Sum`: modelled on unbounded integers. The `long` range of its accumulator is the separate predicate `FitsLong`, proved for generated input by `GeneratedInputFits`.
