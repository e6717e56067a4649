/** The benchmark's entry point, reduced to what it checks: the input is
    generated once, summed sequentially and with the reduction, and the two
    results must agree. Timing, printing and the thread-pool set-up are not
    part of this model; the split of the index range among the threads is a
    parameter, since the OpenMP runtime chooses it. */
module Benchmark {
  import opened Summation

  /** Number of worker threads requested from the OpenMP runtime. */
  const THREADS: nat := 8
  /** Number of generated samples. */
  const N: nat := 10_000_000

  /** What `main` computes before its assertion: the serial and the parallel
      result over one generated vector, with the runtime splitting the index
      range into one contiguous chunk per thread. The two agree, and neither
      computation overflows its `long` accumulator. */
  method RunCheck(cuts: seq<nat>) returns (resultSerial: Int64, resultParallel: Int64)
    requires |cuts| == THREADS + 1
    requires IsPartition(cuts, N)
    ensures resultSerial == resultParallel
  {
    var vec := Generate(N);
    GeneratedInputFits(vec, cuts);
    assert vec[..|vec|] == vec;
    resultSerial := Sum(vec);
    resultParallel := SumParallel(vec, cuts);
  }

  /** On a platform where `long` is only 32 bits wide, the serial fold over
      the benchmark's input still never overflows: 100 * N = 10^9 < 2^31. */
  lemma GeneratedSumFitsInt32(a: seq<int>)
    requires InDistRange(a) && |a| == N
    ensures forall k :: 0 <= k <= |a| ==> INT32_MIN <= Sum(a[..k]) <= INT32_MAX
  {
    forall k | 0 <= k <= |a|
      ensures INT32_MIN <= Sum(a[..k]) <= INT32_MAX
    {
      SumBounded(a[..k]);
    }
  }

  /** The scenario [3, -1, 4, 1, -5]: the fold returns 2, and so does the
      reduction for every split of its five indices. */
  lemma ExampleScenario(cuts: seq<nat>)
    requires IsPartition(cuts, 5)
    ensures Sum([3, -1, 4, 1, -5]) == 2
    ensures Sum(Partials([3, -1, 4, 1, -5], cuts)) == 2
  {
    var s := [3, -1, 4, 1, -5];
    assert s[..0] == [];
    SumSliceStep(s, 0, 0);
    SumSliceStep(s, 0, 1);
    SumSliceStep(s, 0, 2);
    SumSliceStep(s, 0, 3);
    SumSliceStep(s, 0, 4);
    assert s[0..5] == s;
    ReductionEqualsFold([3, -1, 4, 1, -5], cuts);
  }
}
