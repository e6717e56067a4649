/** The `Summation` class of the benchmark: a generator of bounded random
    samples, a sequential left fold and the OpenMP reduction.

    C++ `int` is 32 bits; `long` (the accumulator type) is taken to be 64
    bits, as on LP64 platforms. Signed
    overflow is undefined behaviour in C++, so the methods below keep their
    accumulators in `Int64` and require of their callers that no intermediate
    value leaves that range; `GeneratedInputFits` shows that generated input
    of the benchmark's size always meets this. */
module Summation {

  const INT32_MIN: int := -0x8000_0000
  const INT32_MAX: int := 0x7fff_ffff
  const INT64_MIN: int := -0x8000_0000_0000_0000
  const INT64_MAX: int := 0x7fff_ffff_ffff_ffff

  /** Bounds of the generator's uniform distribution. */
  const DIST_MIN: int := -100
  const DIST_MAX: int := 100

  type Int32 = x: int | INT32_MIN <= x <= INT32_MAX
  type Int64 = x: int | INT64_MIN <= x <= INT64_MAX

  predicate IsLong(x: int) {
    INT64_MIN <= x <= INT64_MAX
  }

  /** Every element lies in the generator's range [-100, 100]. */
  predicate InDistRange(s: seq<int>) {
    forall i :: 0 <= i < |s| ==> DIST_MIN <= s[i] <= DIST_MAX
  }

  // ---------------------------------------------------------------------
  // Sequential fold: Summation::sum
  // ---------------------------------------------------------------------

  /** `std::accumulate(begin, end, 0L)`: the left fold ((0 + s[0]) + s[1]) + ... */
  function Sum(s: seq<int>): int
    decreases |s|
  {
    if |s| == 0 then 0 else Sum(s[..|s| - 1]) + s[|s| - 1]
  }

  /** The magnitude bound the benchmark relies on: with every element in
      [-100, 100] the sum lies within 100 times the length. */
  lemma {:induction false} SumBounded(s: seq<int>)
    requires InDistRange(s)
    ensures DIST_MIN * |s| <= Sum(s) <= DIST_MAX * |s|
    decreases |s|
  {
    if |s| > 0 {
      SumBounded(s[..|s| - 1]);
    }
  }

  /** Every intermediate value of a left fold over `s` from 0 fits a `long`:
      the accumulator never overflows. */
  predicate FitsLong(s: seq<int>) {
    forall k :: 0 <= k <= |s| ==> IsLong(Sum(s[..k]))
  }

  /** Extending by one element adds that element: one step of the fold. */
  lemma SumSnoc(s: seq<int>, x: int)
    ensures Sum(s + [x]) == Sum(s) + x
  {
  }

  /** The sum of a concatenation is the sum of the sums: the fact that makes
      a reduction over slices agree with the fold. */
  lemma {:induction false} SumConcat(s: seq<int>, t: seq<int>)
    ensures Sum(s + t) == Sum(s) + Sum(t)
    decreases |t|
  {
    if |t| == 0 {
      assert s + t == s;
    } else {
      var t' := t[..|t| - 1];
      var x := t[|t| - 1];
      assert t == t' + [x];
      assert s + t == (s + t') + [x];
      SumSnoc(s + t', x);
      SumConcat(s, t');
      SumSnoc(t', x);
    }
  }

  /** One step of the loop `r += array[i]` over the slice [lo, i). */
  lemma {:induction false} SumSliceStep(s: seq<int>, lo: nat, i: nat)
    requires lo <= i < |s|
    ensures Sum(s[lo..i + 1]) == Sum(s[lo..i]) + s[i]
  {
    assert s[lo..i + 1] == s[lo..i] + [s[i]];
    SumSnoc(s[lo..i], s[i]);
  }

  /** Boundary cases of the fold: the identity 0L for no elements, and the
      element itself for one. */
  lemma SumEmptyAndSingleton(s: seq<int>)
    ensures |s| == 0 ==> Sum(s) == 0
    ensures |s| == 1 ==> Sum(s) == s[0]
  {
  }

  /** Taking out the element at index j removes exactly that element from
      the sum. */
  lemma {:induction false} SumRemove(q: seq<int>, j: nat)
    requires j < |q|
    ensures Sum(q) == Sum(q[..j] + q[j + 1..]) + q[j]
  {
    var before, after := q[..j], q[j + 1..];
    assert q == q[..j + 1] + after;
    SumConcat(q[..j + 1], after);
    assert q[..j + 1] == before + [q[j]];
    SumSnoc(before, q[j]);
    SumConcat(before, after);
  }

  /** Taking out the element at index j removes one occurrence of it from
      the multiset. */
  lemma {:induction false} MultisetRemove(q: seq<int>, j: nat)
    requires j < |q|
    ensures multiset(q[..j] + q[j + 1..]) == multiset(q) - multiset{q[j]}
  {
    var before, after := q[..j], q[j + 1..];
    assert q == before + [q[j]] + after;
    assert multiset(q) == multiset(before) + multiset{q[j]} + multiset(after);
  }

  /** The sum depends on the multiset of elements only: any reordering of the
      additions yields the same value. */
  lemma {:induction false} SumPermutation(p: seq<int>, q: seq<int>)
    requires multiset(p) == multiset(q)
    ensures Sum(p) == Sum(q)
    decreases |p|
  {
    if |p| == 0 {
      assert |q| == |multiset(q)| == 0;
    } else {
      var x := p[|p| - 1];
      var p' := p[..|p| - 1];
      assert p == p' + [x];
      assert multiset(p') == multiset(p) - multiset{x};
      assert x in multiset(q);
      var j :| 0 <= j < |q| && q[j] == x;
      MultisetRemove(q, j);
      SumPermutation(p', q[..j] + q[j + 1..]);
      SumSnoc(p', x);
      SumRemove(q, j);
    }
  }

  // ---------------------------------------------------------------------
  // Partitions of the index range, and the partial sums over them
  // ---------------------------------------------------------------------

  /** `cuts` is a non-decreasing chain of positions in [0, n]; consecutive
      positions bound one contiguous slice (possibly empty). */
  predicate IsChain(cuts: seq<nat>, n: nat) {
    (forall i, j :: 0 <= i <= j < |cuts| ==> cuts[i] <= cuts[j]) &&
    (forall i :: 0 <= i < |cuts| ==> cuts[i] <= n)
  }

  /** A split of [0, n) into |cuts| - 1 contiguous slices, in index order:
      cuts[t] .. cuts[t + 1] is the range of worker t. */
  predicate IsPartition(cuts: seq<nat>, n: nat) {
    |cuts| >= 1 && cuts[0] == 0 && cuts[|cuts| - 1] == n && IsChain(cuts, n)
  }

  lemma ChainPrefix(cuts: seq<nat>, n: nat, k: nat)
    requires IsChain(cuts, n) && k <= |cuts|
    ensures IsChain(cuts[..k], n)
  {
  }

  /** The partial sums: one per slice, each a fold from 0 over its slice. */
  function Partials(a: seq<int>, cuts: seq<nat>): (ps: seq<int>)
    requires IsChain(cuts, |a|)
    ensures |ps| == if |cuts| == 0 then 0 else |cuts| - 1
    decreases |cuts|
  {
    if |cuts| <= 1 then []
    else
      ChainPrefix(cuts, |a|, |cuts| - 1);
      Partials(a, cuts[..|cuts| - 1]) + [Sum(a[cuts[|cuts| - 2]..cuts[|cuts| - 1]])]
  }

  /** The partial sums of the first k slices are the first k partial sums. */
  lemma {:induction false} PartialsPrefix(a: seq<int>, cuts: seq<nat>, k: nat)
    requires IsChain(cuts, |a|) && 1 <= k <= |cuts|
    ensures IsChain(cuts[..k], |a|)
    ensures Partials(a, cuts)[..k - 1] == Partials(a, cuts[..k])
    decreases |cuts|
  {
    ChainPrefix(cuts, |a|, k);
    if k < |cuts| {
      var init := cuts[..|cuts| - 1];
      ChainPrefix(cuts, |a|, |cuts| - 1);
      assert init[..k] == cuts[..k];
      PartialsPrefix(a, init, k);
      assert Partials(a, cuts) == Partials(a, init) + [Sum(a[cuts[|cuts| - 2]..cuts[|cuts| - 1]])];
      assert Partials(a, cuts)[..k - 1] == Partials(a, init)[..k - 1];
    } else {
      assert cuts[..k] == cuts;
    }
  }

  /** Combining the partial sums of a chain gives the fold over the whole
      range it covers. */
  lemma {:induction false} ReductionOverChain(a: seq<int>, cuts: seq<nat>)
    requires IsChain(cuts, |a|) && |cuts| >= 1
    ensures Sum(Partials(a, cuts)) == Sum(a[cuts[0]..cuts[|cuts| - 1]])
    decreases |cuts|
  {
    if |cuts| == 1 {
      assert a[cuts[0]..cuts[0]] == [];
    } else {
      var init := cuts[..|cuts| - 1];
      ChainPrefix(cuts, |a|, |cuts| - 1);
      ReductionOverChain(a, init);
      var lo, mid, hi := cuts[0], cuts[|cuts| - 2], cuts[|cuts| - 1];
      assert init[0] == lo && init[|init| - 1] == mid;
      assert Partials(a, cuts) == Partials(a, init) + [Sum(a[mid..hi])];
      SumSnoc(Partials(a, init), Sum(a[mid..hi]));
      assert a[lo..hi] == a[lo..mid] + a[mid..hi];
      SumConcat(a[lo..mid], a[mid..hi]);
    }
  }

  /** The reduction semantics of `reduction(+ : r)`: for EVERY split of the
      index range into contiguous slices, combining the per-slice partial sums
      from r = 0 gives exactly the sequential fold. */
  lemma ReductionEqualsFold(a: seq<int>, cuts: seq<nat>)
    requires IsPartition(cuts, |a|)
    ensures Sum(Partials(a, cuts)) == Sum(a)
  {
    ReductionOverChain(a, cuts);
    assert a[0..|a|] == a;
  }

  /** The result does not depend on how the runtime splits the range, nor on
      the order in which the partial sums are combined. */
  lemma PartitionIrrelevant(a: seq<int>, cuts1: seq<nat>, cuts2: seq<nat>, order: seq<int>)
    requires IsPartition(cuts1, |a|) && IsPartition(cuts2, |a|)
    requires multiset(order) == multiset(Partials(a, cuts2))
    ensures Sum(Partials(a, cuts1)) == Sum(order)
  {
    ReductionEqualsFold(a, cuts1);
    ReductionEqualsFold(a, cuts2);
    SumPermutation(order, Partials(a, cuts2));
  }

  /** Boundary cases of the reduction: 0 for the empty array and the element
      itself for a one-element array, whatever the split. */
  lemma ReductionEmptyAndSingleton(a: seq<int>, cuts: seq<nat>)
    requires IsPartition(cuts, |a|)
    ensures |a| == 0 ==> Sum(Partials(a, cuts)) == 0
    ensures |a| == 1 ==> Sum(Partials(a, cuts)) == a[0]
  {
    ReductionEqualsFold(a, cuts);
    SumEmptyAndSingleton(a);
  }

  /** No accumulator of the reduction overflows: neither a worker's private
      partial sum nor the combining total. */
  predicate ReductionFits(a: seq<int>, cuts: seq<nat>)
    requires IsChain(cuts, |a|)
  {
    (forall t :: 0 <= t < |cuts| - 1 ==> FitsLong(a[cuts[t]..cuts[t + 1]])) &&
    FitsLong(Partials(a, cuts))
  }

  // ---------------------------------------------------------------------
  // Arbitrary schedules
  // ---------------------------------------------------------------------

  /** The iterations a schedule hands to worker t, as that worker adds them:
      the elements a[i] with owner[i] == t, in index order. A static schedule
      with a chunk size, or a dynamic one, can give a worker several chunks
      that are not next to each other. */
  function Owned(a: seq<int>, owner: seq<nat>, t: nat): seq<int>
    requires |owner| == |a|
    decreases |a|
  {
    if |a| == 0 then []
    else
      Owned(a[..|a| - 1], owner[..|a| - 1], t) +
      (if owner[|a| - 1] == t then [a[|a| - 1]] else [])
  }

  /** The private totals of the workers 0 .. threads - 1 under `owner`. */
  function WorkerSums(a: seq<int>, owner: seq<nat>, threads: nat): seq<int>
    requires |owner| == |a|
  {
    seq(threads, (t: nat) => Sum(Owned(a, owner, t)))
  }

  /** A sequence of zeroes sums to zero. */
  lemma {:induction false} SumZeroes(ps: seq<int>)
    requires forall i :: 0 <= i < |ps| ==> ps[i] == 0
    ensures Sum(ps) == 0
    decreases |ps|
  {
    if |ps| > 0 {
      SumZeroes(ps[..|ps| - 1]);
    }
  }

  /** Adding x to one entry adds x to the sum. */
  lemma {:induction false} SumBump(ps: seq<int>, j: nat, x: int)
    requires j < |ps|
    ensures Sum(ps[j := ps[j] + x]) == Sum(ps) + x
  {
    var qs := ps[j := ps[j] + x];
    assert qs[..j] + qs[j + 1..] == ps[..j] + ps[j + 1..];
    SumRemove(ps, j);
    SumRemove(qs, j);
  }

  /** The last iteration changes only its own worker's total, by its value. */
  lemma {:induction false} OwnedStep(a: seq<int>, owner: seq<nat>, t: nat)
    requires |owner| == |a| > 0
    ensures var n := |a| - 1;
      Sum(Owned(a, owner, t)) ==
        Sum(Owned(a[..n], owner[..n], t)) + (if owner[n] == t then a[n] else 0)
  {
    var n := |a| - 1;
    var before := Owned(a[..n], owner[..n], t);
    if owner[n] == t {
      SumSnoc(before, a[n]);
    } else {
      assert Owned(a, owner, t) == before + [] == before;
    }
  }

  /** The last iteration adds its value to its own worker's total and leaves
      the other workers' totals alone. */
  lemma {:induction false} WorkerSumsStep(a: seq<int>, owner: seq<nat>, threads: nat)
    requires |owner| == |a| > 0 && owner[|a| - 1] < threads
    ensures var n := |a| - 1;
      var ws := WorkerSums(a[..n], owner[..n], threads);
      WorkerSums(a, owner, threads) == ws[owner[n] := ws[owner[n]] + a[n]]
  {
    var n := |a| - 1;
    var ws, ws' := WorkerSums(a, owner, threads), WorkerSums(a[..n], owner[..n], threads);
    forall t | 0 <= t < threads
      ensures ws[t] == (if t == owner[n] then ws'[t] + a[n] else ws'[t])
    {
      OwnedStep(a, owner, t);
    }
  }

  /** The reduction under ANY schedule: whichever worker each iteration is
      given to, as long as every iteration goes to exactly one of the
      workers, adding up the workers' private totals gives the sequential
      fold. */
  lemma {:induction false} ScheduleEqualsFold(a: seq<int>, owner: seq<nat>, threads: nat)
    requires |owner| == |a|
    requires forall i :: 0 <= i < |a| ==> owner[i] < threads
    ensures Sum(WorkerSums(a, owner, threads)) == Sum(a)
    decreases |a|
  {
    if |a| == 0 {
      SumZeroes(WorkerSums(a, owner, threads));
    } else {
      var n := |a| - 1;
      var ws' := WorkerSums(a[..n], owner[..n], threads);
      ScheduleEqualsFold(a[..n], owner[..n], threads);
      WorkerSumsStep(a, owner, threads);
      SumBump(ws', owner[n], a[n]);
      assert Sum(WorkerSums(a, owner, threads)) == Sum(ws') + a[n];
      assert Sum(a) == Sum(a[..n]) + a[n];
    }
  }

  // ---------------------------------------------------------------------
  // Summation::generate
  // ---------------------------------------------------------------------

  /** `generate(n)`: a vector of n zeroes, each then replaced by a draw from
      the uniform distribution on [-100, 100]. The draw is an arbitrary value
      in that range. */
  method Generate(n: nat) returns (result: seq<Int32>)
    ensures |result| == n
    ensures InDistRange(result)
  {
    var buf := new Int32[n];
    for i := 0 to n
      invariant forall j :: 0 <= j < i ==> DIST_MIN <= buf[j] <= DIST_MAX
    {
      var v: Int32 :| DIST_MIN <= v <= DIST_MAX;
      buf[i] := v;
    }
    result := buf[..];
  }

  // ---------------------------------------------------------------------
  // Overflow freedom for generated input
  // ---------------------------------------------------------------------

  /** With every element in [-100, 100], every prefix fold stays within
      100 * |s| in magnitude. */
  lemma PrefixesBounded(s: seq<int>)
    requires InDistRange(s) && DIST_MAX * |s| <= INT64_MAX
    ensures FitsLong(s)
  {
    forall k | 0 <= k <= |s|
      ensures IsLong(Sum(s[..k]))
    {
      SumBounded(s[..k]);
    }
  }

  /** For input drawn from [-100, 100] of at most n elements with 100 * n
      within `long` range, no accumulator of either summation overflows,
      whatever the split of the reduction. */
  lemma {:induction false} GeneratedInputFits(a: seq<int>, cuts: seq<nat>)
    requires InDistRange(a) && DIST_MAX * |a| <= INT64_MAX
    requires IsPartition(cuts, |a|)
    ensures FitsLong(a)
    ensures ReductionFits(a, cuts)
  {
    PrefixesBounded(a);
    forall t | 0 <= t < |cuts| - 1
      ensures FitsLong(a[cuts[t]..cuts[t + 1]])
    {
      var slice := a[cuts[t]..cuts[t + 1]];
      assert InDistRange(slice) && |slice| <= |a|;
      PrefixesBounded(slice);
    }
    var ps := Partials(a, cuts);
    forall k | 0 <= k <= |ps|
      ensures IsLong(Sum(ps[..k]))
    {
      PartialsPrefix(a, cuts, k + 1);
      ReductionOverChain(a, cuts[..k + 1]);
      var prefix := a[0..cuts[k]];
      assert InDistRange(prefix) && |prefix| <= |a|;
      SumBounded(prefix);
    }
  }

  // ---------------------------------------------------------------------
  // Summation::sum_parallel
  // ---------------------------------------------------------------------

  /** The body of the parallel loop run by one worker over [lo, hi): a private
      accumulator that starts at 0 and adds `array[i]` for each i in order.
      With lo = 0 and hi = |a| this is the loop as a single thread runs it;
      the combining step of the reduction is the same fold over the partial
      totals. */
  method SumSlice(a: seq<int>, lo: nat, hi: nat) returns (p: Int64)
    requires lo <= hi <= |a|
    requires FitsLong(a[lo..hi])
    ensures p == Sum(a[lo..hi])
  {
    p := 0;
    for i := lo to hi
      invariant p == Sum(a[lo..i])
    {
      SumSliceStep(a, lo, i);
      assert a[lo..i + 1] == a[lo..hi][..i + 1 - lo];
      p := p + a[i];
    }
  }

  /** `sum_parallel`: every worker t sums its slice cuts[t] .. cuts[t + 1]
      from 0 into a partial total, and the partials are then added into
      r = 0. The result is the sequential fold whatever the split. */
  method SumParallel(a: seq<Int32>, cuts: seq<nat>) returns (r: Int64)
    requires IsPartition(cuts, |a|)
    requires ReductionFits(a, cuts)
    ensures r == Sum(Partials(a, cuts))
    ensures r == Sum(a)
  {
    // the workers' partial sums
    var partials: seq<Int64> := [];
    for t := 0 to |cuts| - 1
      invariant IsChain(cuts[..t + 1], |a|)
      invariant partials == Partials(a, cuts[..t + 1])
    {
      var p := SumSlice(a, cuts[t], cuts[t + 1]);
      ChainPrefix(cuts, |a|, t + 2);
      assert cuts[..t + 2][..t + 1] == cuts[..t + 1];
      partials := partials + [p];
    }
    assert cuts[..|cuts|] == cuts;
    // the combining step: the same fold, over the partial totals
    assert partials[0..|partials|] == partials;
    r := SumSlice(partials, 0, |partials|);
    ReductionEqualsFold(a, cuts);
  }
}
