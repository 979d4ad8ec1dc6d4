/**
 * libgap/test/PE-001-01-gap-vars.cpp: Project Euler problem 1 with the sums
 * kept in `Gap::Int` and the loop index and series bounds in
 * `unsigned long`. Every `unsigned long` that meets a `Gap::Int` goes through
 * the `GAP_Int8` constructor, which is written out as `ToInt64`.
 */
module Euler1Gap {

  import opened Machine
  import opened Euler1
  import GapInt

  /**
   * `solution1`: adds every `i < N` that is a multiple of 3 or 5 to a
   * `Gap::Int` accumulator. Up to 2^63 every index converts to itself.
   */
  method Solution1(N: u64) returns (sum: int)
    ensures N <= I64Bound ==> sum == SumMultiples(N)
  {
    var acc := new GapInt.Int(0);
    var i: u64 := 0;
    while i < N
      invariant i <= N
      invariant i <= I64Bound ==> acc.value == SumMultiples(i)
    {
      if i % 3 == 0 || i % 5 == 0 {
        var term := new GapInt.Int(ToInt64(i));
        acc.AddAssign(term);
      }
      i := i + 1;
    }
    sum := acc.value;
  }

  /**
   * `sumOfSeries(start, end)`: the `unsigned long` difference and sum of
   * the bounds become `Gap::Int` values; parity and halving are the
   * kernel's `%` and `/`.
   */
  function SumOfSeries(start: u64, end: u64): (r: int)
    ensures start > end ==> r == 0
    ensures start <= end && start + end < I64Bound ==> r == SeriesSum(start, end)
  {
    if start > end then 0
    else
      var diff := ToInt64(SubU(end, start));
      var s := AddU(start, end);
      var r := if GapInt.TruncRem(diff, 2) == 0 then (diff + 1) * ToInt64(DivU(s, 2))
               else GapInt.TruncQuo(diff + 1, 2) * ToInt64(s);
      SumOfSeriesExact(start, end);
      r
  }

  lemma SumOfSeriesExact(start: u64, end: u64)
    requires start <= end
    ensures var diff := ToInt64(SubU(end, start));
      var s := AddU(start, end);
      start + end < I64Bound ==>
        (if GapInt.TruncRem(diff, 2) == 0 then (diff + 1) * ToInt64(DivU(s, 2))
         else GapInt.TruncQuo(diff + 1, 2) * ToInt64(s)) == SeriesSum(start, end)
  {
    if start + end < I64Bound {
      var diff := end - start;
      GapInt.TruncMatchesEuclid(diff, 2);
      GapInt.TruncMatchesEuclid(diff + 1, 2);
      SeriesHalving(start, end);
    }
  }

  /** One term of `solution2`: the series `1 + ... + (N - 1) / k` in `Gap::Int`. */
  function SeriesOfMultiples(N: u64, k: u64): int
    requires k >= 3
  {
    SumOfSeries(1, DivU(SubU(N, 1), k))
  }

  /**
   * `solution2`: inclusion–exclusion over multiples of 3, 5 and 15. For
   * `N >= 1` it is the sum of the multiples of 3 or 5 below `N`; for `N == 0`
   * the `unsigned long` decrement wraps and the result is the sum below 2^64
   * instead of 0.
   */
  function Solution2(N: u64): (r: int)
    ensures N >= 1 ==> r == SumMultiples(N)
    ensures N == 0 ==> r == SumMultiples(U64)
  {
    var n: nat := if N == 0 then U64 else N;
    SeriesTermExact(N, 3);
    SeriesTermExact(N, 5);
    SeriesTermExact(N, 15);
    ClosedFormCorrect(n);
    3 * SeriesOfMultiples(N, 3) + 5 * SeriesOfMultiples(N, 5) - 15 * SeriesOfMultiples(N, 15)
  }

  lemma SeriesTermExact(N: u64, k: u64)
    requires k >= 3
    ensures var n: nat := if N == 0 then U64 else N;
      SeriesOfMultiples(N, k) == SeriesSum(1, (n - 1) / k)
  {
    var n: nat := if N == 0 then U64 else N;
    assert SubU(N, 1) == n - 1;
    var e := DivU(n - 1, k);
    QuotientBelowHalf(n - 1, k);
    SeriesOfSmallBounds(e);
  }

  lemma SeriesOfSmallBounds(e: u64)
    requires 1 + e < I64Bound
    ensures SumOfSeries(1, e) == SeriesSum(1, e)
  {
    if e == 0 {
      assert SeriesSum(1, 0) == 0;
    }
  }

  /** The problem statement's example, for both solutions' reference: 23 below 10. */
  lemma Solution2BelowTen()
    ensures Solution2(10) == 23
  {
    SumMultiplesBelowTen();
  }

  /** `main` multiplies `max` by 10 from 10 while it stays at or below this bound. */
  const MAX: nat := 1_000_000_000

  /**
   * Every bound `main` passes keeps the next `max *= 10` free of
   * wrap-around, lies within the range where `solution1` is exact, and gives
   * the exact sum from `solution2`.
   */
  lemma MainRange(max: u64)
    requires 10 <= max <= MAX
    ensures max * 10 < U64
    ensures max <= I64Bound
    ensures Solution2(max) == SumMultiples(max)
  {
  }

  /** The two sums `main` computes for one bound agree with the reference sum. */
  method HarnessRow(max: u64) returns (sum1: int, sum2: int)
    requires 10 <= max <= MAX
    ensures sum1 == sum2 == SumMultiples(max)
  {
    MainRange(max);
    sum1 := Solution1(max);
    sum2 := Solution2(max);
  }
}
