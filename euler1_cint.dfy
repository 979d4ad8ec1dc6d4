/**
 * libgap/test/PE-001-cint.cpp: Project Euler problem 1 in plain C++
 * arithmetic. The sums are `unsigned long` (64-bit, wrapping) and the loop
 * counter of `solution1` is an `int`.
 */
module Euler1Cint {

  import opened Machine
  import opened Divisibility
  import opened Euler1

  /** `MAX` in `main`: the largest `N` the benchmark loop hands to both solutions. */
  const MAX: nat := 1_000_000_000

  /**
   * `solution1`: the brute-force filter-and-sum. The `int` counter is
   * incremented past `N - 1`, so it must not pass `INT_MAX`; in that range
   * the `unsigned long` sum cannot wrap.
   */
  method Solution1(N: u64) returns (sum: u64)
    requires N <= IntMax
    ensures sum == SumMultiples(N)
  {
    sum := 0;
    var i: int := 0;
    while i < N
      invariant 0 <= i <= N
      invariant sum == SumMultiples(i)
    {
      SumMultiplesBound(i + 1);
      assert (i + 1) * (i + 1) <= IntMax * IntMax by {
        MulBoth(i + 1, i + 1, IntMax, IntMax);
      }
      if i % 3 == 0 || i % 5 == 0 {
        sum := AddU(sum, i);
      }
      i := i + 1;
    }
  }

  /**
   * `sumOfSeries(start, end)` in `unsigned long`. The halving is done before
   * the final product, so as long as `start + end + 1` does not wrap the
   * result is the series reduced modulo 2^64.
   */
  function SumOfSeries(start: u64, end: u64): (r: u64)
    ensures start > end ==> r == 0
    ensures start <= end && start + end + 1 < U64 ==> r == SeriesSum(start, end) % U64
  {
    if start > end then 0
    else
      var diff := SubU(end, start);
      var r := if diff % 2 == 0 then MulU(AddU(diff, 1), DivU(AddU(start, end), 2))
               else MulU(DivU(AddU(diff, 1), 2), AddU(start, end));
      SumOfSeriesModular(start, end);
      r
  }

  lemma SumOfSeriesModular(start: u64, end: u64)
    requires start <= end
    ensures var diff := SubU(end, start);
      start + end + 1 < U64 ==>
        (if diff % 2 == 0 then MulU(AddU(diff, 1), DivU(AddU(start, end), 2))
         else MulU(DivU(AddU(diff, 1), 2), AddU(start, end))) == SeriesSum(start, end) % U64
  {
    if start + end + 1 < U64 {
      SeriesHalving(start, end);
    }
  }

  /** One term of `solution2`: the series `1 + ... + (N - 1) / k`. */
  function SeriesOfMultiples(N: u64, k: u64): u64
    requires k >= 3
  {
    SumOfSeries(1, DivU(SubU(N, 1), k))
  }

  /** `solution2`: the closed form, every step in wrapping `unsigned long`. */
  function Solution2(N: u64): u64 {
    SubU(AddU(MulU(3, SeriesOfMultiples(N, 3)), MulU(5, SeriesOfMultiples(N, 5))),
         MulU(15, SeriesOfMultiples(N, 15)))
  }

  lemma SeriesTermModular(N: u64, k: u64)
    requires k >= 3
    ensures var n: nat := if N == 0 then U64 else N;
      SeriesOfMultiples(N, k) == SeriesSum(1, (n - 1) / k) % U64
  {
    var n: nat := if N == 0 then U64 else N;
    assert SubU(N, 1) == n - 1;
    QuotientBelowHalf(n - 1, k);
    var e := DivU(n - 1, k);
    if e == 0 {
      assert SeriesSum(1, 0) == 0;
    }
  }

  /**
   * `solution2` equals the brute-force sum modulo 2^64: wrapping arithmetic
   * is a ring homomorphism, so the closed form survives the reduction. For
   * `N == 0` the decrement `N - 1` wraps, and the result is the sum below
   * 2^64 instead of 0.
   */
  lemma Solution2Modular(N: u64)
    ensures N >= 1 ==> Solution2(N) == SumMultiples(N) % U64
    ensures N == 0 ==> Solution2(N) == SumMultiples(U64) % U64
  {
    if N == 0 {
      ClosedFormModular(N, U64);
    } else {
      ClosedFormModular(N, N);
    }
  }

  lemma ClosedFormModular(N: u64, n: nat)
    requires n == if N == 0 then U64 else N
    ensures Solution2(N) == SumMultiples(n) % U64
  {
    SeriesTermModular(N, 3);
    SeriesTermModular(N, 5);
    SeriesTermModular(N, 15);
    ClosedFormCorrect(n);
    CombinationModular(SeriesOfMultiples(N, 3), SeriesOfMultiples(N, 5), SeriesOfMultiples(N, 15),
      SeriesSum(1, (n - 1) / 3), SeriesSum(1, (n - 1) / 5), SeriesSum(1, (n - 1) / 15), SumMultiples(n));
  }

  /** `3 * a + 5 * b - 15 * c` in wrapping arithmetic is the exact combination modulo 2^64. */
  lemma CombinationModular(a: u64, b: u64, c: u64, x: int, y: int, z: int, total: int)
    requires a == x % U64 && b == y % U64 && c == z % U64 && total == 3 * x + 5 * y - 15 * z
    ensures SubU(AddU(MulU(3, a), MulU(5, b)), MulU(15, c)) == total % U64
  {
    MulUMod(3, a, 3, x);
    MulUMod(5, b, 5, y);
    MulUMod(15, c, 15, z);
    AddUMod(MulU(3, a), MulU(5, b), 3 * x, 5 * y);
    SubUMod(AddU(MulU(3, a), MulU(5, b)), MulU(15, c), 3 * x + 5 * y, 15 * z);
  }

  /** Below `MAX` each series term is exact and its multiple stays below `N * N`. */
  lemma SeriesTermSmall(N: u64, k: u64)
    requires 1 <= N <= MAX && k >= 3
    ensures SeriesOfMultiples(N, k) == SeriesSum(1, (N - 1) / k)
    ensures (k as int) * SeriesOfMultiples(N, k) == SumMultiplesOf(k, N) <= (N as int) * N
  {
    var e := (N - 1) / k;
    SeriesTermBounds(N, k);
    assert SubU(N, 1) == N - 1;
    assert DivU(N - 1, k) == e;
    SmallSeries(e, SeriesSum(1, e));
  }

  lemma SeriesTermBounds(N: nat, k: nat)
    requires 1 <= N <= MAX && k >= 3
    ensures (N - 1) / k + 2 < U64
    ensures 0 <= SeriesSum(1, (N - 1) / k) < U64
    ensures k * SeriesSum(1, (N - 1) / k) == SumMultiplesOf(k, N) <= N * N
  {
    var e := (N - 1) / k;
    var x := SeriesSum(1, e);
    MultiplesAsSeries(k, N);
    SumMultiplesOfBound(k, N);
    SeriesSumBounds(1, e);
    NBelowMax(N);
    if x > 0 {
      MulAtLeast(k, x);
    }
    QuotientAtMost(N - 1, k);
  }

  lemma QuotientAtMost(a: nat, k: nat)
    requires k >= 1
    ensures a / k <= a
  {
    var e := a / k;
    assert e * k <= a;
    if e > 0 {
      MulAtLeast(k, e);
    }
  }

  lemma SmallSeries(e: u64, x: int)
    requires x == SeriesSum(1, e) < U64 && e + 2 < U64
    ensures SumOfSeries(1, e) == x
  {
    SeriesSumBounds(1, e);
  }

  lemma NBelowMax(N: nat)
    requires N <= MAX
    ensures N * N < U64
  {
    MulBoth(N, N, MAX, MAX);
  }

  /** Below `MAX` the whole computation of `solution2` is exact. */
  lemma Solution2Exact(N: u64)
    requires 1 <= N <= MAX
    ensures Solution2(N) == SumMultiples(N)
  {
    Solution2Modular(N);
    SumMultiplesBelowWord(N);
  }

  lemma SumMultiplesBelowWord(N: nat)
    requires N <= MAX
    ensures SumMultiples(N) < U64 && SumMultiples(N) % U64 == SumMultiples(N)
  {
    SumMultiplesBound(N);
    NBelowMax(N);
  }

  /**
   * Below `MAX` the final subtraction of `solution2` does not wrap: the
   * multiples of 15 are among the multiples of 3.
   */
  lemma SubtractionNoWrap(N: u64)
    requires 1 <= N <= MAX
    ensures MulU(15, SeriesOfMultiples(N, 15)) <= AddU(MulU(3, SeriesOfMultiples(N, 3)), MulU(5, SeriesOfMultiples(N, 5)))
  {
    var a, b, c := SeriesOfMultiples(N, 3), SeriesOfMultiples(N, 5), SeriesOfMultiples(N, 15);
    SeriesTermSmall(N, 3);
    SeriesTermSmall(N, 5);
    SeriesTermSmall(N, 15);
    FifteenBelowThree(N);
    TermsBelowWord(N, a, b, c);
  }

  lemma TermsBelowWord(N: nat, a: u64, b: u64, c: u64)
    requires N <= MAX
    requires 3 * a == SumMultiplesOf(3, N) <= N * N
    requires 5 * b == SumMultiplesOf(5, N) <= N * N
    requires 15 * c == SumMultiplesOf(15, N) <= 3 * a
    ensures MulU(15, c) <= AddU(MulU(3, a), MulU(5, b))
  {
    NBelowMax(N);
    assert 3 * a + 5 * b < U64;
  }

  /**
   * The range `main` uses: for `10 <= max <= MAX` the counter of
   * `solution1` stays below `INT_MAX`, `max - 1` does not wrap and both
   * solutions compute the sum of the multiples.
   */
  lemma MainRange(max: u64)
    requires 10 <= max <= MAX
    ensures max <= IntMax && SubU(max, 1) == max - 1
    ensures Solution2(max) == SumMultiples(max)
  {
    Solution2Exact(max);
  }
}
