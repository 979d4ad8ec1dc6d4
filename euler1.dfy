/**
 * Project Euler problem 1, the sum of the multiples of 3 or 5 below `N`,
 * as the three test programs under libgap/test compute it: a brute-force
 * filter-and-sum loop (`solution1`) and an inclusion–exclusion closed form
 * over arithmetic series (`sumOfSeries`, `solution2`).
 *
 * This module holds the reference definitions the three programs are proved
 * against; the programs themselves are in `Euler1Gap`, `Euler1Cint` and
 * `Euler1Mixed`, which differ in the arithmetic they use.
 */
module Euler1 {

  import opened Divisibility

  /** `start + (start + 1) + ... + end`; 0 when `start > end`. */
  function SeriesSum(start: int, end: int): int
    decreases end - start
  {
    if start > end then 0 else SeriesSum(start, end - 1) + end
  }

  /** The sum of the `i` in `[0, n)` that are multiples of 3 or of 5. */
  function SumMultiples(n: nat): nat {
    if n == 0 then 0
    else SumMultiples(n - 1) + (if (n - 1) % 3 == 0 || (n - 1) % 5 == 0 then n - 1 else 0)
  }

  /** The sum of the multiples of `k` in `[0, n)`. */
  function SumMultiplesOf(k: nat, n: nat): nat
    requires k >= 1
  {
    if n == 0 then 0
    else SumMultiplesOf(k, n - 1) + (if (n - 1) % k == 0 then n - 1 else 0)
  }

  /** The problem statement's example: the multiples below 10 sum to 23. */
  lemma SumMultiplesBelowTen()
    ensures SumMultiples(10) == 23
  {
    assert SumMultiples(4) == 3;
    assert SumMultiples(7) == 14;
  }

  /** Gauss: twice the series is the number of terms times the sum of the ends. */
  lemma {:induction false} SeriesSumClosed(start: int, end: int)
    requires start <= end + 1
    ensures 2 * SeriesSum(start, end) == (end - start + 1) * (start + end)
    decreases end - start
  {
    if start <= end {
      SeriesSumClosed(start, end - 1);
      calc {
        2 * SeriesSum(start, end);
        2 * SeriesSum(start, end - 1) + 2 * end;
        (end - start) * (start + end - 1) + 2 * end;
        (end - start + 1) * (start + end);
      }
    }
  }

  /**
   * The halving in `sumOfSeries` is exact: with `diff = end - start`, an
   * even `diff` makes `start + end` even, an odd one makes `diff + 1` even,
   * and either product is the series.
   */
  lemma SeriesHalving(start: int, end: int)
    requires start <= end
    ensures var diff := end - start;
      if diff % 2 == 0 then
        (start + end) % 2 == 0 && SeriesSum(start, end) == (diff + 1) * ((start + end) / 2)
      else
        (diff + 1) % 2 == 0 && SeriesSum(start, end) == ((diff + 1) / 2) * (start + end)
  {
    var diff := end - start;
    SeriesSumClosed(start, end);
    assert start + end == diff + 2 * start;
    if diff % 2 == 0 {
      var h := (start + end) / 2;
      assert start + end == 2 * h by {
        DivModUnique(start + end, 2, diff / 2 + start, 0);
      }
      assert 2 * SeriesSum(start, end) == 2 * ((diff + 1) * h);
    } else {
      var h := (diff + 1) / 2;
      assert diff + 1 == 2 * h by {
        DivModUnique(diff + 1, 2, diff / 2 + 1, 0);
      }
      assert 2 * SeriesSum(start, end) == 2 * (h * (start + end));
    }
  }

  /** A series of naturals is at least its last term. */
  lemma {:induction false} SeriesSumBounds(start: nat, end: int)
    ensures SeriesSum(start, end) >= 0
    ensures start <= end ==> SeriesSum(start, end) >= end
    decreases end - start
  {
    if start <= end {
      SeriesSumBounds(start, end - 1);
    }
  }

  /** The multiples of `k` below `n` are `k * (1 + ... + (n - 1) / k)`. */
  lemma {:induction false} MultiplesAsSeries(k: nat, n: nat)
    requires k >= 1 && n >= 1
    ensures SumMultiplesOf(k, n) == k * SeriesSum(1, (n - 1) / k)
  {
    if n == 1 {
      DivModUnique(0, k, 0, 0);
      MultiplesOfStep(k, 1);
    } else {
      MultiplesAsSeries(k, n - 1);
      MultiplesOfStep(k, n);
      DivMod(n - 2, k);
      if (n - 2) % k == k - 1 {
        DivModUnique(n - 1, k, (n - 2) / k + 1, 0);
        assert SeriesSum(1, (n - 2) / k + 1) == SeriesSum(1, (n - 2) / k) + ((n - 2) / k + 1);
        Distribute(k, SeriesSum(1, (n - 2) / k), (n - 2) / k + 1);
      } else {
        DivModUnique(n - 1, k, (n - 2) / k, (n - 2) % k + 1);
      }
    }
  }

  lemma Distribute(k: int, s: int, t: int)
    ensures k * (s + t) == k * s + k * t
  {
  }

  /** 15 divides `i` exactly when 3 and 5 both do. */
  lemma FifteenDivides(i: nat)
    ensures i % 15 == 0 <==> i % 3 == 0 && i % 5 == 0
  {
    if i % 15 == 0 {
      var q := i / 15;
      DivModUnique(i, 3, 5 * q, 0);
      DivModUnique(i, 5, 3 * q, 0);
    } else if i % 3 == 0 && i % 5 == 0 {
      assert Gcd(5, 3) == 1 by {
        CoprimeByCombination(5, 3, 2, -3);
      }
      var a := i / 3;
      assert i == a * 3;
      EuclidLemma(5, 3, a);
      var b := DividesWitness(5, a);
      DivModUnique(i, 15, b, 0);
    }
  }

  /** Inclusion–exclusion over multiples of 3, 5 and 15. */
  lemma {:induction false} InclusionExclusion(n: nat)
    ensures SumMultiples(n) == SumMultiplesOf(3, n) + SumMultiplesOf(5, n) - SumMultiplesOf(15, n)
  {
    if n > 0 {
      InclusionExclusion(n - 1);
      TermSplit(n - 1);
      MultiplesOfStep(3, n);
      MultiplesOfStep(5, n);
      MultiplesOfStep(15, n);
    }
  }

  lemma MultiplesOfStep(k: nat, n: nat)
    requires k >= 1 && n >= 1
    ensures SumMultiplesOf(k, n) == SumMultiplesOf(k, n - 1) + (if (n - 1) % k == 0 then n - 1 else 0)
  {
  }

  /** One index counted once on each side of inclusion–exclusion. */
  lemma TermSplit(i: nat)
    ensures (if i % 3 == 0 || i % 5 == 0 then i else 0)
      == (if i % 3 == 0 then i else 0) + (if i % 5 == 0 then i else 0) - (if i % 15 == 0 then i else 0)
  {
    FifteenDivides(i);
  }

  /** Multiples of 15 are multiples of 3, so their sum is the smaller one. */
  lemma {:induction false} FifteenBelowThree(n: nat)
    ensures SumMultiplesOf(15, n) <= SumMultiplesOf(3, n)
  {
    if n > 0 {
      FifteenBelowThree(n - 1);
      FifteenDivides(n - 1);
    }
  }

  /** The closed form of `solution2` over exact integers. */
  function ClosedForm(n: nat): int
    requires n >= 1
  {
    3 * SeriesSum(1, (n - 1) / 3) + 5 * SeriesSum(1, (n - 1) / 5) - 15 * SeriesSum(1, (n - 1) / 15)
  }

  /** The closed form sums exactly the multiples of 3 or 5 below `n`. */
  lemma ClosedFormCorrect(n: nat)
    requires n >= 1
    ensures ClosedForm(n) == SumMultiples(n)
  {
    MultiplesAsSeries(3, n);
    MultiplesAsSeries(5, n);
    MultiplesAsSeries(15, n);
    InclusionExclusion(n);
  }

  /** The sum of the multiples below `n` is at most `n * n`. */
  lemma {:induction false} SumMultiplesBound(n: nat)
    ensures SumMultiples(n) <= n * n
  {
    if n > 0 {
      SumMultiplesBound(n - 1);
      assert (n - 1) * (n - 1) + (n - 1) <= n * n;
    }
  }

  /** The multiples of `k` below `n` sum to at most `n * n`. */
  lemma {:induction false} SumMultiplesOfBound(k: nat, n: nat)
    requires k >= 1
    ensures SumMultiplesOf(k, n) <= n * n
  {
    if n > 0 {
      SumMultiplesOfBound(k, n - 1);
      assert (n - 1) * (n - 1) + (n - 1) <= n * n;
    }
  }
}
