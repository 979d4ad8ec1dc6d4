/**
 * libgap/test/PE-001-mixed.cpp: the closed form of Project Euler problem 1
 * written once as a template over the result type `T` and instantiated
 * twice, with `unsigned long` (wrapping 64-bit) for small bounds and
 * `Gap::Int` for large ones. The instantiation is the `Width` parameter.
 */
module Euler1Mixed {

  import opened Machine
  import opened Euler1
  import Euler1Cint
  import Euler1Gap

  /** `MAX` and `MAX_CINT` in `main`. */
  const MAX: nat := 1_000_000_000_000_000_000
  const MAX_CINT: nat := 1_000_000_000

  /**
   * `sumOfSeries<T>`: with `T = unsigned long` every step wraps; with
   * `T = Gap::Int` the difference and the bounds pass through `GAP_Int8`.
   */
  function SumOfSeries(w: Width, start: u64, end: u64): (r: int)
    ensures start > end ==> r == 0
    ensures w == MachineWord && start <= end && start + end + 1 < U64 ==> r == SeriesSum(start, end) % U64
    ensures w == GapInt && start <= end && start + end < I64Bound ==> r == SeriesSum(start, end)
  {
    match w
    case MachineWord => Euler1Cint.SumOfSeries(start, end)
    case GapInt => Euler1Gap.SumOfSeries(start, end)
  }

  /**
   * `solution2<T>`: inclusion–exclusion over the three series. In both
   * instantiations `N - 1` is an `unsigned long`, so `N == 0` wraps and
   * sums the multiples below 2^64 instead.
   */
  function Solution2(w: Width, N: u64): (r: int)
    ensures var n: nat := if N == 0 then U64 else N;
      (w == MachineWord ==> r == SumMultiples(n) % U64) && (w == GapInt ==> r == SumMultiples(n))
  {
    match w
    case MachineWord =>
      Euler1Cint.Solution2Modular(N);
      Euler1Cint.Solution2(N)
    case GapInt => Euler1Gap.Solution2(N)
  }

  /** Up to `MAX_CINT` the machine-word instantiation does not wrap. */
  lemma MachineWordExact(N: u64)
    requires 1 <= N <= MAX_CINT
    ensures Solution2(MachineWord, N) == SumMultiples(N)
  {
    Euler1Cint.Solution2Exact(N);
  }

  /** The choice `main` makes: machine words up to `MAX_CINT`, `Gap::Int` above. */
  function HarnessWidth(max: nat): Width {
    if max <= MAX_CINT then MachineWord else GapInt
  }

  function Pow10(j: nat): nat {
    if j == 0 then 1 else 10 * Pow10(j - 1)
  }

  /** One line of the benchmark table: the bound, the instantiation used and the sum printed. */
  datatype Row = Row(max: nat, width: Width, sum: int)

  /**
   * The loop of `main`: `max` runs over 10, 100, ..., 10^18 (the next
   * `max *= 10` gives 10^19, which still fits in `unsigned long`, and ends
   * the loop), and each bound is handed to the instantiation `HarnessWidth`
   * picks. Every printed sum is the sum of the multiples of 3 or 5 below
   * `max`: the machine-word instantiation never wraps in its range.
   */
  method Harness() returns (rows: seq<Row>)
    ensures |rows| == 18
    ensures forall j :: 0 <= j < |rows| ==>
      rows[j] == Row(Pow10(j + 1), HarnessWidth(Pow10(j + 1)), SumMultiples(Pow10(j + 1)))
  {
    rows := [];
    var max: u64 := 10;
    while max <= MAX
      invariant |rows| <= 18
      invariant max == Pow10(|rows| + 1)
      invariant |rows| < 18 ==> max <= MAX
      invariant |rows| == 18 ==> max > MAX
      invariant forall j :: 0 <= j < |rows| ==> rows[j] == ExpectedRow(j)
      decreases MAX + 1 - max
    {
      ghost var j := |rows| + 1;
      PowersInRange(j);
      var row := HarnessRow(max);
      rows := rows + [row];
      max := MulU(max, 10);
      assert max == Pow10(j + 1);
    }
  }

  /** The line `main` prints for the bound 10^(j + 1). */
  function ExpectedRow(j: nat): Row {
    var max := Pow10(j + 1);
    Row(max, HarnessWidth(max), SumMultiples(max))
  }

  /** One pass of `main`'s loop body: the instantiation picked for the bound prints the exact sum. */
  method HarnessRow(max: u64) returns (row: Row)
    requires 1 <= max
    ensures row == Row(max, HarnessWidth(max), SumMultiples(max))
  {
    if max <= MAX_CINT {
      MachineWordExact(max);
    }
    var w := HarnessWidth(max);
    var sum := Solution2(w, max);
    row := Row(max, w, sum);
  }

  /** 10^j stays within the loop bound exactly up to j = 18, and 10^19 still fits in 64 bits. */
  lemma PowersInRange(j: nat)
    requires 1 <= j <= 18
    ensures 10 <= Pow10(j) <= MAX && Pow10(j) * 10 < U64
    ensures j < 18 ==> Pow10(j) * 10 <= MAX
    ensures j == 18 ==> Pow10(j) * 10 > MAX
  {
    Pow10Monotone(1, j);
    Pow10Monotone(j, 18);
    if j < 18 {
      Pow10Monotone(j + 1, 18);
    }
    Pow10Eighteen();
  }

  lemma Pow10Eighteen()
    ensures Pow10(1) == 10 && Pow10(17) == MAX / 10 && Pow10(18) == MAX
  {
    assert Pow10(3) == 1_000;
    assert Pow10(6) == 1_000 * Pow10(3);
    assert Pow10(9) == 1_000 * Pow10(6);
    assert Pow10(12) == 1_000 * Pow10(9);
    assert Pow10(15) == 1_000 * Pow10(12);
    assert Pow10(17) == 100 * Pow10(15);
  }

  lemma {:induction false} Pow10Monotone(i: nat, j: nat)
    requires i <= j
    ensures Pow10(i) <= Pow10(j)
    decreases j - i
  {
    if i < j {
      Pow10Monotone(i, j - 1);
    }
  }

  /**
   * Where they overlap without wrapping, the two instantiations agree: the
   * template computes the same value in either result type.
   */
  lemma InstantiationsAgree(N: u64)
    requires 1 <= N <= MAX_CINT
    ensures Solution2(MachineWord, N) == Solution2(GapInt, N)
  {
    MachineWordExact(N);
  }
}
