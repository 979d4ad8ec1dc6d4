/**
 * libgap/test/PE-006.cpp: Project Euler problem 6, the square of the sum of
 * `1..N` minus the sum of their squares, computed by a brute-force loop
 * (`solution1`) and by a closed form (`solution2`), each a template over
 * the result type: `unsigned long` (wrapping 64-bit) or `Gap::Int`.
 */
module Euler6 {

  import opened Machine
  import opened Divisibility
  import GapInt

  /** `MAX_CINT` and `MAX` in `main`. */
  const MAX_CINT: nat := 10_000
  const MAX: nat := 100_000_000

  /** The largest `i` whose square `i * i` still fits in `GAP_Int8`. */
  const SQUARE_SAFE: nat := 3_037_000_499

  /** `1 + 2 + ... + n`. */
  function SumTo(n: nat): nat {
    if n == 0 then 0 else SumTo(n - 1) + n
  }

  /** `1^2 + 2^2 + ... + n^2`. */
  function SumSquares(n: nat): nat {
    if n == 0 then 0 else SumSquares(n - 1) + n * n
  }

  /** The quantity the problem asks for. */
  function Difference(n: nat): int {
    SumTo(n) * SumTo(n) - SumSquares(n)
  }

  /** `SumTo(0) + ... + SumTo(n - 1)`: the value after the second division of `solution2`. */
  function Tetrahedral(n: nat): nat {
    if n == 0 then 0 else Tetrahedral(n - 1) + SumTo(n - 1)
  }

  /** The problem statement's example for the first ten numbers. */
  lemma FirstTenExample()
    ensures SumSquares(10) == 385 && SumTo(10) * SumTo(10) == 3025 && Difference(10) == 2640
  {
    assert SumTo(10) == 55;
    assert SumSquares(5) == 55;
  }

  lemma {:induction false} SumToClosed(n: nat)
    ensures 2 * SumTo(n) == n * (n + 1)
  {
    if n > 0 {
      SumToClosed(n - 1);
    }
  }

  lemma {:induction false} SumSquaresClosed(n: nat)
    ensures 6 * SumSquares(n) == n * (n + 1) * (2 * n + 1)
  {
    if n > 0 {
      SumSquaresClosed(n - 1);
      SquaresStep(n - 1);
    }
  }

  lemma SquaresStep(m: nat)
    ensures (m + 1) * (m + 2) * (2 * m + 3) == m * (m + 1) * (2 * m + 1) + 6 * ((m + 1) * (m + 1))
  {
    var x := (m + 2) * (2 * m + 3);
    var y := m * (2 * m + 1);
    assert x == y + 6 * (m + 1);
    assert (m + 1) * (m + 2) * (2 * m + 3) == (m + 1) * x;
    assert m * (m + 1) * (2 * m + 1) == (m + 1) * y;
    assert (m + 1) * x == (m + 1) * y + (m + 1) * (6 * (m + 1));
  }

  /** The second division of `solution2` is exact: `SumTo(n) * (n - 1)` is three times a natural. */
  lemma {:induction false} TetrahedralClosed(n: nat)
    ensures SumTo(n) * (n - 1) == 3 * Tetrahedral(n)
  {
    if n > 0 {
      TetrahedralClosed(n - 1);
      SumToClosed(n - 1);
      TetrahedralStep(n, SumTo(n - 1));
    }
  }

  lemma TetrahedralStep(n: int, s: int)
    requires 2 * s == (n - 1) * n
    ensures (s + n) * (n - 1) == s * (n - 2) + 3 * s
  {
    assert (s + n) * (n - 1) == s * (n - 1) + n * (n - 1);
    assert s * (n - 1) == s * (n - 2) + s;
  }

  /**
   * The last division of `solution2` is exact: twice the difference is
   * `Tetrahedral(n) * (3n + 2)`.
   */
  lemma DifferenceClosed(n: nat)
    ensures 2 * Difference(n) == Tetrahedral(n) * (3 * n + 2)
  {
    SumToClosed(n);
    SumSquaresClosed(n);
    TetrahedralClosed(n);
    DifferenceAlgebra(n, SumTo(n), SumSquares(n), Tetrahedral(n));
  }

  lemma DifferenceAlgebra(n: int, s: int, q: int, t: int)
    requires 2 * s == n * (n + 1)
    requires 6 * q == n * (n + 1) * (2 * n + 1)
    requires s * (n - 1) == 3 * t
    ensures 2 * (s * s - q) == t * (3 * n + 2)
  {
    assert 6 * q == 2 * s * (2 * n + 1);
    assert 12 * (s * s) == 6 * s * (n * (n + 1));
    assert 6 * (t * (3 * n + 2)) == 2 * (s * (n - 1)) * (3 * n + 2);
    var k := 6 * (n * (n + 1)) - 4 * (2 * n + 1);
    assert k == 2 * (n - 1) * (3 * n + 2);
    assert 12 * (s * s) - 12 * q == s * k;
    assert s * k == 2 * (s * (n - 1)) * (3 * n + 2);
  }

  /** The square of the sum is never below the sum of the squares. */
  lemma DifferenceNonNegative(n: nat)
    ensures SumSquares(n) <= SumTo(n) * SumTo(n)
  {
    DifferenceClosed(n);
  }

  /**
   * `solution2<T>`: `((n(n+1)/2)(n-1)/3)(3n+2)/2`, evaluated left to right.
   * With `unsigned long` every product and the decrement wrap and every
   * division is on the wrapped value; with `Gap::Int` the bound first
   * passes through `GAP_Int8` and the divisions truncate.
   */
  function Solution2(w: Width, N: u64): int {
    match w
    case MachineWord =>
      var a := DivU(MulU(N, AddU(N, 1)), 2);
      var b := DivU(MulU(a, SubU(N, 1)), 3);
      DivU(MulU(b, AddU(MulU(3, N), 2)), 2)
    case GapInt =>
      var n := ToInt64(N);
      var a := GapInt.TruncQuo(n * (n + 1), 2);
      var b := GapInt.TruncQuo(a * (n - 1), 3);
      GapInt.TruncQuo(b * (3 * n + 2), 2)
  }

  /** With `Gap::Int`, the closed form is exact for every bound that `GAP_Int8` holds. */
  lemma Solution2GapExact(N: u64)
    requires N < I64Bound
    ensures Solution2(GapInt, N) == Difference(N)
  {
    var n: int := N;
    SumToClosed(N);
    GapInt.TruncExact(n * (n + 1), 2, SumTo(N));
    TetrahedralClosed(N);
    GapInt.TruncExact(SumTo(N) * (n - 1), 3, Tetrahedral(N));
    DifferenceClosed(N);
    GapInt.TruncExact(Tetrahedral(N) * (3 * n + 2), 2, Difference(N));
  }

  /** With `unsigned long`, no step wraps and every division is exact up to `MAX_CINT`. */
  lemma Solution2WordExact(N: u64)
    requires N <= MAX_CINT
    ensures Solution2(MachineWord, N) == Difference(N)
  {
    WordFirstDivision(N);
    if N == 0 {
      assert Solution2(MachineWord, N) == 0;
    } else {
      WordSecondDivision(N);
      WordLastDivision(N);
    }
  }

  lemma WordFirstDivision(N: u64)
    requires N <= MAX_CINT
    ensures SumTo(N) < U64
    ensures DivU(MulU(N, AddU(N, 1)), 2) == SumTo(N)
  {
    SumToBelowWord(N, AddU(N, 1));
    ExactWordStep(N, AddU(N, 1), 2, SumTo(N));
  }

  lemma WordSecondDivision(N: u64)
    requires 1 <= N <= MAX_CINT
    ensures SumTo(N) < U64 && Tetrahedral(N) < U64
    ensures DivU(MulU(SumTo(N), SubU(N, 1)), 3) == Tetrahedral(N)
  {
    TetrahedralBelowWord(N, SubU(N, 1));
    ExactWordStep(SumTo(N), SubU(N, 1), 3, Tetrahedral(N));
  }

  lemma WordLastDivision(N: u64)
    requires 1 <= N <= MAX_CINT
    ensures Tetrahedral(N) < U64
    ensures DivU(MulU(Tetrahedral(N), AddU(MulU(3, N), 2)), 2) == Difference(N)
  {
    DifferenceBelowWord(N, AddU(MulU(3, N), 2));
    ExactWordStep(Tetrahedral(N), AddU(MulU(3, N), 2), 2, Difference(N));
  }

  /** A product that fits in 64 bits and is `k` times `q` divides back to `q`. */
  lemma ExactWordStep(x: u64, y: u64, k: u64, q: int)
    requires k > 0 && x * y < U64 && x * y == k * q
    ensures DivU(MulU(x, y), k) == q
  {
    DivModUnique(x * y, k, q, 0);
  }

  /** Up to `MAX_CINT`, the product before the first division fits in 64 bits. */
  lemma SumToBelowWord(N: nat, y: int)
    requires N <= MAX_CINT && y == N + 1
    ensures N * y <= 100_010_000 && N * y == 2 * SumTo(N)
    ensures SumTo(N) <= 50_005_000
  {
    SumToClosed(N);
    MulBoth(N, y, 10_000, 10_001);
  }

  /** Up to `MAX_CINT`, the product before the second division fits in 64 bits. */
  lemma TetrahedralBelowWord(N: nat, y: int)
    requires 1 <= N <= MAX_CINT && y == N - 1
    ensures SumTo(N) <= 50_005_000 && Tetrahedral(N) <= 333_366_666_667
    ensures SumTo(N) * y <= 1_000_100_000_000 && SumTo(N) * y == 3 * Tetrahedral(N)
  {
    SumToBelowWord(N, N + 1);
    TetrahedralClosed(N);
    MulBoth(SumTo(N), y, 50_005_000, 10_000);
  }

  /** Up to `MAX_CINT`, the product before the last division fits in 64 bits. */
  lemma DifferenceBelowWord(N: nat, y: int)
    requires 1 <= N <= MAX_CINT && y == 3 * N + 2
    ensures Tetrahedral(N) <= 333_366_666_667
    ensures Tetrahedral(N) * y <= 333_366_666_667 * 30_002
    ensures Tetrahedral(N) * y == 2 * Difference(N)
  {
    TetrahedralBelowWord(N, N - 1);
    DifferenceClosed(N);
    MulBoth(Tetrahedral(N), y, 333_366_666_667, 30_002);
  }

  /** Sums of the `unsigned long` terms `i` and `i * i` after each passes through `GAP_Int8`. */
  function GapSum(n: u64): int {
    if n == 0 then 0 else GapSum(n - 1) + ToInt64(n)
  }

  function GapSquares(n: u64): int {
    if n == 0 then 0 else GapSquares(n - 1) + ToInt64(MulU(n, n))
  }

  /**
   * As long as every square fits in `GAP_Int8`, the `Gap::Int` sums are the
   * exact sums.
   */
  lemma {:induction false} GapSumsExact(n: u64)
    requires n <= SQUARE_SAFE
    ensures GapSum(n) == SumTo(n) && GapSquares(n) == SumSquares(n)
  {
    if n > 0 {
      GapSumsExact(n - 1);
      MulBoth(n, n, SQUARE_SAFE, SQUARE_SAFE);
    }
  }

  /**
   * `solution1<unsigned long>`: both sums wrap; the result is the
   * difference modulo 2^64. The counter is an `unsigned long` compared with
   * `i <= N`, so `N` must stay below the largest value or the loop never
   * ends.
   */
  method Solution1Word(N: u64) returns (r: u64)
    requires N < U64 - 1
    ensures r == Difference(N) % U64
  {
    var sum: u64 := 0;
    var sumSq: u64 := 0;
    var i: u64 := 1;
    while i <= N
      invariant 1 <= i <= N + 1
      invariant sum == SumTo(i - 1) % U64
      invariant sumSq == SumSquares(i - 1) % U64
    {
      WordSumsStep(sum, sumSq, i);
      sum := AddU(sum, i);
      sumSq := AddU(sumSq, MulU(i, i));
      i := i + 1;
    }
    WordDifference(sum, sumSq, N);
    r := SubU(MulU(sum, sum), sumSq);
  }

  /**
   * As written, `N == 2^64 - 1` leaves the loop of `solution1` without an
   * exit: every value the `unsigned long` counter can take passes the guard
   * `i <= N`, and incrementing the last one wraps it to 0.
   */
  lemma Solution1WordNeverExits(N: u64, i: u64)
    requires N == U64 - 1
    ensures i <= N
    ensures AddU(N, 1) == 0
  {
  }

  /**
   * The loop of `solution1<unsigned long>` as evidently intended: one turn
   * per term for every `N`, counting the terms done so that the counter never
   * has to pass `N`.
   */
  method Solution1WordFixed(N: u64) returns (r: u64)
    ensures r == Difference(N) % U64
  {
    var sum: u64 := 0;
    var sumSq: u64 := 0;
    var k: u64 := 0;
    while k < N
      invariant k <= N
      invariant sum == SumTo(k) % U64
      invariant sumSq == SumSquares(k) % U64
    {
      var i: u64 := k + 1;
      WordSumsStep(sum, sumSq, i);
      sum := AddU(sum, i);
      sumSq := AddU(sumSq, MulU(i, i));
      k := i;
    }
    WordDifference(sum, sumSq, N);
    r := SubU(MulU(sum, sum), sumSq);
  }

  /** One iteration of `solution1<unsigned long>` keeps both sums reduced modulo 2^64. */
  lemma WordSumsStep(sum: u64, sumSq: u64, i: u64)
    requires i >= 1 && sum == SumTo(i - 1) % U64 && sumSq == SumSquares(i - 1) % U64
    ensures AddU(sum, i) == SumTo(i) % U64
    ensures AddU(sumSq, MulU(i, i)) == SumSquares(i) % U64
  {
    AddUMod(sum, i, SumTo(i - 1), i);
    MulUMod(i, i, i, i);
    AddUMod(sumSq, MulU(i, i), SumSquares(i - 1), i * i);
  }

  /** The final square and subtraction of `solution1<unsigned long>`, modulo 2^64. */
  lemma WordDifference(sum: u64, sumSq: u64, N: nat)
    requires sum == SumTo(N) % U64 && sumSq == SumSquares(N) % U64
    ensures SubU(MulU(sum, sum), sumSq) == Difference(N) % U64
  {
    MulUMod(sum, sum, SumTo(N), SumTo(N));
    SubUMod(MulU(sum, sum), sumSq, SumTo(N) * SumTo(N), SumSquares(N));
  }

  /** Up to `MAX_CINT` the wrapping loop gives the exact difference. */
  lemma Solution1WordExact(N: nat)
    requires N <= MAX_CINT
    ensures 0 <= Difference(N) < U64
  {
    SumToClosed(N);
    DifferenceNonNegative(N);
    MulBoth(N, N + 1, MAX_CINT, MAX_CINT + 1);
    MulBoth(SumTo(N), SumTo(N), 50_005_000, 50_005_000);
  }

  /**
   * `solution1<Gap::Int>`: the sums are `Gap::Int` objects; `i` and the
   * `unsigned long` square `i * i` are converted by `GAP_Int8` before each
   * addition, and the final product and difference are exact.
   */
  method Solution1Gap(N: u64) returns (r: int)
    requires N < U64 - 1
    ensures r == GapSum(N) * GapSum(N) - GapSquares(N)
    ensures N <= SQUARE_SAFE ==> r == Difference(N)
  {
    var sum := new GapInt.Int(0);
    var sumSq := new GapInt.Int(0);
    var i: u64 := 1;
    while i <= N
      invariant 1 <= i <= N + 1
      invariant sum != sumSq
      invariant sum.value == GapSum(i - 1) && sumSq.value == GapSquares(i - 1)
    {
      var term := new GapInt.Int(ToInt64(i));
      sum.AddAssign(term);
      var square := new GapInt.Int(ToInt64(MulU(i, i)));
      sumSq.AddAssign(square);
      i := i + 1;
    }
    var product := GapInt.Int.Times(sum, sum);
    var result := GapInt.Int.Minus(product, sumSq);
    r := result.value;
    if N <= SQUARE_SAFE {
      GapSumsExact(N);
    }
  }

  /** `solution1<T>` for either instantiation. */
  method Solution1(w: Width, N: u64) returns (r: int)
    requires N < U64 - 1
    ensures w == MachineWord ==> r == Difference(N) % U64
    ensures w == GapInt ==> r == GapSum(N) * GapSum(N) - GapSquares(N)
  {
    match w
    case MachineWord =>
      r := Solution1Word(N);
    case GapInt =>
      r := Solution1Gap(N);
  }

  /**
   * The ranges `main` uses: `unsigned long` up to `MAX_CINT` and
   * `Gap::Int` up to `MAX` (the second loop's `unsigned` counter reaches
   * 10^9, which still fits in 32 bits). In both, both solutions print the
   * exact difference.
   */
  lemma MainRanges(max: u64)
    requires 1 <= max <= MAX
    ensures max <= MAX_CINT ==> Difference(max) % U64 == Difference(max) == Solution2(MachineWord, max)
    ensures GapSum(max) * GapSum(max) - GapSquares(max) == Difference(max) == Solution2(GapInt, max)
    ensures max * 10 < 0x1_0000_0000
  {
    if max <= MAX_CINT {
      Solution1WordExact(max);
      Solution2WordExact(max);
    }
    GapSumsExact(max);
    Solution2GapExact(max);
  }
}
