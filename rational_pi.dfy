/**
 * libgap/test/rational-pi.cpp: partial sums of two series for pi in exact
 * `Gap::Rat` arithmetic, and `prDec`, which writes a rational as a
 * truncated decimal expansion.
 */
module RationalPi {

  import opened Machine
  import opened Divisibility
  import opened Outcomes
  import opened GapRat
  import GapInt
  import Numerals
  import Streams

  // ---------------------------------------------------------------------
  // Madhava / Gregory–Leibniz

  /** Up to this bound every denominator `2i + 1` fits in `GAP_Int8` unchanged. */
  const MGL_EXACT: nat := 0x4000_0000_0000_0000

  /** The `i`-th term `(-1)^i / (2i + 1)`. */
  function LeibnizTerm(i: nat): real {
    (if i % 2 == 0 then 1.0 else -1.0) / (2 * i + 1) as real
  }

  /** The first `n` terms of `1 - 1/3 + 1/5 - ...`. */
  function Leibniz(n: nat): real {
    if n == 0 then 0.0 else Leibniz(n - 1) + LeibnizTerm(n - 1)
  }

  /**
   * The denominator `2*i+1` is computed in `unsigned long` and converted by
   * `GAP_Int8`: it is odd, so never zero, and below `MGL_EXACT` it is exact.
   */
  lemma OddDenominator(i: u64)
    ensures ToInt64(AddU(MulU(2, i), 1)) != 0
    ensures i < MGL_EXACT ==> ToInt64(AddU(MulU(2, i), 1)) == 2 * i + 1
  {
    var m := MulU(2, i);
    var q := (2 * i) / U64;
    assert 2 * i == q * U64 + m;
    assert m == 2 * (i - q * (U64 / 2));
    assert m + 1 < U64;
  }

  /** `Gap::Rat(1, 2*i+1)`. */
  method MGLFraction(i: u64) returns (term: Rat)
    ensures fresh(term)
    ensures i < MGL_EXACT ==> Value(term.value) == 1.0 / (2 * i + 1) as real
  {
    OddDenominator(i);
    var one := new GapInt.Int(1);
    var den := new GapInt.Int(ToInt64(AddU(MulU(2, i), 1)));
    term := Rat.Make(one, den);
  }

  lemma LeibnizTermSign(i: nat)
    ensures i % 2 == 0 ==> LeibnizTerm(i) == 1.0 / (2 * i + 1) as real
    ensures i % 2 == 1 ==> LeibnizTerm(i) == -(1.0 / (2 * i + 1) as real)
  {
  }

  /** One step of the loop of `seriesMGL`: add the term for even `i`, subtract it for odd `i`. */
  method AddMGLTerm(sum: Rat, i: u64)
    modifies sum
    ensures i < MGL_EXACT ==> Value(sum.value) == Value(old(sum.value)) + LeibnizTerm(i)
  {
    var term := MGLFraction(i);
    LeibnizTermSign(i);
    if i % 2 == 0 {
      sum.AddAssign(term);
    } else {
      sum.SubAssign(term);
    }
  }

  /**
   * `seriesMGL(N)`: starts from 1 and adds or subtracts `1/(2i+1)` for
   * `i = 1 .. N-1`, then multiplies by 4. For `N <= 1` the loop does not run
   * and the result is 4.
   */
  method SeriesMGL(N: u64) returns (pi: Rational)
    ensures N <= MGL_EXACT ==> Value(pi) == 4.0 * Leibniz(if N == 0 then 1 else N)
  {
    var sum := new Rat(1);
    var i: u64 := 1;
    while i < N
      invariant 1 <= i && (N >= 1 ==> i <= N) && (N == 0 ==> i == 1)
      invariant N <= MGL_EXACT ==> Value(sum.value) == Leibniz(i)
    {
      AddMGLTerm(sum, i);
      i := i + 1;
    }
    ghost var terms: nat := if N == 0 then 1 else N;
    assert i == terms;
    var four := new Rat(4);
    var product := Rat.Times(four, sum);
    pi := product.value;
    assert Value(pi) == 4.0 * Value(sum.value) by {
      assert Value(four.value) == 4.0;
    }
  }

  /** Every partial sum from the first on lies between 2/3 and 1. */
  lemma {:induction false} LeibnizBounds(n: nat)
    requires n >= 1
    ensures 2.0 / 3.0 <= Leibniz(n) <= 1.0
  {
    if n == 2 {
      assert Leibniz(2) == 1.0 - 1.0 / 3.0;
    } else if n > 2 {
      LeibnizBounds(n - 1);
      LeibnizBounds(n - 2);
      var k := n - 2;
      ConsecutiveTerms(k);
      assert Leibniz(n - 1) == Leibniz(k) + LeibnizTerm(k);
      assert Leibniz(n) == Leibniz(n - 1) + LeibnizTerm(k + 1);
      PairBounds(Leibniz(k), Leibniz(n - 1), Leibniz(n), LeibnizTerm(k), LeibnizTerm(k + 1));
    }
  }

  /**
   * Two consecutive terms of opposite signs, the first larger in magnitude,
   * keep a partial sum inside an interval that holds the two before it.
   */
  lemma PairBounds(s0: real, s1: real, s2: real, t0: real, t1: real)
    requires s1 == s0 + t0 && s2 == s1 + t1
    requires 2.0 / 3.0 <= s0 <= 1.0 && 2.0 / 3.0 <= s1 <= 1.0
    requires (0.0 < -t1 < t0) || (0.0 < t1 < -t0)
    ensures 2.0 / 3.0 <= s2 <= 1.0
  {
  }

  /** Consecutive terms have opposite signs and shrink in magnitude. */
  lemma ConsecutiveTerms(k: nat)
    ensures (0.0 < -LeibnizTerm(k + 1) < LeibnizTerm(k)) || (0.0 < LeibnizTerm(k + 1) < -LeibnizTerm(k))
  {
    ReciprocalDecreasing(2 * k + 1, 2 * k + 3);
    LeibnizTermSign(k);
    LeibnizTermSign(k + 1);
    assert 2 * (k + 1) + 1 == 2 * k + 3;
    assert (k + 1) % 2 == 1 - k % 2;
  }

  lemma ReciprocalDecreasing(a: int, b: int)
    requires 0 < a < b
    ensures 0.0 < 1.0 / b as real < 1.0 / a as real
  {
    RealFracLt(1, b, 1, a);
    RealFracLt(0, 1, 1, b);
  }

  // ---------------------------------------------------------------------
  // Bailey–Borwein–Plouffe

  /** Up to this bound the `unsigned long` polynomial parts of the term do not wrap. */
  const BBP_EXACT: nat := 100_000_000

  function BBPNumerator(i: nat): int {
    120 * i * i + 151 * i + 47
  }

  function BBPDenominator(i: nat): (d: int)
    ensures d >= 15
  {
    PowNonNegative(i, 4);
    PowNonNegative(i, 3);
    GapInt.Pow(i, 4) * 512 + GapInt.Pow(i, 3) * 1024 + (712 * i * i + 194 * i + 15)
  }

  lemma {:induction false} PowNonNegative(a: nat, e: nat)
    ensures GapInt.Pow(a, e) >= 0
  {
    if e > 0 {
      PowNonNegative(a, e - 1);
    }
  }

  /** `16^-i`, the weight of the `i`-th term. */
  function Weight(i: nat): (w: real)
    ensures w > 0.0
  {
    GapInt.PowPositive(16, i);
    1.0 / GapInt.Pow(16, i) as real
  }

  /** The polynomial quotient of the `i`-th term. */
  function BBPQuotientValue(i: nat): real {
    BBPNumerator(i) as real / BBPDenominator(i) as real
  }

  /** `x` scaled by `16^-i`. */
  function Weighted(i: nat, x: real): real {
    Weight(i) * x
  }

  /** The `i`-th term as `seriesBBP` builds it: `16^-i` times the polynomial quotient. */
  function BBPTerm(i: nat): real {
    Weighted(i, BBPQuotientValue(i))
  }

  /** The classical form of the term, kept as a comment beside the polynomial one. */
  function ClassicalTerm(i: nat): real {
    4.0 / (8 * i + 1) as real - 2.0 / (8 * i + 4) as real - 1.0 / (8 * i + 5) as real - 1.0 / (8 * i + 6) as real
  }

  /** The polynomial denominator factors into the four classical ones. */
  lemma DenominatorFactors(i: nat)
    ensures 8 * BBPDenominator(i) == (8 * i + 1) * (8 * i + 4) * (8 * i + 5) * (8 * i + 6)
    ensures BBPDenominator(i) > 0
  {
    assert GapInt.Pow(i, 2) == i * i by {
      assert GapInt.Pow(i, 1) == i;
    }
    assert GapInt.Pow(i, 3) == i * (i * i);
    assert GapInt.Pow(i, 4) == i * (i * (i * i));
  }

  /** The polynomial term is the classical four-fraction term. */
  lemma PolynomialTermIsClassical(i: nat)
    ensures BBPDenominator(i) > 0
    ensures BBPQuotientValue(i) == ClassicalTerm(i)
  {
    DenominatorFactors(i);
    var a, b, c, d := 8 * i + 1, 8 * i + 4, 8 * i + 5, 8 * i + 6;
    NumeratorFactors(i);
    FourFractions(a, b, c, d);
    ScaleFraction(BBPNumerator(i), BBPDenominator(i), 8);
  }

  /** Over the common denominator the four classical numerators add up to 8 times the polynomial one. */
  lemma NumeratorFactors(i: nat)
    ensures var a, b, c, d := 8 * i + 1, 8 * i + 4, 8 * i + 5, 8 * i + 6;
      4 * (b * c * d) - 2 * (a * c * d) - a * b * d - a * b * c == 8 * BBPNumerator(i)
  {
  }

  lemma FourFractions(a: int, b: int, c: int, d: int)
    requires a > 0 && b > 0 && c > 0 && d > 0
    ensures 4.0 / a as real - 2.0 / b as real - 1.0 / c as real - 1.0 / d as real
      == (4 * (b * c * d) - 2 * (a * c * d) - a * b * d - a * b * c) as real / (a * b * c * d) as real
  {
    PositiveProduct(a, b);
    PositiveProduct(a * b, c);
    var x1 := 4 * b + (-2) * a;
    RealFracAdd(4, a, -2, b);
    var x2 := x1 * c + (-1) * (a * b);
    RealFracAdd(x1, a * b, -1, c);
    var x3 := x2 * d + (-1) * (a * b * c);
    RealFracAdd(x2, a * b * c, -1, d);
    FourNumerators(a, b, c, d);
    NegativeFraction(2, b);
    NegativeFraction(1, c);
    NegativeFraction(1, d);
  }

  lemma FourNumerators(a: int, b: int, c: int, d: int)
    ensures ((4 * b + (-2) * a) * c + (-1) * (a * b)) * d + (-1) * (a * b * c)
      == 4 * (b * c * d) - 2 * (a * c * d) - a * b * d - a * b * c
  {
  }

  lemma ScaleFraction(n: int, d: int, k: int)
    requires d > 0 && k > 0
    ensures (k * n) as real / (k * d) as real == n as real / d as real
  {
    RealProduct(k, n);
    RealProduct(k, d);
  }

  /** The first `n` terms of the series. */
  function BBPSum(n: nat): real {
    if n == 0 then 0.0 else BBPSum(n - 1) + BBPTerm(n - 1)
  }

  /**
   * Below `BBP_EXACT` an `unsigned long` quadratic `a*i*i + b*i + c` with the
   * coefficients of the term neither wraps nor leaves `GAP_Int8`.
   */
  lemma QuadraticExact(a: u64, b: u64, c: u64, i: u64)
    requires a <= 712 && b <= 194 && c <= 47 && i < BBP_EXACT
    ensures ToInt64(AddU(AddU(MulU(MulU(a, i), i), MulU(b, i)), c)) == a * i * i + b * i + c
  {
    MulBoth(a, i, 712, BBP_EXACT);
    MulBoth(a * i, i, 712 * BBP_EXACT, BBP_EXACT);
    MulBoth(b, i, 194, BBP_EXACT);
    assert MulU(a, i) == a * i;
    assert MulU(a * i, i) == a * i * i;
    assert MulU(b, i) == b * i;
  }

  /** `Rat(1, Gap::Int::pow(16, i))`. */
  method BBPScale(i: u64) returns (a: Rat)
    requires i < BBP_EXACT
    ensures fresh(a)
    ensures Value(a.value) == Weight(i)
  {
    GapInt.PowPositive(16, i);
    var index := new GapInt.Int(ToInt64(i));
    var sixteen := new GapInt.Int(16);
    var scale := sixteen.Power(index);
    var one := new GapInt.Int(1);
    a := Rat.Make(one, scale);
  }

  /** The `Gap::Int` denominator `pow(i, 4)*512 + pow(i, 3)*1024 + (712*i*i + 194*i + 15)`. */
  method BBPDenominatorObject(i: u64) returns (den: GapInt.Int)
    requires i < BBP_EXACT
    ensures fresh(den) && den.value == BBPDenominator(i)
  {
    QuadraticExact(712, 194, 15, i);
    var index := new GapInt.Int(ToInt64(i));
    var four := new GapInt.Int(4);
    var three := new GapInt.Int(3);
    var c512 := new GapInt.Int(512);
    var c1024 := new GapInt.Int(1024);
    var p4 := index.Power(four);
    var t4 := GapInt.Int.Times(p4, c512);
    var p3 := index.Power(three);
    var t3 := GapInt.Int.Times(p3, c1024);
    var low := new GapInt.Int(ToInt64(AddU(AddU(MulU(MulU(712, i), i), MulU(194, i)), 15)));
    var high := GapInt.Int.Plus(t4, t3);
    den := GapInt.Int.Plus(high, low);
  }

  /** `Rat(120*i*i + 151*i + 47, denominator)`. */
  method BBPQuotient(i: u64) returns (b: Rat)
    requires i < BBP_EXACT
    ensures fresh(b)
    ensures Value(b.value) == BBPQuotientValue(i)
  {
    QuadraticExact(120, 151, 47, i);
    DenominatorFactors(i);
    var num := new GapInt.Int(ToInt64(AddU(AddU(MulU(MulU(120, i), i), MulU(151, i)), 47)));
    var den := BBPDenominatorObject(i);
    b := Rat.Make(num, den);
  }

  /** One step of the loop of `seriesBBP`: `sum += Rat(1, 16^i) * Rat(numerator, denominator)`. */
  method AddBBPTerm(sum: Rat, i: u64)
    requires i < BBP_EXACT
    modifies sum
    ensures Value(sum.value) == Value(old(sum.value)) + BBPTerm(i)
  {
    var term := BBPTermObject(i);
    sum.AddAssign(term);
  }

  /** `Rat(1, 16^i) * Rat(numerator, denominator)`. */
  method BBPTermObject(i: u64) returns (term: Rat)
    requires i < BBP_EXACT
    ensures fresh(term) && Value(term.value) == BBPTerm(i)
  {
    var a := BBPScale(i);
    ghost var u := Value(a.value);
    var b := BBPQuotient(i);
    ghost var v := Value(b.value);
    ProductIsTerm(i, u, v);
    term := Multiply(a, b);
  }

  /** The product of the two factors of a term is the term. */
  lemma ProductIsTerm(i: nat, u: real, v: real)
    requires u == Weight(i) && v == BBPQuotientValue(i)
    ensures u * v == BBPTerm(i)
  {
  }

  /**
   * `opL * opR` on the two `Gap::Rat` temporaries of a term, stated by the
   * value of the product alone: this keeps the definition of the reduced
   * product out of the proof of the term.
   */
  method Multiply(a: Rat, b: Rat) returns (r: Rat)
    ensures fresh(r) && Value(r.value) == Value(a.value) * Value(b.value)
  {
    r := Rat.Times(a, b);
  }

  /**
   * `seriesBBP(N)`: the sum of the first `N` terms, each built as
   * `Rat(1, 16^i) * Rat(numerator, denominator)` with the powers in
   * `Gap::Int` and the quadratic parts in `unsigned long`.
   */
  method SeriesBBP(N: u64) returns (pi: Rational)
    requires N <= BBP_EXACT
    ensures Value(pi) == BBPSum(N)
  {
    var sum := new Rat(0);
    var i: u64 := 0;
    while i < N
      invariant i <= N
      invariant Value(sum.value) == BBPSum(i)
    {
      AddBBPTerm(sum, i);
      i := i + 1;
    }
    pi := sum.value;
  }

  /** The `i`-th term of the classical series, `16^-i` times the four fractions. */
  function WeightedTerm(i: nat): real {
    Weighted(i, ClassicalTerm(i))
  }

  /** The sum of the first `n` classical terms. */
  function ClassicalSum(n: nat): real {
    if n == 0 then 0.0
    else
      ClassicalSum(n - 1) + WeightedTerm(n - 1)
  }

  /** `seriesBBP` sums the classical BBP series. */
  lemma {:induction false} BBPIsClassical(n: nat)
    ensures BBPSum(n) == ClassicalSum(n)
  {
    if n > 0 {
      BBPIsClassical(n - 1);
      TermIsClassical(n - 1);

    }
  }

  /** Each term of `seriesBBP` is `16^-i` times the classical term. */
  lemma TermIsClassical(i: nat)
    ensures BBPDenominator(i) > 0
    ensures BBPTerm(i) == WeightedTerm(i)
  {
    PolynomialTermIsClassical(i);
  }

  // ---------------------------------------------------------------------
  // testHarness and main

  /** `main` doubles `max` from 2 while it stays at or below this bound. */
  const MAIN_MAX: nat := 1_000_000

  /** `testHarness` returns before the BBP series when `max` is above this. */
  const BBP_CUTOFF: nat := 32768

  /**
   * Every bound `main` passes keeps the doubling free of wrap-around, the
   * MGL series exact, and, where the BBP series runs at all, that one too.
   */
  lemma MainRange(max: u64)
    requires 2 <= max <= MAIN_MAX
    ensures max * 2 < U64
    ensures max <= MGL_EXACT
    ensures max <= BBP_CUTOFF ==> max <= BBP_EXACT
  {
  }

  /**
   * The series part of `testHarness`: `sum` first holds `seriesMGL(max)`;
   * above the cut-off the harness returns, otherwise `sum` is reassigned
   * `seriesBBP(max)`. The timing and printing are left out.
   */
  method TestHarness(max: u64) returns (mgl: Rational, ranBBP: bool, sum: Rational)
    ensures max <= MGL_EXACT ==> Value(mgl) == 4.0 * Leibniz(if max == 0 then 1 else max)
    ensures ranBBP <==> max <= BBP_CUTOFF
    ensures !ranBBP ==> sum == mgl
    ensures ranBBP ==> Value(sum) == BBPSum(max) == ClassicalSum(max)
  {
    mgl := SeriesMGL(max);
    sum := mgl;
    ranBBP := max <= BBP_CUTOFF;
    if !ranBBP {
      return;
    }
    sum := SeriesBBP(max);
    BBPIsClassical(max);
  }

  // ---------------------------------------------------------------------
  // prDec
  //
  // The digit loop keeps `rem` as a `Gap::Rat`; a rational is determined by
  // its value, so the text it writes is specified on that value.

  /** `r.num() / r.den()`: the integer part, truncated toward zero. */
  function IntegerPart(r: Rational): int {
    NumDenReduced(r);
    GapInt.TruncQuo(Num(r), Den(r))
  }

  /** A real truncated toward zero. */
  function Trunc(x: real): int {
    if x >= 0.0 then x.Floor else -((-x).Floor)
  }

  /** The integer part of a rational is its value truncated toward zero. */
  lemma IntegerPartIsTrunc(r: Rational)
    ensures IntegerPart(r) == Trunc(Value(r))
    ensures Num(r) >= 0 <==> Value(r) >= 0.0
  {
    NumDenReduced(r);
    var n, d := Num(r), Den(r);
    TruncOfFraction(n, d, GapInt.TruncQuo(n, d));
  }

  /** A quotient truncated toward zero is the truncation of the real quotient. */
  lemma TruncOfFraction(n: int, d: int, q: int)
    requires d > 0
    requires n >= 0 ==> 0 <= n - q * d < d
    requires n < 0 ==> -d < n - q * d <= 0
    ensures Trunc(n as real / d as real) == q
    ensures n >= 0 <==> n as real / d as real >= 0.0
  {
    var m := q * d;
    RealFracLt(n, d, 0, 1);
    RealFracLt(n, d, q, 1);
    RealFracLt(q, 1, n, d);
    if n >= 0 {
      assert (q + 1) * d == m + d;
      RealFracLt(n, d, q + 1, 1);
    } else {
      assert (q - 1) * d == m - d;
      RealFracLt(q - 1, 1, n, d);
    }
  }

  /** The digit the loop writes for a remainder of value `v`: `10 * v` truncated. */
  function Digit(v: real): int {
    Trunc(10.0 * v)
  }

  /** The value of the remainder after that digit. */
  function NextValue(v: real): real {
    10.0 * v - Digit(v) as real
  }

  /** The text the digit loop writes for `n` digits from a remainder of value `v`. */
  function DigitsText(v: real, n: nat, base: int): string
    requires Numerals.ValidBase(base)
    decreases n
  {
    if n == 0 then [] else Numerals.Render(Digit(v), base) + DigitsText(NextValue(v), n - 1, base)
  }

  /** How many digits the loop writes: `prec`, one fewer for a negative `r`, none below zero. */
  function DigitCount(r: Rational, prec: int): nat {
    var p := if Num(r) < 0 then prec - 1 else prec;
    if p < 0 then 0 else p
  }

  /**
   * The text `os << prDec(r, prec)` writes, as the code is written: an
   * optional '-', the truncated integer part, '.', and the digit loop, run
   * `prec` times, or `prec - 1` times for a negative `r`.
   */
  function PrDecText(r: Rational, prec: int, base: int): string
    requires Numerals.ValidBase(base)
  {
    var quo := IntegerPart(r);
    (if Num(r) < 0 then "-" else "") + Numerals.Render(quo, base) + "."
      + DigitsText(Value(r) - quo as real, DigitCount(r, prec), base)
  }

  /**
   * `os << prDec(r, prec)`: writes the expansion to the stream and returns
   * the same stream.
   */
  method PrDec(os: Streams.OStream, r: Rational, prec: int) returns (res: Streams.OStream)
    modifies os
    ensures res == os && os.flags == old(os.flags)
    ensures os.text == old(os.text) + PrDecText(r, prec, GapInt.StreamBase(os.flags))
  {
    ghost var before := os.text;
    var rem, p := WriteIntegerPart(os, r, prec);
    PrDecTextSplit(before, os.text, r, prec, GapInt.StreamBase(os.flags));
    WriteDigits(os, rem, p);
    res := os;
  }

  /**
   * The part of `prDec` before the digit loop: the optional '-', the
   * integer part `quo` and '.'. Returns the remainder `r - quo` and the
   * number of digits still to write.
   */
  method WriteIntegerPart(os: Streams.OStream, r: Rational, prec: int) returns (rem: Rational, p: int)
    modifies os
    ensures os.flags == old(os.flags)
    ensures os.text == old(os.text) + (if Num(r) < 0 then "-" else "")
      + Numerals.Render(IntegerPart(r), GapInt.StreamBase(os.flags)) + "."
    ensures Value(rem) == Value(r) - IntegerPart(r) as real
    ensures (if p < 0 then 0 else p) == DigitCount(r, prec)
  {
    p := prec;
    var quo := IntegerPart(r);
    rem := Sub(r, FromInt(quo));
    if Num(r) < 0 {
      os.Write("-");
      p := p - 1;
    }
    os.WriteInt(quo);
    os.Write(".");
  }

  /** `PrDecText` is the text written before the loop followed by the loop's digits. */
  lemma PrDecTextSplit(before: string, head: string, r: Rational, prec: int, base: int)
    requires Numerals.ValidBase(base)
    requires head == before + (if Num(r) < 0 then "-" else "") + Numerals.Render(IntegerPart(r), base) + "."
    ensures before + PrDecText(r, prec, base)
      == head + DigitsText(Value(r) - IntegerPart(r) as real, DigitCount(r, prec), base)
  {
    var sign := if Num(r) < 0 then "-" else "";
    var digits := DigitsText(Value(r) - IntegerPart(r) as real, DigitCount(r, prec), base);
    assert PrDecText(r, prec, base) == sign + Numerals.Render(IntegerPart(r), base) + "." + digits;
    ConcatFive(before, sign, Numerals.Render(IntegerPart(r), base), ".", digits);
  }

  lemma ConcatFive(a: string, b: string, c: string, d: string, e: string)
    ensures a + (b + c + d + e) == a + b + c + d + e
  {
  }

  /** The digit loop of `prDec`: `p` turns of `WriteDigit`, none when `p <= 0`. */
  method WriteDigits(os: Streams.OStream, rem: Rational, p: int)
    modifies os
    ensures os.flags == old(os.flags)
    ensures os.text == old(os.text) + DigitsText(Value(rem), if p < 0 then 0 else p, GapInt.StreamBase(os.flags))
  {
    var base := GapInt.StreamBase(os.flags);
    var n := if p < 0 then 0 else p;
    ghost var target := os.text + DigitsText(Value(rem), n, base);
    var r := rem;
    var i := 0;
    while i < n
      invariant os.flags == old(os.flags)
      invariant 0 <= i <= n
      invariant os.text + DigitsText(Value(r), n - i, base) == target
    {
      ghost var text0, v0 := os.text, Value(r);
      r := WriteDigit(os, r);
      DigitsTextStep(text0, v0, n - i, base, target);
      i := i + 1;
    }
    EmptyDigits(os.text, Value(r), base);
  }

  lemma EmptyDigits(t: string, v: real, base: int)
    requires Numerals.ValidBase(base)
    ensures t + DigitsText(v, 0, base) == t
  {
    assert t + [] == t;
  }

  /**
   * One turn of the digit loop: `rem *= 10`, the integer part `quo` is
   * written, and `rem -= quo`.
   */
  method WriteDigit(os: Streams.OStream, rem: Rational) returns (next: Rational)
    modifies os
    ensures os.flags == old(os.flags)
    ensures os.text == old(os.text) + Numerals.Render(Digit(Value(rem)), GapInt.StreamBase(os.flags))
    ensures Value(next) == NextValue(Value(rem))
  {
    var t := Mul(rem, FromInt(10));
    var quo := IntegerPart(t);
    IntegerPartIsTrunc(t);
    os.WriteInt(quo);
    next := Sub(t, FromInt(quo));
  }

  lemma ConcatAssoc(a: string, b: string, c: string)
    ensures (a + b) + c == a + (b + c)
  {
  }

  /**
   * One turn of the digit loop keeps the written text plus the digits still
   * to come equal to the whole expansion.
   */
  lemma DigitsTextStep(text: string, v: real, n: nat, base: int, target: string)
    requires Numerals.ValidBase(base) && n > 0
    requires text + DigitsText(v, n, base) == target
    ensures (text + Numerals.Render(Digit(v), base)) + DigitsText(NextValue(v), n - 1, base) == target
  {
    ConcatAssoc(text, Numerals.Render(Digit(v), base), DigitsText(NextValue(v), n - 1, base));
  }

  /**
   * For a remainder in `[0, 1)` the next digit is a decimal digit and the
   * new remainder is again in `[0, 1)`.
   */
  lemma DigitStep(v: real)
    requires 0.0 <= v < 1.0
    ensures 0 <= Digit(v) <= 9
    ensures 0.0 <= NextValue(v) < 1.0
  {
  }

  /** With base at least ten, every digit is written as one decimal digit character. */
  lemma {:induction false} DigitsAreDecimal(v: real, n: nat, base: int)
    requires 10 <= base <= 36 && 0.0 <= v < 1.0
    ensures |DigitsText(v, n, base)| == n
    ensures forall k :: 0 <= k < n ==> '0' <= DigitsText(v, n, base)[k] <= '9'
    decreases n
  {
    if n > 0 {
      DigitStep(v);
      DigitsAreDecimal(NextValue(v), n - 1, base);
      SingleDigit(Digit(v), base);
      DecimalConcat(Numerals.Render(Digit(v), base), DigitsText(NextValue(v), n - 1, base));
    }
  }

  lemma SingleDigit(d: int, base: int)
    requires 0 <= d <= 9 && 10 <= base <= 36
    ensures Numerals.Render(d, base) == [Numerals.DigitChar(d)]
    ensures '0' <= Numerals.DigitChar(d) <= '9'
  {
  }

  lemma DecimalConcat(a: string, b: string)
    requires forall k :: 0 <= k < |a| ==> '0' <= a[k] <= '9'
    requires forall k :: 0 <= k < |b| ==> '0' <= b[k] <= '9'
    ensures forall k :: 0 <= k < |a + b| ==> '0' <= (a + b)[k] <= '9'
  {
  }

  /** The digits the loop writes, read as the decimal fraction `0.d1 d2 ... dn`. */
  function DigitsValue(v: real, n: nat): real
    decreases n
  {
    if n == 0 then 0.0 else (Digit(v) as real + DigitsValue(NextValue(v), n - 1)) / 10.0
  }

  /** `10^-n`, the weight of the `n`-th decimal. */
  function DecimalUnit(n: nat): (u: real)
    ensures u > 0.0
  {
    if n == 0 then 1.0 else DecimalUnit(n - 1) / 10.0
  }

  /**
   * The digits truncate: the first `n` decimals of a remainder in `[0, 1)`
   * fall short of it by less than one unit in the last place.
   */
  lemma {:induction false} DigitsTruncate(v: real, n: nat)
    requires 0.0 <= v < 1.0
    ensures DigitsValue(v, n) <= v < DigitsValue(v, n) + DecimalUnit(n)
    decreases n
  {
    if n > 0 {
      DigitStep(v);
      DigitsTruncate(NextValue(v), n - 1);
    }
  }

  /**
   * For a non-negative `r`, the integer part followed by `prec` digits is
   * `r` truncated to `prec` decimals: it is at most `r`, and `r` exceeds it
   * by less than `10^-prec`.
   */
  lemma PrDecTruncates(r: Rational, prec: nat)
    requires Num(r) >= 0
    ensures var quo := IntegerPart(r);
      var D := DigitsValue(Value(r) - quo as real, prec);
      quo as real + D <= Value(r) < quo as real + D + DecimalUnit(prec)
  {
    IntegerPartIsTrunc(r);
    DigitsTruncate(Value(r) - IntegerPart(r) as real, prec);
  }

  // ---------------------------------------------------------------------
  // prDec on a negative rational
  //
  // For a negative `r` the code writes '-' and then `quo`, which is itself
  // negative unless it is 0, and every digit of the loop, which comes from a
  // negative remainder. The evident intent is the sign once, followed by the
  // expansion of `|r|` with one digit fewer.

  /**
   * As written, `prDec(-4/3, 2)` on a decimal stream writes "--1.-3": the
   * sign, then the negative truncated integer part, then a digit taken from
   * the negative remainder -10/3, which is still a fraction.
   */
  lemma PrDecNegativeExample()
    ensures Canonical(FracRat(-4, 3))
    ensures PrDecText(FracRat(-4, 3), 2, 10) == "--1.-3"
  {
    assert Gcd(-4, 3) == 1 by {
      assert GcdNat(4, 3) == GcdNat(3, 1) == GcdNat(1, 0) == 1;
    }
    var r: Rational := FracRat(-4, 3);
    assert IntegerPart(r) == -1;
    var v := Value(r) - (-1) as real;
    assert v == -1.0 / 3.0;
    assert (10.0 / 3.0).Floor == 3;
    assert Digit(v) == -3;
    assert Numerals.Render(-1, 10) == "-1";
    assert Numerals.Render(-3, 10) == "-3";
    assert DigitsText(v, 1, 10) == "-3" + DigitsText(NextValue(v), 0, 10);
  }

  /**
   * In that example every object whose `num()` and `den()` the code reads is
   * a genuine fraction: `r` itself, the remainder -1/3 after `r - quo`, and
   * -10/3 after `rem *= 10`.
   */
  lemma NegativeExampleFractions()
    ensures Canonical(FracRat(-4, 3)) && Canonical(FracRat(-1, 3)) && Canonical(FracRat(-10, 3))
    ensures Sub(FracRat(-4, 3), FromInt(-1)) == FracRat(-1, 3)
    ensures Mul(FracRat(-1, 3), FromInt(10)) == FracRat(-10, 3)
  {
    assert GcdNat(4, 3) == GcdNat(3, 1) == GcdNat(1, 0) == 1;
    assert GcdNat(10, 3) == GcdNat(3, 1) == 1;
    assert Value(FracRat(-4, 3)) - Value(FromInt(-1)) == Value(FracRat(-1, 3));
    ValueDetermines(Sub(FracRat(-4, 3), FromInt(-1)), FracRat(-1, 3));
    assert Value(FracRat(-1, 3)) * Value(FromInt(10)) == Value(FracRat(-10, 3));
    ValueDetermines(Mul(FracRat(-1, 3), FromInt(10)), FracRat(-10, 3));
  }

  /** The expansion the code evidently intends: the sign once, then `|r|` with one digit fewer. */
  function PrDecFixedText(r: Rational, prec: int, base: int): string
    requires Numerals.ValidBase(base)
  {
    if Num(r) < 0 then "-" + PrDecText(Neg(r), prec - 1, base) else PrDecText(r, prec, base)
  }

  /** The corrected expansion of -4/3 to two places is "-1.3". */
  lemma PrDecFixedExample()
    ensures Canonical(FracRat(-4, 3))
    ensures PrDecFixedText(FracRat(-4, 3), 2, 10) == "-1.3"
  {
    assert Gcd(-4, 3) == 1 by {
      assert GcdNat(4, 3) == GcdNat(3, 1) == GcdNat(1, 0) == 1;
    }
    var r: Rational := FracRat(-4, 3);
    var a := Neg(r);
    assert a == FracRat(4, 3);
    assert IntegerPart(a) == 1;
    var v := Value(a) - 1 as real;
    assert v == 1.0 / 3.0;
    assert (10.0 / 3.0).Floor == 3;
    assert Digit(v) == 3;
    assert Numerals.Render(1, 10) == "1";
    assert Numerals.Render(3, 10) == "3";
    assert DigitsText(v, 1, 10) == "3" + DigitsText(NextValue(v), 0, 10);
  }

  /**
   * In the corrected expansion a '-' appears only as the first character,
   * and it is there exactly when `r` is negative.
   */
  lemma PrDecFixedSign(r: Rational, prec: int, base: int)
    requires Numerals.ValidBase(base)
    ensures var s := PrDecFixedText(r, prec, base);
      |s| > 0 && (s[0] == '-' <==> Num(r) < 0) && forall k :: 0 < k < |s| ==> s[k] != '-'
  {
    var a := if Num(r) < 0 then Neg(r) else r;
    var p := if Num(r) < 0 then prec - 1 else prec;
    UnsignedText(a, p, base);
  }

  /** The as-written text of a non-negative rational holds no '-'. */
  lemma UnsignedText(r: Rational, prec: int, base: int)
    requires Numerals.ValidBase(base) && Num(r) >= 0
    ensures var s := PrDecText(r, prec, base);
      |s| > 0 && forall k :: 0 <= k < |s| ==> s[k] != '-'
  {
    IntegerPartIsTrunc(r);
    var quo := IntegerPart(r);
    var digits := DigitsText(Value(r) - quo as real, DigitCount(r, prec), base);
    UnsignedHead(quo, base);
    DigitsUnsigned(Value(r) - quo as real, DigitCount(r, prec), base);
    NoMinusConcat(Numerals.Render(quo, base) + ".", digits);
    assert "" + Numerals.Render(quo, base) == Numerals.Render(quo, base);
  }

  /** The integer part of a non-negative rational and the point hold no '-'. */
  lemma UnsignedHead(quo: int, base: int)
    requires Numerals.ValidBase(base) && quo >= 0
    ensures forall k :: 0 <= k < |Numerals.Render(quo, base) + "."| ==> (Numerals.Render(quo, base) + ".")[k] != '-'
  {
    Numerals.NatDigitsChars(quo, base);
  }

  /** From a remainder in `[0, 1)` the digit loop writes no '-'. */
  lemma {:induction false} DigitsUnsigned(v: real, n: nat, base: int)
    requires Numerals.ValidBase(base) && 0.0 <= v < 1.0
    ensures forall k :: 0 <= k < |DigitsText(v, n, base)| ==> DigitsText(v, n, base)[k] != '-'
    decreases n
  {
    if n > 0 {
      DigitStep(v);
      DigitsUnsigned(NextValue(v), n - 1, base);
      Numerals.NatDigitsChars(Digit(v), base);
      NoMinusConcat(Numerals.Render(Digit(v), base), DigitsText(NextValue(v), n - 1, base));
    }
  }

  lemma NoMinusConcat(a: string, b: string)
    requires forall k :: 0 <= k < |a| ==> a[k] != '-'
    requires forall k :: 0 <= k < |b| ==> b[k] != '-'
    ensures forall k :: 0 <= k < |a + b| ==> (a + b)[k] != '-'
  {
  }

  /**
   * The corrected expansion truncates `|r|`: after the sign, the integer
   * part and the digits fall short of `|r|` by less than one unit in the
   * last place.
   */
  lemma PrDecFixedTruncates(r: Rational, prec: nat)
    ensures var a := if Num(r) < 0 then Neg(r) else r;
      var n := DigitCount(r, prec);
      var quo := IntegerPart(a);
      var D := DigitsValue(Value(a) - quo as real, n);
      Value(a) >= 0.0 && quo as real + D <= Value(a) < quo as real + D + DecimalUnit(n)
  {
    var a := if Num(r) < 0 then Neg(r) else r;
    IntegerPartIsTrunc(a);
    PrDecTruncates(a, DigitCount(r, prec));
  }

  /** `os << prDec(r, prec)` as evidently intended: the sign, then the expansion of `|r|`. */
  method PrDecFixed(os: Streams.OStream, r: Rational, prec: int) returns (res: Streams.OStream)
    modifies os
    ensures res == os && os.flags == old(os.flags)
    ensures os.text == old(os.text) + PrDecFixedText(r, prec, GapInt.StreamBase(os.flags))
  {
    if Num(r) < 0 {
      ghost var before := os.text;
      os.Write("-");
      res := PrDec(os, Neg(r), prec - 1);
      assert os.text == before + ("-" + PrDecText(Neg(r), prec - 1, GapInt.StreamBase(os.flags)));
    } else {
      res := PrDec(os, r, prec);
    }
  }
}
