/**
 * `Gap::Rat` (libgap/include/gap/rat.h): the C++ handle on a GAP rational.
 *
 * The kernel keeps a rational either as an integer object (when its
 * denominator is 1) or as a reduced fraction with a denominator above 1.
 * `Rational` is that canonical form; every operation builds its result with
 * `Frac`, the model of `GAP_MakeRat`'s normalisation, and is proved against
 * the exact value `Value(r)`, a real number.
 */
module GapRat {

  import opened Divisibility
  import opened Machine
  import opened Outcomes
  import Numerals
  import GapInt

  // ---------------------------------------------------------------------
  // Values

  /** A kernel rational: an integer object, or a fraction object (`T_RAT`). */
  datatype RatObj = IntRat(i: int) | FracRat(n: int, d: int)

  /** The kernel's invariant: fractions are reduced and have a denominator above 1. */
  predicate Canonical(r: RatObj) {
    r.FracRat? ==> r.d > 1 && Gcd(r.n, r.d) == 1
  }

  type Rational = r: RatObj | Canonical(r) witness IntRat(0)

  /**
   * `num()`. For an integer object the source reads `NUM_RAT` all the same;
   * the model gives the integer itself.
   */
  function Num(r: RatObj): int {
    match r
    case IntRat(i) => i
    case FracRat(n, _) => n
  }

  /** `den()`; 1 for an integer object. */
  function Den(r: RatObj): int {
    match r
    case IntRat(_) => 1
    case FracRat(_, d) => d
  }

  /** The exact value of a rational. */
  function Value(r: Rational): real {
    Num(r) as real / Den(r) as real
  }

  /** `num()` and `den()` of every rational are in lowest terms with a positive denominator. */
  lemma NumDenReduced(r: Rational)
    ensures Den(r) >= 1 && Gcd(Num(r), Den(r)) == 1
  {
    if r.IntRat? {
      GcdWithOne(r.i);
    }
  }

  lemma GcdWithOne(a: int)
    ensures Gcd(a, 1) == 1
  {
    CoprimeByCombination(a, 1, 0, 1);
  }

  /** `isRat`: the object is a fraction or an integer. */
  predicate IsRat(r: RatObj) {
    r.FracRat? || r.IntRat?
  }

  // ---------------------------------------------------------------------
  // Fractions of integers, as real numbers

  lemma RealProduct(a: int, b: int)
    ensures (a * b) as real == a as real * b as real
  {
  }

  lemma RealFracEq(a: int, b: int, c: int, d: int)
    requires b > 0 && d > 0
    ensures a as real / b as real == c as real / d as real <==> a * d == c * b
  {
    var A, B, C, D := a as real, b as real, c as real, d as real;
    var x, y := A / B, C / D;
    assert x * B == A;
    assert y * D == C;
    RealProduct(a, d);
    RealProduct(c, b);
    if x == y {
      assert A * D == x * B * D;
      assert C * B == y * D * B;
    }
  }

  lemma RealFracLt(a: int, b: int, c: int, d: int)
    requires b > 0 && d > 0
    ensures a as real / b as real < c as real / d as real <==> a * d < c * b
  {
    var A, B, C, D := a as real, b as real, c as real, d as real;
    var x, y := A / B, C / D;
    assert x * B == A;
    assert y * D == C;
    RealProduct(a, d);
    RealProduct(c, b);
    assert A * D == x * (B * D);
    assert C * B == y * (B * D);
    assert B * D > 0.0;
  }

  lemma RealFracAdd(a: int, b: int, c: int, d: int)
    requires b > 0 && d > 0
    ensures (a * d + c * b) as real / (b * d) as real == a as real / b as real + c as real / d as real
  {
    var A, B, C, D := a as real, b as real, c as real, d as real;
    var x, y := A / B, C / D;
    assert x * B == A;
    assert y * D == C;
    RealProduct(a, d);
    RealProduct(c, b);
    RealProduct(b, d);
    var z := (a * d + c * b) as real / (b * d) as real;
    assert z * (B * D) == A * D + C * B;
    assert (x + y) * (B * D) == A * D + C * B;
    assert B * D > 0.0;
    assert (z - (x + y)) * (B * D) == 0.0;
  }

  lemma RealFracMul(a: int, b: int, c: int, d: int)
    requires b > 0 && d > 0
    ensures (a * c) as real / (b * d) as real == (a as real / b as real) * (c as real / d as real)
  {
    var A, B, C, D := a as real, b as real, c as real, d as real;
    var x, y := A / B, C / D;
    assert x * B == A;
    assert y * D == C;
    RealProduct(a, c);
    RealProduct(b, d);
    var z := (a * c) as real / (b * d) as real;
    assert z * (B * D) == A * C;
    assert (x * y) * (B * D) == (x * B) * (y * D);
    assert B * D > 0.0;
    assert (z - x * y) * (B * D) == 0.0;
  }

  lemma PositiveProduct(a: int, b: int)
    requires a > 0 && b > 0
    ensures a * b > 0
  {
    MulAtLeast(a, b);
  }

  // ---------------------------------------------------------------------
  // Normalisation (`GAP_MakeRat`)

  function ReducedNum(n: int, d: int): int
    requires d != 0
  {
    (if d < 0 then -1 else 1) * (n / Gcd(n, d))
  }

  function ReducedDen(n: int, d: int): int
    requires d != 0
  {
    (if d < 0 then -1 else 1) * (d / Gcd(n, d))
  }

  /** Dividing out the gcd and moving the sign to the numerator gives lowest terms. */
  lemma ReducedFacts(n: int, d: int)
    requires d != 0
    ensures ReducedDen(n, d) > 0
    ensures Gcd(ReducedNum(n, d), ReducedDen(n, d)) == 1
    ensures ReducedNum(n, d) * d == n * ReducedDen(n, d)
  {
    var g := Gcd(n, d);
    CoprimeQuotients(n, d);
    QuotientExact(g, n);
    QuotientExact(g, d);
    LowestTerms(n, d, g, n / g, d / g, if d < 0 then -1 else 1);
  }

  lemma LowestTerms(n: int, d: int, g: int, a: int, b: int, s: int)
    requires g > 0 && d != 0 && n == a * g && d == b * g && Gcd(a, b) == 1
    requires s == if d < 0 then -1 else 1
    ensures s * b > 0 && Gcd(s * a, s * b) == 1 && (s * a) * d == n * (s * b)
  {
    if d < 0 {
      assert b < 0 by {
        if b > 0 {
          PositiveProduct(b, g);
        } else {
          assert b != 0;
        }
      }
      assert Abs(-a) == Abs(a) && Abs(-b) == Abs(b);
      assert Gcd(-a, -b) == Gcd(a, b);
      assert (-a) * d == n * (-b) by {
        assert a * d == a * (b * g) == (a * g) * b;
      }
    } else {
      assert b > 0 by {
        if b < 0 {
          PositiveProduct(-b, g);
        } else {
          assert b != 0;
        }
      }
      assert a * d == n * b by {
        assert a * (b * g) == (a * g) * b;
      }
    }
  }

  /**
   * The reduced rational `n / d`: numerator and denominator divided by their
   * gcd, the sign carried by the numerator, and an integer object when the
   * denominator becomes 1.
   */
  function Frac(n: int, d: int): (r: Rational)
    requires d != 0
    ensures Num(r) * d == n * Den(r)
  {
    ReducedFacts(n, d);
    var n', d' := ReducedNum(n, d), ReducedDen(n, d);
    if d' == 1 then IntRat(n') else FracRat(n', d')
  }

  /** `Frac(n, d)` has the value `n / d`. */
  lemma FracValue(n: int, d: int)
    requires d != 0
    ensures Value(Frac(n, d)) == n as real / d as real
  {
    CrossValue(Frac(n, d), n, d);
  }

  /** A rational whose cross product with `n / d` agrees has the value `n / d`. */
  lemma CrossValue(r: Rational, n: int, d: int)
    requires d != 0 && Num(r) * d == n * Den(r)
    ensures Value(r) == n as real / d as real
  {
    NumDenReduced(r);
    if d > 0 {
      RealFracEq(Num(r), Den(r), n, d);
    } else {
      assert Num(r) * (-d) == (-n) * Den(r);
      RealFracEq(Num(r), Den(r), -n, -d);
      NegateBoth(n, d);
    }
  }

  lemma NegateBoth(n: int, d: int)
    requires d != 0
    ensures (-n) as real / (-d) as real == n as real / d as real
  {
  }

  /**
   * Canonical forms are unique: two rationals whose cross products agree are
   * the same object.
   */
  lemma CanonicalUnique(x: Rational, y: Rational)
    requires Num(x) * Den(y) == Num(y) * Den(x)
    ensures x == y
  {
    NumDenReduced(x);
    NumDenReduced(y);
    LowestTermsUnique(Num(x), Den(x), Num(y), Den(y));
  }

  lemma LowestTermsUnique(nx: int, dx: int, ny: int, dy: int)
    requires dx >= 1 && dy >= 1 && Gcd(nx, dx) == 1 && Gcd(ny, dy) == 1
    requires nx * dy == ny * dx
    ensures nx == ny && dx == dy
  {
    DenominatorDivides(nx, dx, ny, dy);
    DenominatorDivides(ny, dy, nx, dx);
    MutualDivision(dx, dy);
    assert dx * nx == dx * ny;
    CancelFactor(dx, nx, ny);
  }

  /** With `nx / dx` in lowest terms and `nx * dy == ny * dx`, `dx` divides `dy`. */
  lemma DenominatorDivides(nx: int, dx: int, ny: int, dy: int)
    requires Gcd(nx, dx) == 1 && nx * dy == ny * dx
    ensures Divides(dx, dy)
  {
    GcdSymmetric(nx, dx);
    DividesByWitness(dx, nx * dy, ny);
    EuclidLemma(dx, nx, dy);
  }

  /** Equal values give the same canonical object. */
  lemma ValueDetermines(x: Rational, y: Rational)
    requires Value(x) == Value(y)
    ensures x == y
  {
    NumDenReduced(x);
    NumDenReduced(y);
    RealFracEq(Num(x), Den(x), Num(y), Den(y));
    CanonicalUnique(x, y);
  }

  /** `Rat(num, den)`: a zero denominator is a kernel error. */
  function MakeRat(n: int, d: int): (r: Result<Rational>)
    ensures r.Failure? <==> d == 0
    ensures r.Success? ==> Den(r.value) > 0 && Gcd(Num(r.value), Den(r.value)) == 1
    ensures r.Success? ==> Value(r.value) == n as real / d as real
  {
    if d == 0 then Failure(DivisionByZero)
    else
      NumDenReduced(Frac(n, d));
      FracValue(n, d);
      Success(Frac(n, d))
  }

  /** `Rat(const Int& i)`: `Rat(i, 1)`. */
  function FromInt(i: int): (r: Rational)
    ensures r == IntRat(i) && Value(r) == i as real
  {
    var r := Frac(i, 1);
    GcdWithOne(i);
    CanonicalUnique(r, IntRat(i));
    r
  }

  /** `Rat(GAP_Int8 i)`: `Rat(Int(i))`, so machine integers embed with denominator 1. */
  function FromInt64(i: int64): (r: Rational)
    ensures r == FromInt(i) && Den(r) == 1
  {
    FromInt(i)
  }

  /** Integers embed as rationals that `isRat` accepts, with denominator 1. */
  lemma IntegersAreRationals(i: int)
    ensures IsRat(FromInt(i)) && Num(FromInt(i)) == i && Den(FromInt(i)) == 1
    ensures MakeRat(i, 1) == Success(FromInt(i))
  {
  }

  /** `Rat(2, 4) == Rat(1, 2)`: equal values, equal objects. */
  lemma EqualFractionsExample()
    ensures MakeRat(2, 4) == MakeRat(1, 2)
    ensures MakeRat(2, 4).value == FracRat(1, 2)
  {
    var h := FracRat(1, 2);
    GcdWithOne(2);
    GcdSymmetric(1, 2);
    assert Gcd(1, 2) == 1 by {
      CoprimeByCombination(1, 2, 1, 0);
    }
    FracValue(2, 4);
    FracValue(1, 2);
    assert 2.0 / 4.0 == 1.0 / 2.0;
    ValueDetermines(Frac(2, 4), h);
    ValueDetermines(Frac(1, 2), h);
  }

  // ---------------------------------------------------------------------
  // Comparison

  /** `opL == opR` (`EqRat`): the kernel compares numerators and denominators. */
  predicate Equal(x: Rational, y: Rational) {
    Num(x) == Num(y) && Den(x) == Den(y)
  }

  /** `opL < opR` (`LtRat`): compares by cross multiplication. */
  predicate Less(x: Rational, y: Rational) {
    Num(x) * Den(y) < Num(y) * Den(x)
  }

  /** `==` is equality of values. */
  lemma EqualIsValueEquality(x: Rational, y: Rational)
    ensures Equal(x, y) <==> Value(x) == Value(y)
  {
    if Value(x) == Value(y) {
      ValueDetermines(x, y);
    }
  }

  /** `<` is the strict order of values. */
  lemma LessIsValueOrder(x: Rational, y: Rational)
    ensures Less(x, y) <==> Value(x) < Value(y)
  {
    NumDenReduced(x);
    NumDenReduced(y);
    RealFracLt(Num(x), Den(x), Num(y), Den(y));
  }

  // ---------------------------------------------------------------------
  // Arithmetic

  lemma SumValue(x: Rational, y: Rational, r: Rational)
    requires Num(r) * (Den(x) * Den(y)) == (Num(x) * Den(y) + Num(y) * Den(x)) * Den(r)
    ensures Value(r) == Value(x) + Value(y)
  {
    NumDenReduced(x);
    NumDenReduced(y);
    NumDenReduced(r);
    SumReal(Num(x), Den(x), Num(y), Den(y), Num(r), Den(r), Value(x), Value(y));
  }

  lemma SumReal(a: int, b: int, c: int, d: int, rn: int, rd: int, u: real, v: real)
    requires b > 0 && d > 0 && rd > 0 && rn * (b * d) == (a * d + c * b) * rd
    requires u == a as real / b as real && v == c as real / d as real
    ensures rn as real / rd as real == u + v
  {
    PositiveProduct(b, d);
    RealFracEq(rn, rd, a * d + c * b, b * d);
    RealFracAdd(a, b, c, d);
  }

  lemma DifferenceValue(x: Rational, y: Rational, r: Rational)
    requires Num(r) * (Den(x) * Den(y)) == (Num(x) * Den(y) - Num(y) * Den(x)) * Den(r)
    ensures Value(r) == Value(x) - Value(y)
  {
    NumDenReduced(x);
    NumDenReduced(y);
    NumDenReduced(r);
    DifferenceReal(Num(x), Den(x), Num(y), Den(y), Num(r), Den(r), Value(x), Value(y));
  }

  lemma DifferenceReal(a: int, b: int, c: int, d: int, rn: int, rd: int, u: real, v: real)
    requires b > 0 && d > 0 && rd > 0 && rn * (b * d) == (a * d - c * b) * rd
    requires u == a as real / b as real && v == c as real / d as real
    ensures rn as real / rd as real == u - v
  {
    assert a * d - c * b == a * d + (-c) * b;
    NegativeFraction(c, d);
    SumReal(a, b, -c, d, rn, rd, u, -v);
  }

  /** A negated numerator negates the fraction. */
  lemma NegativeFraction(n: int, d: int)
    requires d > 0
    ensures (-n) as real / d as real == -(n as real / d as real)
  {
  }

  lemma ProductValue(x: Rational, y: Rational, r: Rational)
    requires Num(r) * (Den(x) * Den(y)) == (Num(x) * Num(y)) * Den(r)
    ensures Value(r) == Value(x) * Value(y)
  {
    NumDenReduced(x);
    NumDenReduced(y);
    NumDenReduced(r);
    ProductReal(Num(x), Den(x), Num(y), Den(y), Num(r), Den(r), Value(x), Value(y));
  }

  lemma ProductReal(a: int, b: int, c: int, d: int, rn: int, rd: int, u: real, v: real)
    requires b > 0 && d > 0 && rd > 0 && rn * (b * d) == (a * c) * rd
    requires u == a as real / b as real && v == c as real / d as real
    ensures rn as real / rd as real == u * v
  {
    PositiveProduct(b, d);
    RealFracEq(rn, rd, a * c, b * d);
    RealFracMul(a, b, c, d);
    MulCongruence(u, v, a as real / b as real, c as real / d as real);
  }

  lemma MulCongruence(p: real, q: real, u: real, v: real)
    requires p == u && q == v
    ensures p * q == u * v
  {
  }

  /** `SumRat`: the reduced sum. */
  function Add(x: Rational, y: Rational): (r: Rational)
    ensures Value(r) == Value(x) + Value(y)
  {
    NumDenReduced(x);
    NumDenReduced(y);
    PositiveProduct(Den(x), Den(y));
    var r := Frac(Num(x) * Den(y) + Num(y) * Den(x), Den(x) * Den(y));
    SumValue(x, y, r);
    r
  }

  /** `DiffRat`: the reduced difference. */
  function Sub(x: Rational, y: Rational): (r: Rational)
    ensures Value(r) == Value(x) - Value(y)
  {
    NumDenReduced(x);
    NumDenReduced(y);
    PositiveProduct(Den(x), Den(y));
    var r := Frac(Num(x) * Den(y) - Num(y) * Den(x), Den(x) * Den(y));
    DifferenceValue(x, y, r);
    r
  }

  /** `ProdRat`: the reduced product. */
  function Mul(x: Rational, y: Rational): (r: Rational)
    ensures Value(r) == Value(x) * Value(y)
  {
    NumDenReduced(x);
    NumDenReduced(y);
    PositiveProduct(Den(x), Den(y));
    var r := Frac(Num(x) * Num(y), Den(x) * Den(y));
    ProductValue(x, y, r);
    r
  }

  /** Unary `-` (`AInvRat`): negates the numerator and keeps the denominator. */
  function Neg(x: Rational): (r: Rational)
    ensures Num(r) == -Num(x) && Den(r) == Den(x)
    ensures Value(r) == -Value(x)
  {
    match x
    case IntRat(i) => IntRat(-i)
    case FracRat(n, d) =>
      assert Abs(-n) == Abs(n);
      FracRat(-n, d)
  }

  /** Unary minus is the additive inverse. */
  lemma AddNeg(x: Rational)
    ensures Add(x, Neg(x)) == IntRat(0)
  {
    var r := Add(x, Neg(x));
    assert Value(r) == 0.0;
    assert Value(IntRat(0)) == 0.0;
    ValueDetermines(r, IntRat(0));
  }

  /** Subtraction is addition of the additive inverse. */
  lemma SubIsAddNeg(x: Rational, y: Rational)
    ensures Sub(x, y) == Add(x, Neg(y))
  {
    ValueDetermines(Sub(x, y), Add(x, Neg(y)));
  }

  // ---------------------------------------------------------------------
  // Text

  /** `toString(base)`: the numerator's and the denominator's numerals joined by " / ". */
  function ToString(r: Rational, base: int): (s: Result<string>)
    ensures s.Failure? <==> !Numerals.ValidBase(base)
    ensures s.Success? ==>
      s.value == GapInt.ToString(Num(r), base).value + " / " + GapInt.ToString(Den(r), base).value
  {
    if Numerals.ValidBase(base) then
      Success(GapInt.ToString(Num(r), base).value + " / " + GapInt.ToString(Den(r), base).value)
    else
      Failure(BadBase)
  }

  /**
   * The text of a rational can be read back: its only '/' follows the
   * numerator's numeral, and the two sides parse to `num()` and `den()`.
   */
  lemma ToStringReadBack(r: Rational, base: int)
    requires Numerals.ValidBase(base)
    ensures var s := ToString(r, base).value;
      var k := |Numerals.Render(Num(r), base)|;
      k + 3 <= |s| && s[k..k + 3] == " / " &&
      (forall j :: 0 <= j < |s| && s[j] == '/' ==> j == k + 1) &&
      Numerals.Parse(s[..k], base) == Num(r) &&
      Numerals.Parse(s[k + 3..], base) == Den(r)
  {
    var nt, dt := Numerals.Render(Num(r), base), Numerals.Render(Den(r), base);
    var s := ToString(r, base).value;
    var k := |nt|;
    assert s == nt + " / " + dt;
    assert s[..k] == nt;
    assert s[k + 3..] == dt;
    Numerals.RenderRoundTrip(Num(r), base);
    Numerals.RenderRoundTrip(Den(r), base);
    forall j | 0 <= j < |s| && s[j] == '/' ensures j == k + 1 {
    }
  }

  /**
   * `os << r`: keeps what the stream held and appends the text of `r` in the
   * base the stream's flags choose, as for `Int`; the appended text reads
   * back as `num()`, " / " and `den()`.
   */
  function WriteRat(os: string, f: GapInt.FmtFlags, r: Rational): (out: string)
    ensures |os| <= |out| && out[..|os|] == os
    ensures var s, base := out[|os|..], GapInt.StreamBase(f);
      var k := |Numerals.Render(Num(r), base)|;
      k + 3 <= |s| && s[k..k + 3] == " / " &&
      Numerals.Parse(s[..k], base) == Num(r) && Numerals.Parse(s[k + 3..], base) == Den(r)
  {
    var base := GapInt.StreamBase(f);
    ToStringReadBack(r, base);
    var out := os + ToString(r, base).value;
    assert out[|os|..] == ToString(r, base).value;
    out
  }

  // ---------------------------------------------------------------------
  // The handle

  /**
   * A `Gap::Rat` variable. `+=`, `-=` and `*=` rebind the wrapped value to
   * the reduced result; the binary operators work on a copy of the left
   * operand.
   */
  class Rat {
    var value: Rational

    /** `Rat(GAP_Int8 i = 0)`. */
    constructor (i: int64)
      ensures value == FromInt64(i)
    {
      value := FromInt64(i);
    }

    /** `Rat(const Int& i)`. */
    constructor OfInt(i: GapInt.Int)
      ensures value == FromInt(i.value)
    {
      value := FromInt(i.value);
    }

    /** The copy constructor. */
    constructor Copy(other: Rat)
      ensures value == other.value
    {
      value := other.value;
    }

    /** `Rat(num, den)`: no object when the kernel rejects a zero denominator. */
    static method Make(num: GapInt.Int, den: GapInt.Int) returns (r: Rat?)
      ensures r == null <==> den.value == 0
      ensures r != null ==> fresh(r) && MakeRat(num.value, den.value) == Success(r.value)
    {
      var m := MakeRat(num.value, den.value);
      if m.Failure? {
        r := null;
      } else {
        r := new Rat(0);
        r.value := m.value;
      }
    }

    /** `*this += opR`. */
    method AddAssign(opR: Rat)
      modifies this
      ensures value == Add(old(value), old(opR.value))
      ensures opR != this ==> opR.value == old(opR.value)
    {
      value := Add(value, opR.value);
    }

    /** `*this -= opR`. */
    method SubAssign(opR: Rat)
      modifies this
      ensures value == Sub(old(value), old(opR.value))
      ensures opR != this ==> opR.value == old(opR.value)
    {
      value := Sub(value, opR.value);
    }

    /** `*this *= opR`. */
    method MulAssign(opR: Rat)
      modifies this
      ensures value == Mul(old(value), old(opR.value))
      ensures opR != this ==> opR.value == old(opR.value)
    {
      value := Mul(value, opR.value);
    }

    /** Unary `-`. */
    method Negated() returns (r: Rat)
      ensures fresh(r) && r.value == Neg(value)
    {
      r := new Rat.Copy(this);
      r.value := Neg(value);
    }

    /** `opL + opR`. */
    static method Plus(opL: Rat, opR: Rat) returns (r: Rat)
      ensures fresh(r) && r.value == Add(opL.value, opR.value)
    {
      r := new Rat.Copy(opL);
      r.AddAssign(opR);
    }

    /** `opL - opR`. */
    static method Minus(opL: Rat, opR: Rat) returns (r: Rat)
      ensures fresh(r) && r.value == Sub(opL.value, opR.value)
    {
      r := new Rat.Copy(opL);
      r.SubAssign(opR);
    }

    /** `opL * opR`. */
    static method Times(opL: Rat, opR: Rat) returns (r: Rat)
      ensures fresh(r) && r.value == Mul(opL.value, opR.value)
      ensures Value(r.value) == Value(opL.value) * Value(opR.value)
    {
      r := new Rat.Copy(opL);
      r.MulAssign(opR);
    }
  }
}
