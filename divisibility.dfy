/**
 * Divisibility, greatest common divisors and Bezout's identity: the
 * mathematical meaning the model gives to the kernel's `GcdInt`, `LcmInt`,
 * `ModInt`, `InverseModInt` and to the reduction of fractions.
 */
module Divisibility {

  function Abs(a: int): (r: int)
    ensures r >= 0
    ensures r == a || r == -a
    ensures a >= 0 ==> r == a
  {
    if a < 0 then -a else a
  }

  /** The magnitude of a product is the product of the magnitudes. */
  lemma AbsProduct(x: int, y: int)
    ensures Abs(x * y) == Abs(x) * Abs(y)
  {
    if x < 0 {
      assert x * y == -((-x) * y);
    }
    if y < 0 {
      assert x * y == -(x * (-y));
    }
    if x < 0 && y < 0 {
      assert x * y == (-x) * (-y);
    }
  }

  /** `d` divides `a`; zero divides only zero. */
  predicate Divides(d: int, a: int) {
    if d == 0 then a == 0 else a % d == 0
  }

  /** Euclid's algorithm on magnitudes. */
  function GcdNat(a: nat, b: nat): nat
    decreases b
  {
    if b == 0 then a else GcdNat(b, a % b)
  }

  /** The non-negative greatest common divisor; `Gcd(0, 0) == 0`. */
  function Gcd(a: int, b: int): (g: nat)
    ensures Divides(g, a) && Divides(g, b)
    ensures g == 0 <==> a == 0 && b == 0
  {
    GcdDivides(a, b);
    GcdZero(a, b);
    GcdNat(Abs(a), Abs(b))
  }

  // ---------------------------------------------------------------------
  // Quotient and remainder

  /** Multiplication of naturals is monotone in both factors. */
  lemma MulBoth(a: nat, b: nat, c: nat, d: nat)
    requires a <= c && b <= d
    ensures a * b <= c * d
  {
    assert a * b <= c * b <= c * d;
  }

  lemma MulAtLeast(m: int, d: int)
    requires m >= 1 && d > 0
    ensures m * d >= d
  {
    assert m * d == (m - 1) * d + d;
    assert (m - 1) * d >= 0;
  }

  /** Division and remainder recompose the dividend. */
  lemma DivMod(a: int, d: int)
    requires d != 0
    ensures a == (a / d) * d + a % d && 0 <= a % d < Abs(d)
  {
  }

  /** Euclidean quotient and remainder are unique. */
  lemma DivModUnique(a: int, d: int, q: int, r: int)
    requires d != 0 && a == q * d + r && 0 <= r < Abs(d)
    ensures a / d == q && a % d == r
  {
    var q', r' := a / d, a % d;
    assert a == q' * d + r';
    var m := q - q';
    assert m * d == r' - r by {
      assert q * d - q' * d == r' - r;
      assert (q - q') * d == q * d - q' * d;
    }
    var md := if d > 0 then d else -d;
    assert m * md == r' - r || m * md == r - r' by {
      assert m * (-d) == -(m * d);
    }
    if m > 0 {
      MulAtLeast(m, md);
    } else if m < 0 {
      MulAtLeast(-m, md);
    }
  }

  /** Dividing by a base of at least 2 strictly shrinks a number that is at least the base. */
  lemma QuotientShrinks(n: nat, b: int)
    requires 2 <= b <= n
    ensures 1 <= n / b < n
  {
    var q, r := n / b, n % b;
    assert n == q * b + r && 0 <= r < b;
    assert q >= 1;
    assert q * b >= 2 * q by {
      assert q * b == q * (b - 2) + 2 * q;
      assert q * (b - 2) >= 0;
    }
  }

  // ---------------------------------------------------------------------
  // Divisibility facts

  lemma DividesByWitness(d: int, a: int, k: int)
    requires a == k * d
    ensures Divides(d, a)
  {
    if d != 0 {
      DivModUnique(a, d, k, 0);
    }
  }

  lemma DividesWitness(d: int, a: int) returns (k: int)
    requires Divides(d, a)
    ensures a == k * d
  {
    if d == 0 {
      k := 0;
    } else {
      k := a / d;
      assert a == (a / d) * d + a % d;
    }
  }

  lemma DividesLinear(g: int, x: int, y: int, s: int, t: int)
    requires Divides(g, x) && Divides(g, y)
    ensures Divides(g, s * x + t * y)
  {
    var kx := DividesWitness(g, x);
    var ky := DividesWitness(g, y);
    assert s * x + t * y == (s * kx + t * ky) * g by {
      assert s * x == s * kx * g;
      assert t * y == t * ky * g;
    }
    DividesByWitness(g, s * x + t * y, s * kx + t * ky);
  }

  lemma DividesRefl(a: int)
    ensures Divides(a, a) && Divides(a, 0) && Divides(1, a)
  {
    DividesByWitness(a, a, 1);
    DividesByWitness(a, 0, 0);
    DividesByWitness(1, a, a);
  }

  lemma DividesNeg(d: int, a: int)
    requires Divides(d, a)
    ensures Divides(d, -a) && Divides(-d, a) && Divides(Abs(d), Abs(a))
  {
    var k := DividesWitness(d, a);
    DividesByWitness(d, -a, -k);
    DividesByWitness(-d, a, -k);
    if d >= 0 && a >= 0 {
      DividesByWitness(Abs(d), Abs(a), k);
    } else if d >= 0 {
      DividesByWitness(Abs(d), Abs(a), -k);
    } else if a >= 0 {
      DividesByWitness(Abs(d), Abs(a), -k);
    } else {
      DividesByWitness(Abs(d), Abs(a), k);
    }
  }

  lemma DividesAbs(d: int, a: int)
    requires Divides(Abs(d), Abs(a))
    ensures Divides(d, a)
  {
    var k := DividesWitness(Abs(d), Abs(a));
    if d >= 0 && a >= 0 {
      DividesByWitness(d, a, k);
    } else if d >= 0 {
      DividesByWitness(d, a, -k);
    } else if a >= 0 {
      DividesByWitness(d, a, -k);
    } else {
      DividesByWitness(d, a, k);
    }
  }

  /** Divisibility depends only on the magnitude of the divisor. */
  lemma DividesAbsDivisor(d: int, a: int)
    requires Divides(Abs(d), a)
    ensures Divides(d, a)
  {
    var k := DividesWitness(Abs(d), a);
    if d >= 0 {
      DividesByWitness(d, a, k);
    } else {
      assert a == (-k) * d;
      DividesByWitness(d, a, -k);
    }
  }

  /** Division by a divisor is exact. */
  lemma QuotientExact(g: int, a: int)
    requires g != 0 && Divides(g, a)
    ensures a == (a / g) * g
  {
  }

  /** A non-zero factor cancels. */
  lemma CancelFactor(g: int, x: int, y: int)
    requires g != 0 && g * x == g * y
    ensures x == y
  {
    assert g * (x - y) == 0;
  }

  lemma DividesTrans(a: int, b: int, c: int)
    requires Divides(a, b) && Divides(b, c)
    ensures Divides(a, c)
  {
    var k := DividesWitness(a, b);
    var l := DividesWitness(b, c);
    assert c == (l * k) * a;
    DividesByWitness(a, c, l * k);
  }

  /** A non-zero multiple is at least as large as the divisor. */
  lemma DividesBound(d: int, a: int)
    requires Divides(d, a) && a != 0
    ensures Abs(d) <= Abs(a)
  {
    DividesNeg(d, a);
    var k := DividesWitness(Abs(d), Abs(a));
    assert k >= 1;
    if Abs(d) > 0 {
      MulAtLeast(k, Abs(d));
    }
  }

  lemma DividesOne(d: int)
    requires Divides(d, 1) && d >= 0
    ensures d == 1
  {
    DividesBound(d, 1);
  }

  // ---------------------------------------------------------------------
  // Euclid's algorithm

  lemma {:induction false} GcdNatDivides(a: nat, b: nat)
    ensures Divides(GcdNat(a, b), a) && Divides(GcdNat(a, b), b)
    decreases b
  {
    if b == 0 {
      DividesRefl(a);
    } else {
      var g := GcdNat(b, a % b);
      GcdNatDivides(b, a % b);
      assert a == (a / b) * b + 1 * (a % b);
      DividesLinear(g, b, a % b, a / b, 1);
    }
  }

  lemma {:induction false} GcdNatGreatest(a: nat, b: nat, c: int)
    requires Divides(c, a) && Divides(c, b)
    ensures Divides(c, GcdNat(a, b))
    decreases b
  {
    if b > 0 {
      assert a % b == 1 * a + (-(a / b)) * b;
      DividesLinear(c, a, b, 1, -(a / b));
      GcdNatGreatest(b, a % b, c);
    }
  }

  lemma {:induction false} BezoutNat(a: nat, b: nat) returns (x: int, y: int)
    ensures GcdNat(a, b) == a * x + b * y
    decreases b
  {
    if b == 0 {
      x, y := 1, 0;
    } else {
      var x', y' := BezoutNat(b, a % b);
      var q := a / b;
      assert a % b == a - q * b;
      x, y := y', x' - q * y';
      calc {
        GcdNat(a, b);
        b * x' + (a % b) * y';
        b * x' + (a - q * b) * y';
        a * y' + b * (x' - q * y');
      }
    }
  }

  lemma GcdDivides(a: int, b: int)
    ensures Divides(GcdNat(Abs(a), Abs(b)), a) && Divides(GcdNat(Abs(a), Abs(b)), b)
  {
    var g := GcdNat(Abs(a), Abs(b));
    GcdNatDivides(Abs(a), Abs(b));
    DividesNeg(g, Abs(a));
    DividesNeg(g, Abs(b));
    DividesAbs(g, a);
    DividesAbs(g, b);
  }

  lemma GcdZero(a: int, b: int)
    ensures GcdNat(Abs(a), Abs(b)) == 0 <==> a == 0 && b == 0
  {
    GcdDivides(a, b);
    if a == 0 && b == 0 {
      assert GcdNat(0, 0) == 0;
    }
  }

  /** Every common divisor divides the gcd. */
  lemma GcdGreatest(a: int, b: int, c: int)
    requires Divides(c, a) && Divides(c, b)
    ensures Divides(c, Gcd(a, b))
  {
    DividesNeg(c, a);
    DividesNeg(c, b);
    DividesAbs(c, Abs(a));
    DividesAbs(c, Abs(b));
    GcdNatGreatest(Abs(a), Abs(b), c);
  }

  /** The gcd does not depend on the order of the operands. */
  lemma GcdSymmetric(a: int, b: int)
    ensures Gcd(a, b) == Gcd(b, a)
  {
    GcdGreatest(a, b, Gcd(b, a));
    GcdGreatest(b, a, Gcd(a, b));
    if Gcd(a, b) != 0 {
      MutualDivision(Gcd(a, b), Gcd(b, a));
    }
  }

  /** Bezout's identity: the gcd is an integer combination of the operands. */
  lemma Bezout(a: int, b: int) returns (x: int, y: int)
    ensures Gcd(a, b) == a * x + b * y
  {
    var x', y' := BezoutNat(Abs(a), Abs(b));
    x := if a < 0 then -x' else x';
    y := if b < 0 then -y' else y';
    assert Abs(a) * x' == a * x;
    assert Abs(b) * y' == b * y;
  }

  /** If some combination of `a` and `b` is 1, they are coprime. */
  lemma CoprimeByCombination(a: int, b: int, x: int, y: int)
    requires a * x + b * y == 1
    ensures Gcd(a, b) == 1
  {
    var g := Gcd(a, b);
    DividesLinear(g, a, b, x, y);
    DividesOne(g);
  }

  /** Dividing out the gcd leaves coprime parts. */
  lemma CoprimeQuotients(a: int, b: int)
    requires b != 0
    ensures Divides(Gcd(a, b), a) && Divides(Gcd(a, b), b)
    ensures Gcd(a / Gcd(a, b), b / Gcd(a, b)) == 1
  {
    var g := Gcd(a, b);
    var x, y := Bezout(a, b);
    var a', b' := a / g, b / g;
    assert a == a' * g && b == b' * g;
    assert g * (a' * x + b' * y) == g * 1 by {
      assert a * x == (a' * x) * g;
      assert b * y == (b' * y) * g;
    }
    assert a' * x + b' * y == 1;
    CoprimeByCombination(a', b', x, y);
  }

  lemma SpreadFactor(d: int, a: int, e: int, x: int, y: int)
    requires d * x + a * y == 1
    ensures e == (e * x) * d + y * (a * e)
  {
    assert (d * x + a * y) * e == e;
  }

  /** Euclid's lemma: a divisor of a product that is coprime to one factor divides the other. */
  lemma EuclidLemma(d: int, a: int, e: int)
    requires Gcd(d, a) == 1 && Divides(d, a * e)
    ensures Divides(d, e)
  {
    var x, y := Bezout(d, a);
    SpreadFactor(d, a, e, x, y);
    DividesByWitness(d, d, 1);
    DividesLinear(d, d, a * e, e * x, y);
  }

  /** Two positive numbers that divide each other are equal. */
  lemma MutualDivision(a: int, b: int)
    requires a > 0 && b > 0 && Divides(a, b) && Divides(b, a)
    ensures a == b
  {
    DividesBound(a, b);
    DividesBound(b, a);
  }
}
