/**
 * `Gap::Int` (libgap/include/gap/int.h): the C++ handle on a GAP integer.
 *
 * Every operator forwards to a kernel routine (`GAP_SumInt`, `QuoInt`,
 * `ModInt`, `InverseModInt`, ...). The kernel is not part of this model: its
 * routines are given their mathematical meaning here, over Dafny's unbounded
 * `int`, and the limb encoding and immediate/large representations are not
 * modelled. Quotient and remainder are taken to be the kernel's truncating
 * quotient and dividend-signed remainder.
 *
 * The pure part of the header (predicates, `pow`, `abs`, `sign`, `mod`,
 * `invMod`, `gcd`, `lcm`, `binomial`, stream output) are functions; the
 * compound assignments, which rebind the handle in place, are methods of the
 * class `Int` at the end.
 */
module GapInt {

  import opened Divisibility
  import opened Machine
  import opened Outcomes
  import Numerals

  // ---------------------------------------------------------------------
  // What an `Int` handle can hold

  /**
   * The kernel object an `Int` wraps: an integer or, after a failed
   * `invMod`, the kernel's `fail` sentinel, which the wrapper wraps as an
   * `Int` without checking.
   */
  datatype IntObj = IntValue(value: int) | FailSentinel

  /** `isInt`: the wrapped object is an integer (immediate or large). */
  predicate IsInt(o: IntObj) {
    o.IntValue?
  }

  // ---------------------------------------------------------------------
  // Construction from limbs

  /**
   * One limb is one `GAP_UInt`, a 64-bit word. The limb order is the
   * kernel's; this model takes it to be least significant first, as in GMP.
   */
  const LimbBase: nat := U64

  /** The magnitude denoted by a limb sequence, least significant limb first. */
  function Magnitude(limbs: seq<u64>): nat {
    if limbs == [] then 0 else limbs[0] + LimbBase * Magnitude(limbs[1..])
  }

  /**
   * `Int(limbs, size)` (`MakeObjInt`): `|size|` limbs give the magnitude and
   * the sign of `size` gives the sign; `size == 0` gives 0.
   */
  function FromLimbs(limbs: seq<u64>, size: int64): (r: int)
    requires Abs(size) <= |limbs|
    ensures size == 0 ==> r == 0
    ensures size > 0 ==> r >= 0
    ensures size < 0 ==> r <= 0
    ensures r != 0 <==> exists k :: 0 <= k < Abs(size) && limbs[k] != 0
  {
    var m: int := Magnitude(limbs[..Abs(size)]);
    MagnitudeZero(limbs[..Abs(size)]);
    if size < 0 then -m else m
  }

  lemma {:induction false} MagnitudeZero(limbs: seq<u64>)
    ensures Magnitude(limbs) == 0 <==> forall k :: 0 <= k < |limbs| ==> limbs[k] == 0
  {
    if limbs != [] {
      MagnitudeZero(limbs[1..]);
      if Magnitude(limbs) == 0 {
        assert limbs[0] == 0 && Magnitude(limbs[1..]) == 0;
        forall k | 0 <= k < |limbs| ensures limbs[k] == 0 {
          if k > 0 {
            assert limbs[k] == limbs[1..][k - 1];
          }
        }
      } else {
        assert limbs[0] != 0 || Magnitude(limbs[1..]) != 0;
        if limbs[0] == 0 {
          var j :| 0 <= j < |limbs[1..]| && limbs[1..][j] != 0;
          assert limbs[j + 1] != 0;
        }
      }
    }
  }

  /** Zero limbs appended at the most significant end do not change the magnitude. */
  lemma {:induction false} MagnitudeAppendZeros(limbs: seq<u64>, zeros: seq<u64>)
    requires forall k :: 0 <= k < |zeros| ==> zeros[k] == 0
    ensures Magnitude(limbs + zeros) == Magnitude(limbs)
  {
    if limbs == [] {
      assert limbs + zeros == zeros;
      MagnitudeZero(zeros);
    } else {
      assert (limbs + zeros)[1..] == limbs[1..] + zeros;
      MagnitudeAppendZeros(limbs[1..], zeros);
    }
  }

  /**
   * Leading zero limbs do not affect the value: counting `extra` more limbs,
   * all of them zero, gives the same integer as long as `size` is not zero.
   */
  lemma LeadingZeroLimbs(limbs: seq<u64>, size: int64, extra: nat)
    requires size != 0 && Abs(size) + extra <= |limbs| && Abs(size) + extra < I64Bound
    requires forall k :: Abs(size) <= k < Abs(size) + extra ==> limbs[k] == 0
    ensures FromLimbs(limbs, if size > 0 then size + extra else size - extra) == FromLimbs(limbs, size)
  {
    var n := Abs(size);
    var zeros := limbs[n..n + extra];
    assert limbs[..n + extra] == limbs[..n] + zeros;
    forall k | 0 <= k < |zeros| ensures zeros[k] == 0 {
      assert zeros[k] == limbs[n + k];
    }
    MagnitudeAppendZeros(limbs[..n], zeros);
  }

  // ---------------------------------------------------------------------
  // Predicates and comparison

  /** `isNeg` (`IS_NEG_INT`). */
  predicate IsNeg(a: int) {
    a < 0
  }

  /** `isPos` (`IS_POS_INT`). */
  predicate IsPos(a: int) {
    a > 0
  }

  /** `isOdd` (`IS_ODD_INT`); negative numbers are odd exactly when their magnitude is. */
  predicate IsOdd(a: int) {
    a % 2 == 1
  }

  /** `isEven`: the wrapper tests `IS_ODD_INT(gapObj) == 0`. */
  predicate IsEven(a: int) {
    !IsOdd(a)
  }

  /** `opL == opR` (`EqInt`): value equality. */
  predicate Equal(a: int, b: int) {
    a == b
  }

  /** `opL < opR` (`LtInt`). */
  predicate Less(a: int, b: int) {
    a < b
  }

  /**
   * Parity: `isEven` is the negation of `isOdd`, even means divisible by 2,
   * zero is even, and `a` and `-a` have the same parity.
   */
  lemma ParityMeaning(a: int)
    ensures IsEven(a) <==> !IsOdd(a)
    ensures IsEven(a) <==> Divides(2, a)
    ensures IsOdd(a) <==> IsOdd(-a)
    ensures IsEven(0)
  {
  }

  /** `==` and `<` form a strict total order consistent with `sign`. */
  lemma OrderConsistent(a: int, b: int, c: int)
    ensures Less(a, b) || Equal(a, b) || Less(b, a)
    ensures !(Less(a, b) && Less(b, a)) && !Less(a, a)
    ensures Less(a, b) && Less(b, c) ==> Less(a, c)
    ensures Less(a, b) <==> Sign(b - a) == Success(1)
    ensures Equal(a, b) <==> Sign(a - b) == Success(0)
  {
  }

  // ---------------------------------------------------------------------
  // Quotient and remainder (`/`, `%`)

  /**
   * The kernel's truncating quotient: rounds toward zero, so the remainder
   * `a - q * b` is smaller than the divisor and takes the sign of `a`.
   */
  function TruncQuo(a: int, b: int): (q: int)
    requires b != 0
    ensures a >= 0 ==> 0 <= a - q * b < Abs(b)
    ensures a < 0 ==> -Abs(b) < a - q * b <= 0
  {
    var m := Abs(a) / Abs(b);
    TruncQuoBounds(a, b, m);
    if (a < 0) == (b < 0) then m else -m
  }

  lemma TruncQuoBounds(a: int, b: int, m: int)
    requires b != 0 && m == Abs(a) / Abs(b)
    ensures var q := if (a < 0) == (b < 0) then m else -m;
      (a >= 0 ==> 0 <= a - q * b < Abs(b)) && (a < 0 ==> -Abs(b) < a - q * b <= 0)
  {
    var B := Abs(b);
    var r := Abs(a) % B;
    var p := m * B;
    assert Abs(a) == p + r && 0 <= r < B;
    if b > 0 {
      assert m * b == p;
      assert (-m) * b == -p;
    } else {
      assert m * b == -p by {
        assert b == -B;
      }
      assert (-m) * b == p by {
        assert b == -B;
      }
    }
  }

  /** The kernel's remainder `a - TruncQuo(a, b) * b`. */
  function TruncRem(a: int, b: int): (r: int)
    requires b != 0
    ensures a >= 0 ==> 0 <= r < Abs(b)
    ensures a < 0 ==> -Abs(b) < r <= 0
  {
    a - TruncQuo(a, b) * b
  }

  /** `opL / opR` (`QuoInt`); a zero divisor is a kernel error. */
  function Quo(a: int, b: int): (r: Result<int>)
    ensures r.Failure? <==> b == 0
    ensures r.Success? && a >= 0 ==> 0 <= a - r.value * b < Abs(b)
    ensures r.Success? && a < 0 ==> -Abs(b) < a - r.value * b <= 0
  {
    if b == 0 then Failure(DivisionByZero) else Success(TruncQuo(a, b))
  }

  /** `opL % opR` (`GAP_RemInt`); a zero divisor is a kernel error. */
  function Rem(a: int, b: int): (r: Result<int>)
    ensures r.Failure? <==> b == 0
    ensures r.Success? ==> a == Quo(a, b).value * b + r.value
    ensures r.Success? && a >= 0 ==> 0 <= r.value < Abs(b)
    ensures r.Success? && a < 0 ==> -Abs(b) < r.value <= 0
  {
    if b == 0 then Failure(DivisionByZero) else Success(TruncRem(a, b))
  }

  /** A non-zero multiple of `b` is at least `|b|` away from zero. */
  lemma MultipleMagnitude(k: int, b: int)
    requires k != 0 && b != 0
    ensures k * b >= Abs(b) || k * b <= -Abs(b)
  {
    var B := Abs(b);
    var K := Abs(k);
    MulAtLeast(K, B);
    assert k * b == K * B || k * b == -(K * B) by {
      if k < 0 && b < 0 {
        assert k * b == (-k) * (-b);
      } else if k < 0 {
        assert k * b == -((-k) * b);
      } else if b < 0 {
        assert k * b == -(k * (-b));
      }
    }
  }

  /**
   * Quotient and remainder are determined by the division identity, the
   * bound on the remainder and the remainder taking the dividend's sign.
   */
  lemma QuoRemUnique(a: int, b: int, q: int, r: int)
    requires b != 0 && a == q * b + r
    requires a >= 0 ==> 0 <= r < Abs(b)
    requires a < 0 ==> -Abs(b) < r <= 0
    ensures Quo(a, b) == Success(q) && Rem(a, b) == Success(r)
  {
    var q' := TruncQuo(a, b);
    var r' := a - q' * b;
    assert (q - q') * b == r' - r by {
      assert q * b + r == q' * b + r';
    }
    if q != q' {
      MultipleMagnitude(q - q', b);
      assert false;
    }
  }

  /** On a non-negative dividend and a positive divisor, truncation is floor division. */
  lemma TruncMatchesEuclid(a: int, b: int)
    requires a >= 0 && b > 0
    ensures TruncQuo(a, b) == a / b && TruncRem(a, b) == a % b
  {
    var q := TruncQuo(a, b);
    DivModUnique(a, b, q, a - q * b);
  }

  /** An exact division truncates to the exact quotient. */
  lemma TruncExact(a: int, b: int, k: int)
    requires b != 0 && a == k * b
    ensures TruncQuo(a, b) == k
  {
    QuoRemUnique(a, b, k, 0);
  }

  // ---------------------------------------------------------------------
  // pow, abs, sign

  /** `pow(opL, opR)` (`PowInt`) for a non-negative exponent. */
  function Pow(a: int, e: nat): int {
    if e == 0 then 1 else a * Pow(a, e - 1)
  }

  /** Powers add exponents. */
  lemma {:induction false} PowAdd(a: int, m: nat, n: nat)
    ensures Pow(a, m + n) == Pow(a, m) * Pow(a, n)
  {
    if m > 0 {
      PowAdd(a, m - 1, n);
      calc {
        Pow(a, m + n);
        a * Pow(a, m - 1 + n);
        a * (Pow(a, m - 1) * Pow(a, n));
        (a * Pow(a, m - 1)) * Pow(a, n);
      }
    }
  }

  /** A positive base has a positive power. */
  lemma {:induction false} PowPositive(a: int, e: nat)
    requires a > 0
    ensures Pow(a, e) > 0
  {
    if e > 0 {
      PowPositive(a, e - 1);
    }
  }

  /** The kernel's answer to `SignInt`: an integer object. */
  function KernelSign(a: int): int {
    if a < 0 then -1 else if a == 0 then 0 else 1
  }

  const BadSignMessage: string := "Int::sign(): bad sign"

  /**
   * `Int::sign()`'s case analysis of the kernel's answer: 0, 1 and -1 are
   * passed on; any other answer throws `FailedOpException`.
   */
  function SignOf(answer: int): (r: Result<int>)
    ensures r.Success? <==> -1 <= answer <= 1
    ensures r.Success? ==> r.value == answer
    ensures r.Failure? ==> r.error == FailedOp(BadSignMessage)
  {
    if answer == 0 then Success(0)
    else if answer == 1 then Success(1)
    else if answer == -1 then Success(-1)
    else Failure(FailedOp(BadSignMessage))
  }

  /** `sign()`: -1, 0 or 1, agreeing with `isNeg` and `isPos`. */
  function Sign(a: int): (r: Result<int>)
    ensures r.Success?
    ensures r.value == -1 <==> IsNeg(a)
    ensures r.value == 1 <==> IsPos(a)
    ensures r.value == 0 <==> a == 0
  {
    SignOf(KernelSign(a))
  }

  // ---------------------------------------------------------------------
  // mod, invMod, lcm, binomial

  /** `mod(opL, opR)` (`ModInt`): the least non-negative residue. */
  function Mod(a: int, m: int): (r: Result<int>)
    ensures r.Failure? <==> m == 0
    ensures r.Success? ==> 0 <= r.value < Abs(m) && Divides(m, a - r.value)
  {
    if m == 0 then Failure(DivisionByZero)
    else
      var r := a % Abs(m);
      assert a - r == (a / Abs(m)) * Abs(m);
      DividesByWitness(Abs(m), a - r, a / Abs(m));
      DividesNeg(Abs(m), a - r);
      DividesAbs(m, a - r);
      Success(r)
  }

  /**
   * `mod` and `%` differ exactly for a negative remainder: the residue is
   * the remainder shifted by `|m|` into `[0, |m|)`.
   */
  lemma ModFromRem(a: int, m: int)
    requires m != 0
    ensures Mod(a, m).value == if Rem(a, m).value >= 0 then Rem(a, m).value else Rem(a, m).value + Abs(m)
  {
    var q, r := Quo(a, m).value, Rem(a, m).value;
    var M := Abs(m);
    var k := if m > 0 then q else -q;
    assert q * m == k * M;
    if r >= 0 {
      DivModUnique(a, M, k, r);
    } else {
      assert a == (k - 1) * M + (r + M);
      DivModUnique(a, M, k - 1, r + M);
    }
  }

  /** Whether `v` is an inverse of `a` modulo `m`. */
  predicate IsInverse(a: int, m: int, v: int) {
    Divides(m, a * v - 1)
  }

  /** Searches `[r, m)` for the least inverse of `a` modulo `m`. */
  function InverseSearch(a: int, m: nat, r: nat): (o: IntObj)
    requires m > 0 && r <= m
    ensures o.IntValue? ==> r <= o.value < m && IsInverse(a, m, o.value)
    ensures o.FailSentinel? ==> forall v :: r <= v < m ==> !IsInverse(a, m, v)
    decreases m - r
  {
    if r == m then FailSentinel
    else if IsInverse(a, m, r) then IntValue(r)
    else InverseSearch(a, m, r + 1)
  }

  /**
   * `invMod(base, mod)` (`InverseModInt`): the inverse in `[0, |mod|)`, or
   * the `fail` sentinel when there is none; a zero modulus is a kernel
   * error.
   */
  function InvMod(a: int, m: int): (r: Result<IntObj>)
    ensures r.Failure? <==> m == 0
    ensures r.Success? && r.value.IntValue? ==>
      0 <= r.value.value < Abs(m) && Divides(m, a * r.value.value - 1)
  {
    if m == 0 then Failure(DivisionByZero)
    else
      var o := InverseSearch(a, Abs(m), 0);
      if o.IntValue? then
        DividesAbsDivisor(m, a * o.value - 1);
        Success(o)
      else
        Success(o)
  }

  /** An inverse modulo `m` makes `a` and `m` coprime. */
  lemma InverseCoprime(a: int, m: int, v: int)
    requires m != 0 && IsInverse(a, Abs(m), v)
    ensures Gcd(a, m) == 1
  {
    var k := DividesWitness(Abs(m), a * v - 1);
    var t := if m > 0 then -k else k;
    assert k * Abs(m) == -(t * m);
    assert a * v + m * t == 1;
    CoprimeByCombination(a, m, v, t);
  }

  /** Bezout coefficients give an inverse, reduced into `[0, |m|)`. */
  lemma InverseFromBezout(a: int, m: int, x: int, y: int)
    requires m != 0 && a * x + m * y == 1
    ensures IsInverse(a, Abs(m), x % Abs(m))
  {
    var M := Abs(m);
    var q, v := x / M, x % M;
    assert x == q * M + v;
    var t := if m > 0 then y else -y;
    assert m * y == t * M;
    assert a * v == a * x - (a * q) * M by {
      assert a * x == a * (q * M) + a * v;
      assert a * (q * M) == (a * q) * M;
    }
    assert a * v - 1 == (-t - a * q) * M;
    DividesByWitness(M, a * v - 1, -t - a * q);
  }

  /**
   * `invMod` gives an integer (`isInt` holds) exactly when the value and the
   * modulus are coprime, and the `fail` sentinel otherwise.
   */
  lemma InvModExists(a: int, m: int)
    requires m != 0
    ensures IsInt(InvMod(a, m).value) <==> Gcd(a, m) == 1
  {
    var o := InverseSearch(a, Abs(m), 0);
    if o.IntValue? {
      InverseCoprime(a, m, o.value);
    } else if Gcd(a, m) == 1 {
      var x, y := Bezout(a, m);
      InverseFromBezout(a, m, x, y);
      assert false;
    }
  }

  /** `lcm(opL, opR)` (`LcmInt`): a non-negative common multiple, zero when an operand is. */
  function Lcm(a: int, b: int): (l: nat)
    ensures Divides(a, l) && Divides(b, l)
    ensures l == 0 <==> a == 0 || b == 0
  {
    if a == 0 || b == 0 then
      DividesRefl(a);
      DividesRefl(b);
      0
    else
      LcmFacts(a, b);
      Abs(a) / Gcd(a, b) * Abs(b)
  }

  lemma LcmFacts(a: int, b: int)
    requires a != 0 && b != 0
    ensures Gcd(a, b) > 0 && Abs(a) / Gcd(a, b) * Gcd(a, b) == Abs(a)
    ensures Abs(a) / Gcd(a, b) * Abs(b) > 0
    ensures Divides(a, Abs(a) / Gcd(a, b) * Abs(b)) && Divides(b, Abs(a) / Gcd(a, b) * Abs(b))
  {
    var g := Gcd(a, b);
    var kb := DividesWitness(g, b);
    DividesNeg(g, a);
    var ka := DividesWitness(g, Abs(a));
    DivModUnique(Abs(a), g, ka, 0);
    var l := Abs(a) / g * Abs(b);
    assert ka > 0 by {
      MulAtLeast(1, g);
    }
    assert Abs(b) == Abs(kb) * g;
    assert l == Abs(a) * Abs(kb) by {
      assert l == ka * (Abs(kb) * g);
    }
    DividesByWitness(Abs(a), l, Abs(kb));
    DividesByWitness(Abs(b), l, ka);
    DividesAbs(a, l);
    DividesAbs(b, l);
  }

  /** Gcd times lcm is the magnitude of the product. */
  lemma GcdLcmProduct(a: int, b: int)
    ensures Gcd(a, b) * Lcm(a, b) == Abs(a * b)
  {
    if a != 0 && b != 0 {
      LcmFacts(a, b);
      AbsProduct(a, b);
      CofactorProduct(Gcd(a, b), Abs(a) / Gcd(a, b), Abs(a), Abs(b));
    }
  }

  lemma CofactorProduct(g: int, ka: int, x: int, y: int)
    requires ka * g == x
    ensures g * (ka * y) == x * y
  {
    assert g * (ka * y) == (ka * g) * y;
  }

  /** With `g = Gcd(a, b)`, the lcm is `|a * (b / g)|`. */
  lemma LcmValue(a: int, b: int)
    requires a != 0 && b != 0
    ensures Lcm(a, b) == Abs(a * (b / Gcd(a, b)))
  {
    LcmFacts(a, b);
    CoprimeQuotients(a, b);
    QuotientExact(Gcd(a, b), b);
    LcmRegroup(Abs(a) / Gcd(a, b), b / Gcd(a, b), Gcd(a, b), a, b);
  }

  lemma LcmRegroup(ka: int, bq: int, g: int, a: int, b: int)
    requires g > 0 && ka * g == Abs(a) && b == bq * g
    ensures ka * Abs(b) == Abs(a * bq)
  {
    AbsProduct(bq, g);
    AbsProduct(a, bq);
    assert ka * (Abs(bq) * g) == (ka * g) * Abs(bq);
  }

  /** A common multiple of `a` and `b` is a multiple of `a * (b / Gcd(a, b))`. */
  lemma CofactorDivides(a: int, b: int, c: int)
    requires a != 0 && b != 0 && Divides(a, c) && Divides(b, c)
    ensures Divides(a * (b / Gcd(a, b)), c)
  {
    var g := Gcd(a, b);
    CoprimeQuotients(a, b);
    var a', b' := a / g, b / g;
    QuotientExact(g, a);
    QuotientExact(g, b);
    GcdSymmetric(a', b');
    CoprimeCofactors(a', b', g, c);
  }

  lemma CoprimeCofactors(a': int, b': int, g: int, c: int)
    requires g != 0 && Gcd(b', a') == 1
    requires Divides(a' * g, c) && Divides(b' * g, c)
    ensures Divides((a' * g) * b', c)
  {
    var s := DividesWitness(a' * g, c);
    var t := DividesWitness(b' * g, c);
    CancelCommon(g, a', s, b', t);
    DividesByWitness(b', a' * s, t);
    EuclidLemma(b', a', s);
    var u := DividesWitness(b', s);
    Regroup(u, b', a' * g);
    DividesByWitness((a' * g) * b', c, u);
  }

  lemma CancelCommon(g: int, x: int, s: int, y: int, t: int)
    requires g != 0 && s * (x * g) == t * (y * g)
    ensures x * s == t * y
  {
    assert g * (x * s) == s * (x * g);
    assert g * (t * y) == t * (y * g);
    CancelFactor(g, x * s, t * y);
  }

  lemma Regroup(u: int, b: int, a: int)
    ensures (u * b) * a == u * (a * b)
  {
  }

  /** The lcm divides every common multiple. */
  lemma LcmLeast(a: int, b: int, c: int)
    requires Divides(a, c) && Divides(b, c)
    ensures Divides(Lcm(a, b), c)
  {
    if a == 0 || b == 0 {
      DividesRefl(0);
    } else {
      var l := a * (b / Gcd(a, b));
      CofactorDivides(a, b, c);
      DividesNeg(l, c);
      LcmValue(a, b);
      DividesAbsDivisor(Lcm(a, b), c);
    }
  }

  /** Binomial coefficients of natural numbers, by Pascal's rule. */
  function Choose(n: nat, k: nat): nat {
    if k == 0 then 1
    else if n == 0 then 0
    else Choose(n - 1, k - 1) + Choose(n - 1, k)
  }

  /**
   * `binomial(n, k)` (`BinomialInt`): zero for a negative `k`; for a
   * negative `n`, the generalized coefficient `(-1)^k * C(k - n - 1, k)`.
   */
  function Binomial(n: int, k: int): int {
    if k < 0 then 0
    else if n >= 0 then Choose(n, k)
    else (if k % 2 == 0 then 1 else -1) * Choose(k - n - 1, k)
  }

  lemma {:induction false} ChooseBeyond(n: nat, k: nat)
    requires k > n
    ensures Choose(n, k) == 0
  {
    if n > 0 {
      ChooseBeyond(n - 1, k - 1);
      ChooseBeyond(n - 1, k);
    }
  }

  lemma {:induction false} ChooseAll(n: nat)
    ensures Choose(n, n) == 1
  {
    if n > 0 {
      ChooseAll(n - 1);
      ChooseBeyond(n - 1, n);
    }
  }

  /** Symmetry of binomial coefficients. */
  lemma {:induction false} ChooseSymmetric(n: nat, k: nat)
    requires k <= n
    ensures Choose(n, k) == Choose(n, n - k)
  {
    if n > 0 {
      if k == 0 || k == n {
        ChooseAll(n);
      } else {
        ChooseSymmetric(n - 1, k - 1);
        ChooseSymmetric(n - 1, k);
        assert Choose(n, n - k) == Choose(n - 1, n - k - 1) + Choose(n - 1, n - k);
      }
    }
  }

  /** Pascal's rule holds for every integer `n`, negative ones included. */
  lemma BinomialPascal(n: int, k: int)
    requires k >= 1
    ensures Binomial(n, k) == Binomial(n - 1, k - 1) + Binomial(n - 1, k)
  {
    if n == 0 {
      assert Binomial(-1, k - 1) == (if (k - 1) % 2 == 0 then 1 else -1) * Choose(k - 1, k - 1);
      assert Binomial(-1, k) == (if k % 2 == 0 then 1 else -1) * Choose(k, k);
      ChooseAll(k - 1);
      ChooseAll(k);
    } else if n < 0 {
      assert Choose(k - n, k) == Choose(k - n - 1, k - 1) + Choose(k - n - 1, k);
    }
  }

  // ---------------------------------------------------------------------
  // Text

  /** The stream format flags that `operator<<` consults. */
  datatype FmtFlags = FmtFlags(oct: bool, hex: bool)

  /** `operator<<`'s choice of base: octal wins over hexadecimal; else decimal. */
  function StreamBase(f: FmtFlags): (b: int)
    ensures Numerals.ValidBase(b)
    ensures b == 8 <==> f.oct
    ensures b == 16 <==> !f.oct && f.hex
    ensures b == 10 <==> !f.oct && !f.hex
  {
    if f.oct then 8 else if f.hex then 16 else 10
  }

  /** `toString(base)` (`StringIntBase`); a base outside 2..36 is a kernel error. */
  function ToString(a: int, base: int): (r: Result<string>)
    ensures r.Failure? <==> !Numerals.ValidBase(base)
    ensures r.Success? ==> Numerals.Parse(r.value, base) == a
  {
    if Numerals.ValidBase(base) then
      Numerals.RenderRoundTrip(a, base);
      Success(Numerals.Render(a, base))
    else
      Failure(BadBase)
  }

  /** `os << i`: appends the numeral of `i` in the stream's base. */
  function WriteInt(os: string, f: FmtFlags, a: int): (r: string)
    ensures |r| > |os| && r[..|os|] == os
    ensures Numerals.Parse(r[|os|..], StreamBase(f)) == a
  {
    var s := Numerals.Render(a, StreamBase(f));
    Numerals.RenderRoundTrip(a, StreamBase(f));
    assert (os + s)[|os|..] == s;
    os + s
  }

  // ---------------------------------------------------------------------
  // The handle

  /**
   * A `Gap::Int` variable. Compound assignments rebind the wrapped value;
   * binary operators take the left operand by value, apply the compound
   * assignment to the copy and return it, so neither caller operand changes.
   */
  class Int {
    var value: int

    /** `Int(GAP_Int8 i)`. */
    constructor (i: int64)
      ensures value == i
    {
      value := i;
    }

    /** `Int(limbs, size)`. */
    constructor FromLimbArray(limbs: seq<u64>, size: int64)
      requires Abs(size) <= |limbs|
      ensures value == FromLimbs(limbs, size)
    {
      value := FromLimbs(limbs, size);
    }

    /** The copy constructor: a reference copy of an immutable value. */
    constructor Copy(other: Int)
      ensures value == other.value
    {
      value := other.value;
    }

    /** `*this += opR`. */
    method AddAssign(opR: Int)
      modifies this
      ensures value == old(value) + old(opR.value)
      ensures opR != this ==> opR.value == old(opR.value)
    {
      value := value + opR.value;
    }

    /** `*this -= opR`. */
    method SubAssign(opR: Int)
      modifies this
      ensures value == old(value) - old(opR.value)
      ensures opR != this ==> opR.value == old(opR.value)
    {
      value := value - opR.value;
    }

    /** `*this *= opR`. */
    method MulAssign(opR: Int)
      modifies this
      ensures value == old(value) * old(opR.value)
      ensures opR != this ==> opR.value == old(opR.value)
    {
      value := value * opR.value;
    }

    /** `*this /= opR`; on a zero divisor the kernel error leaves `*this` as it was. */
    method QuoAssign(opR: Int) returns (ok: bool)
      modifies this
      ensures ok <==> old(opR.value) != 0
      ensures ok ==> value == TruncQuo(old(value), old(opR.value))
      ensures !ok ==> value == old(value)
      ensures opR != this ==> opR.value == old(opR.value)
    {
      var q := Quo(value, opR.value);
      ok := q.Success?;
      if ok {
        value := q.value;
      }
    }

    /** `*this %= opR`; on a zero divisor the kernel error leaves `*this` as it was. */
    method RemAssign(opR: Int) returns (ok: bool)
      modifies this
      ensures ok <==> old(opR.value) != 0
      ensures ok ==> value == TruncRem(old(value), old(opR.value))
      ensures !ok ==> value == old(value)
      ensures opR != this ==> opR.value == old(opR.value)
    {
      var r := Rem(value, opR.value);
      ok := r.Success?;
      if ok {
        value := r.value;
      }
    }

    /** Unary `-` (`AInvInt`): a new handle on the additive inverse. */
    method Negated() returns (r: Int)
      ensures fresh(r) && r.value == -value
    {
      r := new Int.Copy(this);
      r.value := -value;
    }

    /** `pow(opR)` (`PowInt`): a new handle on the power, for a non-negative exponent. */
    method Power(opR: Int) returns (r: Int)
      requires opR.value >= 0
      ensures fresh(r) && r.value == Pow(value, opR.value)
    {
      r := new Int.Copy(this);
      r.value := Pow(value, opR.value);
    }

    /** `opL + opR`. */
    static method Plus(opL: Int, opR: Int) returns (r: Int)
      ensures fresh(r) && r.value == opL.value + opR.value
    {
      r := new Int.Copy(opL);
      r.AddAssign(opR);
    }

    /** `opL - opR`. */
    static method Minus(opL: Int, opR: Int) returns (r: Int)
      ensures fresh(r) && r.value == opL.value - opR.value
    {
      r := new Int.Copy(opL);
      r.SubAssign(opR);
    }

    /** `opL * opR`. */
    static method Times(opL: Int, opR: Int) returns (r: Int)
      ensures fresh(r) && r.value == opL.value * opR.value
    {
      r := new Int.Copy(opL);
      r.MulAssign(opR);
    }

    /** `opL / opR`. */
    static method Divide(opL: Int, opR: Int) returns (r: Int, ok: bool)
      ensures fresh(r)
      ensures ok <==> opR.value != 0
      ensures ok ==> r.value == TruncQuo(opL.value, opR.value)
    {
      r := new Int.Copy(opL);
      ok := r.QuoAssign(opR);
    }

    /** `opL % opR`. */
    static method Remainder(opL: Int, opR: Int) returns (r: Int, ok: bool)
      ensures fresh(r)
      ensures ok <==> opR.value != 0
      ensures ok ==> r.value == TruncRem(opL.value, opR.value)
    {
      r := new Int.Copy(opL);
      ok := r.RemAssign(opR);
    }
  }
}
