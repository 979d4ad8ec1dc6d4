/**
 * Machine-width arithmetic of the C++ programs that drive the numeric layer:
 * `unsigned long` (64-bit, wrapping), the signed 64-bit `GAP_Int8` that the
 * integer constructor takes, and the 32-bit `int` loop counters. Dafny's
 * integers are unbounded, so every wrap-around is written out here.
 */
module Machine {

  import opened Divisibility

  const U64: nat := 0x1_0000_0000_0000_0000
  const I64Bound: nat := 0x8000_0000_0000_0000
  const IntMax: nat := 0x7fff_ffff

  /** A value of C++ `unsigned long`. */
  type u64 = x: int | 0 <= x < U64

  /** A value of `GAP_Int8` (a signed 64-bit integer). */
  type int64 = x: int | -(I64Bound as int) <= x < I64Bound

  /** `a + b` in `unsigned long`. */
  function AddU(a: u64, b: u64): (r: u64)
    ensures a + b < U64 ==> r == a + b
    ensures a + b >= U64 ==> r == a + b - U64
  {
    (a + b) % U64
  }

  /** `a - b` in `unsigned long`. */
  function SubU(a: u64, b: u64): (r: u64)
    ensures b <= a ==> r == a - b
    ensures a < b ==> r == a - b + U64
  {
    (a - b) % U64
  }

  /** `a * b` in `unsigned long`. */
  function MulU(a: u64, b: u64): (r: u64)
    ensures a * b < U64 ==> r == a * b
    ensures (a * b - r) % U64 == 0
  {
    (a * b) % U64
  }

  /** `a / b` in `unsigned long` (both operands non-negative, so no rounding question). */
  function DivU(a: u64, b: u64): (r: u64)
    requires b != 0
    ensures r * b <= a < r * b + b
  {
    a / b
  }

  /**
   * The implicit conversion of an `unsigned long` to `GAP_Int8` performed when
   * an `unsigned long` is handed to `Gap::Int(GAP_Int8)`: values of 2^63 and
   * above reappear as negative numbers (two's complement).
   */
  function ToInt64(x: u64): (r: int64)
    ensures x < I64Bound ==> r == x
    ensures x >= I64Bound ==> r == x - U64 && r < 0
  {
    if x < I64Bound then x else x - U64
  }

  /** Which arithmetic a templated program was instantiated with. */
  datatype Width = MachineWord | GapInt

  /**
   * Wrapping arithmetic agrees with exact arithmetic reduced modulo 2^64:
   * the machine ring is a homomorphic image of the integers.
   */
  lemma AddUMod(a: u64, b: u64, x: int, y: int)
    requires a == x % U64 && b == y % U64
    ensures AddU(a, b) == (x + y) % U64
  {
    var qx, qy := x / U64, y / U64;
    assert x == qx * U64 + a;
    assert y == qy * U64 + b;
    assert x + y == (qx + qy) * U64 + (a + b);
    ModShift(a + b, qx + qy);
  }

  lemma SubUMod(a: u64, b: u64, x: int, y: int)
    requires a == x % U64 && b == y % U64
    ensures SubU(a, b) == (x - y) % U64
  {
    var qx, qy := x / U64, y / U64;
    assert x == qx * U64 + a;
    assert y == qy * U64 + b;
    assert x - y == (qx - qy) * U64 + (a - b);
    ModShift(a - b, qx - qy);
  }

  lemma MulUMod(a: u64, b: u64, x: int, y: int)
    requires a == x % U64 && b == y % U64
    ensures MulU(a, b) == (x * y) % U64
  {
    var qx, qy := x / U64, y / U64;
    assert x == qx * U64 + a;
    assert y == qy * U64 + b;
    calc {
      x * y;
      (qx * U64 + a) * (qy * U64 + b);
      (qx * qy * U64 + qx * b + a * qy) * U64 + a * b;
    }
    ModShift(a * b, qx * qy * U64 + qx * b + a * qy);
  }

  /** Adding a multiple of 2^64 does not change the residue. */
  lemma ModShift(v: int, k: int)
    ensures (v + k * U64) % U64 == v % U64
  {
    var q, r := v / U64, v % U64;
    assert v + k * U64 == (q + k) * U64 + r;
    DivModUnique(v + k * U64, U64, q + k, r);
  }

  /** Dividing an `unsigned long` by at least 3 leaves room for `1 + e` in `GAP_Int8`. */
  lemma QuotientBelowHalf(a: u64, k: u64)
    requires k >= 3
    ensures DivU(a, k) == a / k && 1 + a / k < I64Bound
  {
    var e := a / k;
    assert e * k <= a;
    MulBoth(e, 3, e, k);
    assert 3 * e < U64;
  }
}
