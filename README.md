# libgap: a Dafny model of the Gap::Int and Gap::Rat façade and its exact-arithmetic programs

The library is a thin C++ façade over the integer and rational arithmetic of
the GAP kernel. The kernel routines behind each operator are foreign code. This
model gives their results their mathematical meaning and proves what the
façade and the programs built on it promise.

- **`Gap::Int`** (`gap_int.dfy`, `divisibility.dfy`, `numerals.dfy`)
  - An integer is a Dafny `int`.
  - The pure members are functions:
    - the limb constructor;
    - `isNeg`, `isPos`, `isOdd`, `isEven`, `isInt`, `==` and `<`;
    - the truncating quotient and the dividend-signed remainder;
    - `pow`, `abs`, `sign()` with its `FailedOpException` branch;
    - the non-negative `mod`, `invMod` with the kernel's `fail` sentinel;
    - `gcd`, `lcm` and `binomial`;
    - the base that stream output chooses, and the numeral it writes.
  - The compound assignments rebind the handle in place. They are methods of the class `GapInt.Int`.
  - The binary operators work on a copy of the left operand.
- **`Gap::Rat`** (`gap_rat.dfy`)
  - A rational is the kernel's canonical object: an integer object, or a reduced fraction whose denominator is above 1.
  - `Frac` normalises a pair, as `GAP_MakeRat` does.
  - `+`, `-`, `*`, unary `-`, `==` and `<` are proved against the exact value, a Dafny `real`.
  - `+=`, `-=` and `*=` are methods of the class `GapRat.Rat`.
- **Project Euler 1** (`euler1*.dfy`)
  - The loop over `[0, N)` and the inclusion–exclusion closed form.
  - Both are modelled over wrapping 64-bit `unsigned long` and over `Gap::Int`.
  - The template that is instantiated with either type, and the dispatch in its `main`.
- **Project Euler 6** (`euler6.dfy`): the loop and the closed form with three truncating divisions, in both result types.
- **Rational π** (`rational_pi.dfy`)
  - The Madhava–Leibniz partial sums.
  - The Bailey–Borwein–Plouffe partial sums.
  - The decimal expansion `prDec`.
- **Tuple output** (`tupleprint.dfy`): the ", "-separated output driven by a `first` flag.
- **Support modules**
  - `machine.dfy` holds C++ `unsigned long` arithmetic, with wrap-around written out modulo 2^64, and the conversion to `GAP_Int8`.
  - `streams.dfy` holds an output stream: its text and its format flags.
  - `outcomes.dfy` holds the error type.

The kernel's quotient and remainder are taken to truncate toward zero, with the
remainder taking the sign of the dividend. Division by zero, a zero
denominator and a bad base are kernel errors; they are modelled as `Failure`
results.

Two points the headers leave open; the model settles them as follows:

- `rat.h` declares no `isNeg`, `isPos` or `sign()` for `Rat`, yet `prDec` (libgap/test/rational-pi.cpp:72) calls `r.isNeg()`. The model reads that call as "the numerator is negative".
- `int.h` leaves the sign convention of `/` and `%` to the kernel's `QuoInt` and `GAP_RemInt` (int.h:374, int.h:394). The model fixes truncation toward zero, as above.

## Model

| member | source | states |
|---|---|---|
| GapInt.FromLimbs | libgap/include/gap/int.h:100-115 | size 0 gives 0; a positive size gives a non-negative value and a negative size a non-positive one; the value is nonzero exactly when one of the first \|size\| limbs is |
| GapInt.LeadingZeroLimbs | libgap/include/gap/int.h:109-115 | extending \|size\| over zero limbs leaves the value unchanged |
| GapInt.Int.FromLimbArray | libgap/include/gap/int.h:113-115 | the new handle holds the value the limbs and size denote |
| GapInt.Int.constructor | libgap/include/gap/int.h:136 | `Int(GAP_Int8 i)` holds i |
| GapInt.ParityMeaning | libgap/include/gap/int.h:255-267 | `isEven` is exactly the negation of `isOdd`, means divisibility by 2, holds for 0, and a and -a have the same parity |
| GapInt.OrderConsistent | libgap/include/gap/int.h:277-293 | `<` is a strict total order; `<` and `==` agree with the sign of the difference |
| GapInt.IsNeg | libgap/include/gap/int.h:229-234 | `isNeg`: the value is below 0; `Sign` ties it to a sign of -1 |
| GapInt.IsPos | libgap/include/gap/int.h:236-241 | `isPos`: the value is above 0; `Sign` ties it to a sign of 1 |
| GapInt.IsOdd | libgap/include/gap/int.h:255-260 | `isOdd`; `ParityMeaning` states its meaning |
| GapInt.IsEven | libgap/include/gap/int.h:262-267 | `isEven`: not `isOdd`; `ParityMeaning` proves it is divisibility by 2 |
| GapInt.IsInt | libgap/include/gap/int.h:213-215 | `isInt` tells an integer object from the `fail` sentinel; `InvModExists` says when `invMod` gives one |
| GapInt.Equal | libgap/include/gap/int.h:277-280 | `==` on values; `OrderConsistent` relates it to `<` and `sign()` |
| GapInt.Less | libgap/include/gap/int.h:290-293 | `<` on values; `OrderConsistent` proves it a strict total order |
| GapInt.Quo | libgap/include/gap/int.h:372-381 | fails exactly for a zero divisor; otherwise the quotient truncates toward zero |
| GapInt.TruncQuo | libgap/include/gap/int.h:372-381 | the kernel's `QuoInt` for a nonzero divisor: a - q*b lies in [0, \|b\|) for a >= 0 and in (-\|b\|, 0] for a < 0 |
| GapInt.Rem | libgap/include/gap/int.h:392-401 | fails exactly for a zero divisor; otherwise a == (a/b)*b + a%b, and the remainder has the dividend's sign and lies below \|b\| |
| GapInt.TruncRem | libgap/include/gap/int.h:392-401 | the kernel's `RemInt` for a nonzero divisor: in [0, \|b\|) for a >= 0 and in (-\|b\|, 0] for a < 0 |
| GapInt.QuoRemUnique | libgap/include/gap/int.h:364-401 | a quotient and remainder that meet those bounds are the ones `/` and `%` return |
| GapInt.TruncMatchesEuclid | libgap/include/gap/int.h:372-401 | for a non-negative dividend and a positive divisor, `/` and `%` agree with Euclidean division |
| GapInt.Int.AddAssign | libgap/include/gap/int.h:304-308 | `+=` rebinds the handle to the sum and leaves a distinct right operand unchanged |
| GapInt.Int.SubAssign | libgap/include/gap/int.h:329-333 | `-=` rebinds the handle to the difference; a distinct right operand is unchanged |
| GapInt.Int.MulAssign | libgap/include/gap/int.h:352-356 | `*=` rebinds the handle to the product; a distinct right operand is unchanged |
| GapInt.Int.QuoAssign | libgap/include/gap/int.h:372-376 | `/=` succeeds exactly for a nonzero divisor, then holds the truncated quotient; otherwise nothing changes |
| GapInt.Int.RemAssign | libgap/include/gap/int.h:392-396 | `%=` succeeds exactly for a nonzero divisor, then holds the truncated remainder; otherwise nothing changes |
| GapInt.Int.Copy | libgap/include/gap/int.h:310-316 | the by-value left operand is a fresh handle with the same value |
| GapInt.Int.Plus | libgap/include/gap/int.h:312-316 | `opL + opR` is a fresh handle holding the sum |
| GapInt.Int.Minus | libgap/include/gap/int.h:334-338 | `opL - opR` is a fresh handle holding the difference |
| GapInt.Int.Times | libgap/include/gap/int.h:357-361 | `opL * opR` is a fresh handle holding the product |
| GapInt.Int.Divide | libgap/include/gap/int.h:377-381 | `opL / opR` succeeds exactly for a nonzero divisor and then holds the truncated quotient |
| GapInt.Int.Remainder | libgap/include/gap/int.h:397-401 | `opL % opR` succeeds exactly for a nonzero divisor and then holds the truncated remainder |
| GapInt.Int.Negated | libgap/include/gap/int.h:339-342 | unary `-` is a fresh handle holding the additive inverse |
| GapInt.Int.Power | libgap/include/gap/int.h:411-418 | `pow` with a non-negative exponent is a fresh handle holding the power |
| GapInt.Pow | libgap/include/gap/int.h:404-418 | the power `PowInt` computes for a non-negative exponent; `PowAdd` proves its exponent law |
| GapInt.PowAdd | libgap/include/gap/int.h:404-418 | powers add exponents: a^(m+n) == a^m * a^n |
| Divisibility.Abs | libgap/include/gap/int.h:427-434 | `abs` is non-negative, is a or -a, and is a itself for a non-negative a |
| GapInt.SignOf | libgap/include/gap/int.h:443-451 | a kernel answer of -1, 0 or 1 is returned as is; any other answer is the `FailedOpException` "Int::sign(): bad sign" |
| GapInt.Sign | libgap/include/gap/int.h:443-455 | `sign()` succeeds and is -1 exactly for a negative value, 1 exactly for a positive one and 0 exactly for zero |
| GapInt.Mod | libgap/include/gap/int.h:458-472 | fails exactly for a zero modulus; otherwise the result lies in [0, \|m\|) and is congruent to a modulo m |
| GapInt.ModFromRem | libgap/include/gap/int.h:465-472 | `mod` is the remainder, lifted by \|m\| when the remainder is negative |
| GapInt.InvMod | libgap/include/gap/int.h:475-486 | fails exactly for a zero modulus; an integer result lies in [0, \|m\|) and times the value is 1 modulo m |
| GapInt.InvModExists | libgap/include/gap/int.h:479-486 | the result is an integer (`isInt`) exactly when the value and the modulus are coprime; otherwise it is the `fail` sentinel |
| GapInt.InverseCoprime | libgap/include/gap/int.h:479-486 | a value that has an inverse modulo m is coprime to m |
| Divisibility.Gcd | libgap/include/gap/int.h:489-498 | `gcd` divides both operands and is 0 exactly when both are |
| Divisibility.GcdGreatest | libgap/include/gap/int.h:489-498 | every common divisor divides `gcd` |
| Divisibility.Bezout | libgap/include/gap/int.h:489-498 | `gcd` is an integer combination of the operands |
| GapInt.Lcm | libgap/include/gap/int.h:501-510 | `lcm` is a non-negative common multiple, 0 exactly when an operand is 0 |
| GapInt.LcmLeast | libgap/include/gap/int.h:501-510 | `lcm` divides every common multiple |
| GapInt.GcdLcmProduct | libgap/include/gap/int.h:489-510 | gcd(a, b) * lcm(a, b) == \|a * b\| |
| GapInt.LcmValue | libgap/include/gap/int.h:501-510 | for nonzero operands, lcm(a, b) == \|a * (b / gcd(a, b))\| |
| GapInt.BinomialPascal | libgap/include/gap/int.h:513-522 | `binomial` satisfies Pascal's rule for every n and every k >= 1 |
| GapInt.ChooseSymmetric | libgap/include/gap/int.h:513-522 | for 0 <= k <= n, C(n, k) == C(n, n - k) |
| GapInt.ChooseBeyond | libgap/include/gap/int.h:513-522 | for k > n >= 0 the coefficient is 0 |
| GapInt.ChooseAll | libgap/include/gap/int.h:513-522 | C(n, n) == 1 |
| GapInt.Binomial | libgap/include/gap/int.h:513-522 | the binomial coefficient for all integers, 0 for negative k and signed for negative n; `BinomialPascal`, `ChooseSymmetric`, `ChooseBeyond` and `ChooseAll` state its properties |
| GapInt.StreamBase | libgap/include/gap/int.h:181-189 | base 8 exactly when `oct` is set, 16 exactly when `hex` is set without `oct`, 10 otherwise |
| GapInt.ToString | libgap/include/gap/int.h:175-179 | `toString` fails exactly for a base outside 2..36; its text reads back as the value |
| GapInt.WriteInt | libgap/include/gap/int.h:181-189 | `os << i` keeps what the stream held and appends a numeral that reads back as i in the chosen base |
| Numerals.RenderRoundTrip | libgap/include/gap/int.h:175-189 | a numeral reads back as its value; it starts with '-' exactly for a negative value, and a non-negative numeral starts with '0' only for 0 |
| Numerals.NatDigitsRoundTrip | libgap/include/gap/int.h:175-179 | the digits of a natural number read back as that number |
| Streams.OStream.WriteInt | libgap/include/gap/int.h:181-189 | writing an `Int` appends its numeral in the flags' base and leaves the flags alone |
| Streams.OStream.Write | libgap/include/tupleprint.h:18-20 | writing a string appends it and leaves the flags alone |
| Machine.AddU | libgap/test/PE-001-cint.cpp:47-49 | `unsigned long` addition is exact below 2^64 and wraps once above |
| Machine.SubU | libgap/test/PE-001-cint.cpp:52-55 | `unsigned long` subtraction is exact when it does not go below 0 and wraps by 2^64 when it does |
| Machine.MulU | libgap/test/PE-001-cint.cpp:47-49 | `unsigned long` multiplication is exact below 2^64 and otherwise congruent to the product modulo 2^64 |
| Machine.DivU | libgap/test/PE-001-cint.cpp:47-49 | `unsigned long` division is the floor quotient |
| Machine.ToInt64 | libgap/include/gap/int.h:136 | converting an `unsigned long` to `GAP_Int8` keeps values below 2^63 and makes larger ones negative by 2^64 |
| GapRat.NumDenReduced | libgap/include/gap/rat.h:85-92 | `num()` and `den()` are in lowest terms and `den()` is positive |
| GapRat.Num | libgap/include/gap/rat.h:85-88 | `num()`; `NumDenReduced` proves it in lowest terms with `den()` |
| GapRat.Den | libgap/include/gap/rat.h:89-92 | `den()`; `NumDenReduced` proves it positive and coprime to `num()` |
| GapRat.IsRat | libgap/include/gap/rat.h:123-127 | `isRat`: a fraction object or an integer object, which every model object is; `IntegersAreRationals` covers the integer case |
| GapRat.Frac | libgap/include/gap/rat.h:75-77 | the normalised pair is a canonical rational with the same ratio as (n, d) |
| GapRat.FracValue | libgap/include/gap/rat.h:75-77 | the normalised pair has the value n / d |
| GapRat.MakeRat | libgap/include/gap/rat.h:75-77 | `Rat(num, den)` fails exactly for a zero denominator; otherwise it is reduced, has a positive denominator and the value num / den |
| GapRat.EqualFractionsExample | libgap/include/gap/rat.h:75-77 | `Rat(2, 4)` and `Rat(1, 2)` are the same rational 1/2 |
| GapRat.CanonicalUnique | libgap/include/gap/rat.h:75-92 | two canonical rationals with equal cross products are the same object |
| GapRat.ValueDetermines | libgap/include/gap/rat.h:75-92 | two canonical rationals with the same value are the same object |
| GapRat.FromInt | libgap/include/gap/rat.h:72-74 | `Rat(Int i)` is the integer object i, with value i |
| GapRat.FromInt64 | libgap/include/gap/rat.h:69-71 | `Rat(GAP_Int8 i)` equals `Rat(Int(i))` and has denominator 1 |
| GapRat.IntegersAreRationals | libgap/include/gap/rat.h:69-74 | an embedded integer satisfies `isRat`, has numerator i and denominator 1, and equals `Rat(i, 1)` |
| GapRat.EqualIsValueEquality | libgap/include/gap/rat.h:130-140 | `==` holds exactly when the values are equal |
| GapRat.Equal | libgap/include/gap/rat.h:137-140 | `==` on canonical objects; `EqualIsValueEquality` proves it is equality of values |
| GapRat.LessIsValueOrder | libgap/include/gap/rat.h:143-153 | `<` holds exactly when the first value is smaller |
| GapRat.Less | libgap/include/gap/rat.h:150-153 | `<` by cross products; `LessIsValueOrder` proves it is the order of values |
| GapRat.Add | libgap/include/gap/rat.h:156-175 | the reduced sum has the sum of the values |
| GapRat.Sub | libgap/include/gap/rat.h:178-199 | the reduced difference has the difference of the values |
| GapRat.Mul | libgap/include/gap/rat.h:205-224 | the reduced product has the product of the values |
| GapRat.Neg | libgap/include/gap/rat.h:200-203 | unary `-` negates the numerator and the value and keeps the denominator |
| GapRat.AddNeg | libgap/include/gap/rat.h:200-203 | r + (-r) is the integer 0 |
| GapRat.SubIsAddNeg | libgap/include/gap/rat.h:178-203 | x - y equals x + (-y) |
| GapRat.ToString | libgap/include/gap/rat.h:100-103 | `toString` fails exactly for a bad base; otherwise it is the numerator's text, " / ", and the denominator's text |
| GapRat.ToStringReadBack | libgap/include/gap/rat.h:100-103 | the text holds a single '/', the one in " / ", and the parts on either side read back as `num()` and `den()` |
| GapRat.WriteRat | libgap/include/gap/rat.h:105-113 | `os << r` keeps what the stream held and appends text that reads back as `num()`, " / " and `den()` in the base chosen from the flags as for `Int` |
| GapRat.Rat.constructor | libgap/include/gap/rat.h:69-71 | `Rat(GAP_Int8 i)` holds i |
| GapRat.Rat.OfInt | libgap/include/gap/rat.h:72-74 | `Rat(Int i)` holds i |
| GapRat.Rat.Copy | libgap/include/gap/rat.h:171-175 | the by-value left operand is a fresh handle with the same value |
| GapRat.Rat.Make | libgap/include/gap/rat.h:75-77 | `Rat(num, den)` is refused exactly for a zero denominator, and otherwise holds the normalised fraction |
| GapRat.Rat.AddAssign | libgap/include/gap/rat.h:166-170 | `+=` rebinds the handle to the reduced sum; a distinct right operand is unchanged |
| GapRat.Rat.SubAssign | libgap/include/gap/rat.h:190-194 | `-=` rebinds the handle to the reduced difference; a distinct right operand is unchanged |
| GapRat.Rat.MulAssign | libgap/include/gap/rat.h:215-219 | `*=` rebinds the handle to the reduced product; a distinct right operand is unchanged |
| GapRat.Rat.Negated | libgap/include/gap/rat.h:200-203 | unary `-` is a fresh handle holding the negation |
| GapRat.Rat.Plus | libgap/include/gap/rat.h:171-175 | `opL + opR` is a fresh handle holding the sum |
| GapRat.Rat.Minus | libgap/include/gap/rat.h:195-199 | `opL - opR` is a fresh handle holding the difference |
| GapRat.Rat.Times | libgap/include/gap/rat.h:220-224 | `opL * opR` is a fresh handle holding the product, whose value is the product of the values |
| Euler1.SumMultiplesBelowTen | libgap/test/PE-001-01-gap-vars.cpp:9-10 | the multiples of 3 or 5 below 10 sum to 23 |
| Euler1.SeriesSumClosed | libgap/test/PE-001-01-gap-vars.cpp:44-47 | 2 * (start + ... + end) == (end - start + 1) * (start + end) |
| Euler1.SeriesHalving | libgap/test/PE-001-01-gap-vars.cpp:52-56 | the parity of diff decides which factor is even, so the halving in either branch is exact and gives start + ... + end |
| Euler1.MultiplesAsSeries | libgap/test/PE-001-01-gap-vars.cpp:59-62 | the multiples of k below n sum to k * (1 + ... + (n-1)/k) |
| Euler1.InclusionExclusion | libgap/test/PE-001-01-gap-vars.cpp:59-62 | the multiples of 3 or 5 sum to those of 3 plus those of 5 minus those of 15 |
| Euler1.FifteenBelowThree | libgap/test/PE-001-cint.cpp:52-56 | the multiples of 15 sum to no more than the multiples of 3 |
| Euler1.ClosedFormCorrect | libgap/test/PE-001-01-gap-vars.cpp:59-63 | the closed form equals the sum of the multiples of 3 or 5 below n |
| Euler1Gap.Solution1 | libgap/test/PE-001-01-gap-vars.cpp:30-42 | the `Gap::Int` loop returns the sum of the multiples of 3 or 5 below N, for every N up to 2^63 |
| Euler1Gap.SumOfSeries | libgap/test/PE-001-01-gap-vars.cpp:48-57 | 0 when start > end; otherwise start + ... + end while start + end fits in `GAP_Int8` |
| Euler1Gap.SumOfSeriesExact | libgap/test/PE-001-01-gap-vars.cpp:52-56 | both branches of the halving give start + ... + end |
| Euler1Gap.SeriesOfMultiples | libgap/test/PE-001-01-gap-vars.cpp:60-62 | one term `sumOfSeries(1, (N-1)/k)`; `SeriesTermExact` proves it is the exact series |
| Euler1Gap.Solution2 | libgap/test/PE-001-01-gap-vars.cpp:59-63 | `solution2(N)` is the sum of the multiples of 3 or 5 below N; for N == 0 the unsigned `N-1` wraps and the bound becomes 2^64 |
| Euler1Gap.SeriesTermExact | libgap/test/PE-001-01-gap-vars.cpp:59-62 | each `sumOfSeries(1, (N-1)/k)` is exact |
| Euler1Gap.Solution2BelowTen | libgap/test/PE-001-01-gap-vars.cpp:9-10 | `solution2(10)` is 23 |
| Euler1Gap.MainRange | libgap/test/PE-001-01-gap-vars.cpp:71-83 | for every bound `main` uses (10 to 10^9), `max *= 10` does not wrap, `solution1` is in its exact range and `solution2` gives the exact sum |
| Euler1Gap.HarnessRow | libgap/test/PE-001-01-gap-vars.cpp:83-104 | for each such bound, `solution1` and `solution2` both give the sum of the multiples of 3 or 5 below it |
| Euler1Cint.Solution1 | libgap/test/PE-001-cint.cpp:28-37 | the `unsigned long` loop with an `int` counter returns the exact sum of the multiples of 3 or 5 below N |
| Euler1Cint.SumOfSeries | libgap/test/PE-001-cint.cpp:43-50 | 0 when start > end; otherwise start + ... + end modulo 2^64, while start + end + 1 stays below 2^64 |
| Euler1Cint.SumOfSeriesModular | libgap/test/PE-001-cint.cpp:46-49 | both branches of the wrapping halving give start + ... + end modulo 2^64 |
| Euler1Cint.SeriesOfMultiples | libgap/test/PE-001-cint.cpp:53-55 | one term `sumOfSeries(1, (N-1)/k)` with the unsigned `N-1`; `SeriesTermModular` proves it is the series modulo 2^64 |
| Euler1Cint.SeriesTermModular | libgap/test/PE-001-cint.cpp:52-55 | each `sumOfSeries(1, (N-1)/k)` is the series modulo 2^64, with `N-1` wrapping for N == 0 |
| Euler1Cint.Solution2Modular | libgap/test/PE-001-cint.cpp:52-56 | `solution2(N)` is the sum of the multiples of 3 or 5 below N modulo 2^64; for N == 0 the wrapped `N-1` makes it the sum below 2^64, modulo 2^64 |
| Euler1Cint.Solution2 | libgap/test/PE-001-cint.cpp:52-56 | `solution2` in wrapping arithmetic; `Solution2Modular` and `Solution2Exact` state its value |
| Euler1Cint.Solution2Exact | libgap/test/PE-001-cint.cpp:52-56 | up to MAX = 10^9, `solution2(N)` is the exact sum |
| Euler1Cint.SubtractionNoWrap | libgap/test/PE-001-cint.cpp:52-56 | up to MAX the final unsigned subtraction does not wrap |
| Euler1Cint.SumMultiplesBelowWord | libgap/test/PE-001-cint.cpp:62 | up to MAX the sum fits in `unsigned long` |
| Euler1Cint.MainRange | libgap/test/PE-001-cint.cpp:62-76 | for every bound `main` uses, the counter stays within `int`, `max - 1` does not wrap and `solution2` is exact |
| Machine.QuotientBelowHalf | libgap/test/PE-001-cint.cpp:53-55 | `(N-1)/k` for k >= 3 is the floor quotient, and 1 + (N-1)/k stays below 2^63 |
| Euler1Mixed.SumOfSeries | libgap/test/PE-001-mixed.cpp:30-40 | `sumOfSeries<T>` is 0 when start > end; otherwise the series modulo 2^64 for `unsigned long` and the exact series for `Gap::Int` |
| Euler1Mixed.Solution2 | libgap/test/PE-001-mixed.cpp:42-48 | `solution2<T>` is the sum of the multiples of 3 or 5 below N, modulo 2^64 for `unsigned long` |
| Euler1Mixed.MachineWordExact | libgap/test/PE-001-mixed.cpp:79-90 | up to MAX_CINT the `unsigned long` instantiation is exact |
| Euler1Mixed.InstantiationsAgree | libgap/test/PE-001-mixed.cpp:30-48 | up to MAX_CINT both instantiations give the same value |
| Euler1Mixed.PowersInRange | libgap/test/PE-001-mixed.cpp:79-86 | 10^j stays within MAX for j <= 18; 10^19 still fits in `unsigned long` and ends the loop |
| Euler1Mixed.HarnessRow | libgap/test/PE-001-mixed.cpp:88-91 | the instantiation picked for a bound prints the exact sum |
| Euler1Mixed.Harness | libgap/test/PE-001-mixed.cpp:75-95 | `main` visits 10, ..., 10^18, uses `unsigned long` exactly up to MAX_CINT, and every sum is exact |
| Euler6.FirstTenExample | libgap/test/PE-006.cpp:7-16 | for the first ten numbers: sum of squares 385, square of the sum 3025, difference 2640 |
| Euler6.SumToClosed | libgap/test/PE-006.cpp:53-57 | 2 * (1 + ... + n) == n(n+1) |
| Euler6.SumSquaresClosed | libgap/test/PE-006.cpp:53-57 | 6 * (1^2 + ... + n^2) == n(n+1)(2n+1) |
| Euler6.TetrahedralClosed | libgap/test/PE-006.cpp:65 | the second factor of the closed form is a multiple of 3, so `/ 3` is exact |
| Euler6.DifferenceClosed | libgap/test/PE-006.cpp:61-66 | the last product of the closed form is twice the difference, so the final `/ 2` is exact |
| Euler6.DifferenceNonNegative | libgap/test/PE-006.cpp:50 | sum*sum >= sumSq, so the subtraction does not go below 0 |
| Euler6.Solution2 | libgap/test/PE-006.cpp:61-66 | `solution2<T>` for both result types; `Solution2GapExact` and `Solution2WordExact` prove it is the difference |
| Euler6.Solution2GapExact | libgap/test/PE-006.cpp:61-66 | with `Gap::Int`, `solution2(N)` is the difference for every N below 2^63 |
| Euler6.Solution2WordExact | libgap/test/PE-006.cpp:61-66 | with `unsigned long`, `solution2(N)` is the difference up to MAX_CINT |
| Euler6.WordFirstDivision | libgap/test/PE-006.cpp:65 | the first unsigned `/ 2` is exact and gives 1 + ... + N |
| Euler6.WordSecondDivision | libgap/test/PE-006.cpp:65 | the unsigned `/ 3` is exact |
| Euler6.WordLastDivision | libgap/test/PE-006.cpp:65 | the last unsigned `/ 2` is exact and gives the difference |
| Euler6.Solution1Word | libgap/test/PE-006.cpp:39-51 | the `unsigned long` loop returns the difference modulo 2^64 |
| Euler6.Solution1WordNeverExits | libgap/test/PE-006.cpp:45 | as written, with N == 2^64 - 1 every counter value passes `i <= N` and the increment of the last wraps to 0, so the loop has no exit |
| Euler6.Solution1WordFixed | libgap/test/PE-006.cpp:39-51 | corrected loop, one turn per term: for every N, including 2^64 - 1, the result is the difference modulo 2^64 |
| Euler6.WordSumsStep | libgap/test/PE-006.cpp:45-48 | after each turn, sum and sumSq are the partial sums modulo 2^64 |
| Euler6.Solution1WordExact | libgap/test/PE-006.cpp:119-120 | up to MAX_CINT the difference fits in `unsigned long` |
| Euler6.GapSumsExact | libgap/test/PE-006.cpp:45-48 | while every square fits in `GAP_Int8`, the `Gap::Int` sums are the exact sums |
| Euler6.Solution1Gap | libgap/test/PE-006.cpp:39-51 | the `Gap::Int` loop returns the sums of the converted terms, which is the difference while the squares fit |
| Euler6.Solution1 | libgap/test/PE-006.cpp:39-51 | `solution1<T>` gives the difference modulo 2^64 for `unsigned long`, and for `Gap::Int` the sums of the converted terms |
| Euler6.MainRanges | libgap/test/PE-006.cpp:107-124 | on the ranges `main` uses, both solutions give the exact difference and the `unsigned` counter of the second loop does not wrap |
| RationalPi.OddDenominator | libgap/test/rational-pi.cpp:33-35 | the denominator `2*i+1` is never 0 and is exact below MGL_EXACT |
| RationalPi.MGLFraction | libgap/test/rational-pi.cpp:33-35 | below MGL_EXACT, `Rat(1, 2*i+1)` has the value 1/(2i+1) |
| RationalPi.LeibnizTermSign | libgap/test/rational-pi.cpp:32-35 | even i add the fraction and odd i subtract it |
| RationalPi.AddMGLTerm | libgap/test/rational-pi.cpp:32-35 | one turn of the loop adds the i-th term of the Leibniz series |
| RationalPi.SeriesMGL | libgap/test/rational-pi.cpp:28-39 | for N up to MGL_EXACT, `seriesMGL(N)` is 4 times the first max(N, 1) terms of the Leibniz series, so 4 for N <= 1 |
| RationalPi.LeibnizBounds | libgap/test/rational-pi.cpp:21-39 | every partial sum lies in [2/3, 1] |
| RationalPi.BBPDenominator | libgap/test/rational-pi.cpp:53 | the polynomial denominator is at least 15, hence positive |
| RationalPi.DenominatorFactors | libgap/test/rational-pi.cpp:51-53 | 8 times the denominator is (8i+1)(8i+4)(8i+5)(8i+6) |
| RationalPi.PolynomialTermIsClassical | libgap/test/rational-pi.cpp:50-53 | the polynomial term equals 4/(8i+1) - 2/(8i+4) - 1/(8i+5) - 1/(8i+6) |
| RationalPi.QuadraticExact | libgap/test/rational-pi.cpp:52-53 | below BBP_EXACT the unsigned quadratics neither wrap nor leave `GAP_Int8` |
| RationalPi.BBPScale | libgap/test/rational-pi.cpp:50 | `Rat(1, pow(16, i))` has the value 16^-i |
| RationalPi.BBPDenominatorObject | libgap/test/rational-pi.cpp:53 | the `Gap::Int` denominator is the polynomial denominator |
| RationalPi.BBPQuotient | libgap/test/rational-pi.cpp:52-53 | the polynomial `Rat` has the value numerator / denominator |
| RationalPi.BBPTermObject | libgap/test/rational-pi.cpp:50-53 | the product of the two `Rat`s is the i-th term |
| RationalPi.Multiply | libgap/test/rational-pi.cpp:50-53 | the product of the two `Rat` temporaries of a term has the product of their values |
| RationalPi.AddBBPTerm | libgap/test/rational-pi.cpp:50-53 | one turn of the loop adds the i-th term |
| RationalPi.SeriesBBP | libgap/test/rational-pi.cpp:46-57 | `seriesBBP(N)` is the sum of the first N terms, 0 for N == 0 |
| RationalPi.TermIsClassical | libgap/test/rational-pi.cpp:50-53 | the weighted polynomial term equals the weighted classical term |
| RationalPi.BBPIsClassical | libgap/test/rational-pi.cpp:46-57 | `seriesBBP` sums the classical BBP series |
| RationalPi.MainRange | libgap/test/rational-pi.cpp:111-142 | for every bound `main` uses (2 to 10^6 by doubling), doubling does not wrap, `seriesMGL` is exact, and where the 32768 cut-off lets `seriesBBP` run it is exact too |
| RationalPi.TestHarness | libgap/test/rational-pi.cpp:90-126 | `sum` is first `seriesMGL(max)`, 4 times the Leibniz partial sum for max up to 2^62; the BBP series runs exactly when max <= 32768 and then gives the classical BBP sum; otherwise `sum` keeps the MGL value |
| RationalPi.IntegerPartIsTrunc | libgap/test/rational-pi.cpp:69 | `num / den` is the value truncated toward zero |
| RationalPi.IntegerPart | libgap/test/rational-pi.cpp:69 | `r.num() / r.den()`, the kernel's truncating quotient; `IntegerPartIsTrunc` proves it is the value truncated toward zero |
| RationalPi.PrDec | libgap/test/rational-pi.cpp:64-87 | `os << prDec(r, prec)` appends the expansion as the code writes it and returns the same stream |
| RationalPi.WriteIntegerPart | libgap/test/rational-pi.cpp:66-76 | writes the optional '-', the integer part and '.'; the remainder is r minus the integer part; `prec` drops by one for a negative r |
| RationalPi.WriteDigits | libgap/test/rational-pi.cpp:78-84 | the loop writes `prec` digits, none for `prec <= 0` |
| RationalPi.WriteDigit | libgap/test/rational-pi.cpp:79-83 | one turn writes the truncated tenfold remainder and keeps the rest |
| RationalPi.DigitStep | libgap/test/rational-pi.cpp:79-83 | for a remainder in [0, 1) the digit lies in 0..9 and the next remainder is again in [0, 1) |
| RationalPi.DigitsAreDecimal | libgap/test/rational-pi.cpp:78-84 | from a remainder in [0, 1) and a base of at least ten, the loop writes exactly `prec` decimal digits |
| RationalPi.DigitsTruncate | libgap/test/rational-pi.cpp:78-84 | the digits fall short of the remainder by less than 10^-prec |
| RationalPi.PrDecTruncates | libgap/test/rational-pi.cpp:64-87 | for r >= 0, the integer part plus the digits is at most r, and r is below that plus 10^-prec |
| RationalPi.PrDecNegativeExample | libgap/test/rational-pi.cpp:72-83 | as written, -4/3 to two places prints "--1.-3" on a decimal stream |
| RationalPi.NegativeExampleFractions | libgap/test/rational-pi.cpp:69-83 | in that example every object whose `num()` and `den()` are read is a fraction: -4/3, the remainder -1/3, and -10/3 after `rem *= 10` |
| RationalPi.PrDecFixedExample | libgap/test/rational-pi.cpp:72-76 | corrected, -4/3 to two places prints "-1.3" |
| RationalPi.PrDecFixedSign | libgap/test/rational-pi.cpp:72-76 | corrected, a '-' appears only first, and exactly when r < 0 |
| RationalPi.UnsignedText | libgap/test/rational-pi.cpp:69-84 | for r >= 0 the expansion holds no '-' |
| RationalPi.PrDecFixedTruncates | libgap/test/rational-pi.cpp:64-87 | corrected, the text after the sign truncates \|r\| to the digits written |
| RationalPi.PrDecFixed | libgap/test/rational-pi.cpp:64-87 | the corrected operator appends the sign and then the expansion of \|r\| with one digit fewer |
| TuplePrint.PrintTuple | libgap/include/tupleprint.h:12-27 | `os << t` appends the elements joined by ", " and returns the same stream; an empty tuple writes nothing |
| TuplePrint.JoinStep | libgap/include/tupleprint.h:17-22 | one call of the lambda appends ", " unless `first` is set, then the element |
| TuplePrint.JoinIsJoinRef | libgap/include/tupleprint.h:15-23 | the loop's text equals the first element followed by ", " and each later element |
| TuplePrint.JoinAppend | libgap/include/tupleprint.h:16-23 | elements appear in tuple order: the text for a + b is the text for a, ", ", and the text for b |
| TuplePrint.FirstAndLast | libgap/include/tupleprint.h:16-23 | the text starts with the first element and ends with the last one |
| TuplePrint.SeparatorCount | libgap/include/tupleprint.h:15-23 | when no element contains ',', n >= 1 elements give exactly n - 1 commas |
| TuplePrint.JoinLength | libgap/include/tupleprint.h:15-23 | the text is as long as the elements plus two characters for each of the n - 1 separators |

## Left out

- The GAP kernel routines are foreign code: `MakeObjInt`, `GAP_SumInt`, `QuoInt`, `PowInt`, `StringIntBase`, `GAP_MakeRat`, `NUM_RAT`/`DEN_RAT`, and others.
  - Their results are given their mathematical meaning.
  - Limbs beyond the value they denote, immediate and large representations, and the digit-rendering algorithm are not modelled.
  - `toString` is given a concrete positional numeral: lower-case letters for digits above 9, and a leading '-'.
- The limb order of `Int(limbs, size)` is an assumption: least significant limb first, with 64-bit limbs.
- The kernel's `/` and `%` are assumed to truncate toward zero, with the remainder taking the dividend's sign.
- Default arguments are not modelled as such. The default constructors `Int()` (int.h:43) and `Rat()` (rat.h:38) are `Int(0)` and `Rat(0)`, that is `GapInt.Int.constructor` and `GapRat.Rat.constructor` with 0. `toString()` (int.h:54, rat.h:45) is `GapInt.ToString` and `GapRat.ToString` with base 10.
- `size()`, `isSmallInt` and `isLargeInt` depend on the kernel's internal encoding.
- The conversions `operator GAP_Int`, `GAP_UInt`, `GAP_Int8` and `GAP_UInt8` enter a GAP break loop when the value is out of range. Only the in-range `GAP_Int8` uses inside the programs are modelled.
- `num()` and `den()` read `NUM_RAT`/`DEN_RAT` without checking whether the object is an integer, which `isRat` admits.
  - For an integer object that read is unchecked, and nothing shown defines its result.
  - The model assumes the numerator i and the denominator 1.
  - `prDec` reaches this case whenever `r`, or a remainder `rem` in its digit loop after `rem *= 10`, is an integer object.
- The handle plumbing (libgap/include/gap/obj.h, the `GAP_VARS` guard and `Gap::Init`) exists for the garbage collector. It has no behaviour to state beyond copying a reference.
- `bool.h` holds foreign constants. `exception.h` is only a carrier for the error message, which appears here as the `FailedOp` error.
- The timing code (`instant.h`, `Instant`, `Duration`), every `testHarness` body and the `cout`/`setw` formatting are left out. They are clock reads and output of timings in floating point.
  - What each `main` decides is kept: the bounds, the choice of instantiation, the BBP cut-off, and the ranges in which the arithmetic is exact (`Euler1Cint.MainRange`, `Euler1Gap.MainRange`, `Euler1Mixed.Harness`, `Euler6.MainRanges`, `RationalPi.MainRange`).
- In `tupleprint.h` each element is written by its own `operator<<`. The model takes each element as the text that operator writes.
- Euler1Cint.Solution1: requires N <= INT_MAX. The loop counter is a C `int`, and beyond that bound its increment overflows, which C++ leaves undefined.
- Euler1Gap.Solution1: proved equal to the sum only for N up to 2^63. Above that, the conversion of `i` to `GAP_Int8` makes terms negative.
- Euler6.Solution1Word and Euler6.Solution1Gap: require N < 2^64 - 1. With N == 2^64 - 1, the `unsigned long` counter of `i <= N` wraps and the loop never ends (see Findings).
- GapInt.Int.Power: requires a non-negative exponent. `pow` accepts any `Int`, but for a negative exponent the kernel's `PowInt` yields a rational or an error, which an `Int` handle cannot hold. The model does not state what `pow` does then.
- Euler6.Solution2WordExact: proved only up to MAX_CINT, the range `main` uses. Above it the products wrap and the divisions are no longer exact.
- RationalPi.SeriesMGL: states the value only for N up to 2^62 (MGL_EXACT). Above that, `2*i+1` leaves `GAP_Int8` and the fractions change sign.
- RationalPi.SeriesBBP: requires N up to 10^8 (BBP_EXACT), under which the `unsigned long` polynomial parts of the term do not wrap. For larger N the model does not state the sum.
- RationalPi.Multiply: states the product `Rat(1, pow(16, i)) * Rat(...)` by its value only. `GapRat.Rat.Times` states the same product as the reduced rational.
- RationalPi.PrDec: the source's behaviour for negative rationals is modelled as written. The corrected form is `PrDecFixed` (see Findings).

## Findings

| source | as written | input that shows it | evidently intended | confidence | as-written member | corrected member |
|---|---|---|---|---|---|---|
| libgap/test/rational-pi.cpp:72-83 | for a negative r, `prDec` writes '-' and then the truncated integer part, which is itself negative unless it is 0, and each nonzero digit comes from a negative remainder and carries its own '-' | r = -4/3, prec = 2, decimal stream: the text is "--1.-3" | the sign once, then the expansion of \|r\| with one digit fewer: "-1.3" | high; not executed | RationalPi.PrDecNegativeExample | RationalPi.PrDecFixedSign |
| libgap/test/PE-006.cpp:45 | `solution1` counts with an `unsigned long` `i` from 1 while `i <= N` | N = 2^64 - 1: every counter value passes the guard, and the increment wraps to 0, so the loop never ends | one turn per term for every N, giving the difference modulo 2^64 | high; not executed | Euler6.Solution1WordNeverExits | Euler6.Solution1WordFixed |
