/**
 * Positional numerals: the meaning given to the kernel's `StringIntBase`,
 * which renders an integer in a base from 2 to 36 with lower-case letter
 * digits, a leading '-' for negative values and no leading zeros.
 */
module Numerals {

  import opened Divisibility

  predicate ValidBase(base: int) {
    2 <= base <= 36
  }

  function DigitChar(d: nat): (c: char)
    requires d < 36
    ensures c != '-' && c != ' ' && c != '/'
  {
    if d < 10 then ('0' as int + d) as char else ('a' as int + d - 10) as char
  }

  /** The value of one digit character, or -1 for a character that is no digit. */
  function DigitValue(c: char): int {
    if '0' <= c <= '9' then c as int - '0' as int
    else if 'a' <= c <= 'z' then c as int - 'a' as int + 10
    else -1
  }

  predicate IsDigitChar(c: char) {
    c != '-' && c != ' ' && c != '/'
  }

  /** The digits of a natural number, most significant first. */
  function NatDigits(n: nat, base: int): (s: string)
    requires ValidBase(base)
    ensures |s| >= 1
    decreases n
  {
    if n < base then [DigitChar(n)]
    else
      QuotientShrinks(n, base);
      NatDigits(n / base, base) + [DigitChar(n % base)]
  }

  lemma {:induction false} NatDigitsChars(n: nat, base: int)
    requires ValidBase(base)
    ensures forall i :: 0 <= i < |NatDigits(n, base)| ==> IsDigitChar(NatDigits(n, base)[i])
    decreases n
  {
    if n >= base {
      QuotientShrinks(n, base);
      NatDigitsChars(n / base, base);
    }
  }

  /** `StringIntBase(a, base)`. */
  function Render(a: int, base: int): (s: string)
    requires ValidBase(base)
    ensures |s| >= 1
    ensures forall i :: 0 <= i < |s| ==> s[i] != ' ' && s[i] != '/'
  {
    NatDigitsChars(Abs(a), base);
    if a < 0 then "-" + NatDigits(-a, base) else NatDigits(a, base)
  }

  /** Reads back a string of digits, most significant first. */
  function ParseNat(s: string, base: int): int
    decreases |s|
  {
    if s == [] then 0
    else ParseNat(s[..|s| - 1], base) * base + DigitValue(s[|s| - 1])
  }

  /** Reads back an optionally signed numeral. */
  function Parse(s: string, base: int): int {
    if |s| > 0 && s[0] == '-' then -ParseNat(s[1..], base) else ParseNat(s, base)
  }

  lemma DigitRoundTrip(d: nat)
    requires d < 36
    ensures DigitValue(DigitChar(d)) == d
  {
  }

  lemma DigitCharZero(d: nat)
    requires d < 36
    ensures DigitChar(d) == '0' <==> d == 0
  {
  }

  lemma {:induction false} NatDigitsRoundTrip(n: nat, base: int)
    requires ValidBase(base)
    ensures ParseNat(NatDigits(n, base), base) == n
    decreases n
  {
    var s := NatDigits(n, base);
    if n < base {
      DigitRoundTrip(n);
      assert s[..0] == [];
      assert ParseNat(s, base) == ParseNat([], base) * base + n;
    } else {
      QuotientShrinks(n, base);
      var q, r := n / base, n % base;
      var front := NatDigits(q, base);
      assert s == front + [DigitChar(r)];
      NatDigitsRoundTrip(q, base);
      DigitRoundTrip(r);
      ParseAppend(front, DigitChar(r), base);
      DivMod(n, base);
    }
  }

  /** Appending a digit shifts the value by one place. */
  lemma ParseAppend(front: string, c: char, base: int)
    ensures ParseNat(front + [c], base) == ParseNat(front, base) * base + DigitValue(c)
  {
    assert (front + [c])[..|front|] == front;
  }

  lemma {:induction false} NatDigitsNoLeadingZero(n: nat, base: int)
    requires ValidBase(base)
    ensures NatDigits(n, base)[0] == '0' ==> n == 0
    ensures NatDigits(n, base)[0] != '-'
    decreases n
  {
    if n >= base {
      QuotientShrinks(n, base);
      NatDigitsNoLeadingZero(n / base, base);
      assert NatDigits(n, base)[0] == NatDigits(n / base, base)[0];
    } else {
      DigitCharZero(n);
    }
  }

  /**
   * Rendering can be read back: parsing the numeral reproduces the value,
   * a leading '-' appears exactly for negative values, and no numeral other
   * than "0" starts with the digit zero.
   */
  lemma RenderRoundTrip(a: int, base: int)
    requires ValidBase(base)
    ensures Parse(Render(a, base), base) == a
    ensures Render(a, base)[0] == '-' <==> a < 0
    ensures a >= 0 ==> (Render(a, base)[0] == '0' <==> a == 0)
  {
    if a < 0 {
      NatDigitsRoundTrip(-a, base);
      assert Render(a, base)[1..] == NatDigits(-a, base);
    } else {
      NatDigitsRoundTrip(a, base);
      NatDigitsNoLeadingZero(a, base);
    }
    NatDigitsNoLeadingZero(Abs(a), base);
  }
}
