/** Decimal numerals: the digit strings that virtual-node keys and dictionary counters are made of. */
module Decimal {
  import opened Wrappers

  predicate IsDigit(c: char)
  {
    '0' <= c <= '9'
  }

  function DigitChar(d: nat): (c: char)
    requires d < 10
    ensures IsDigit(c) && DigitValue(c) == d
  {
    '0' + d as char
  }

  function DigitValue(c: char): (d: nat)
    requires IsDigit(c)
    ensures d < 10
  {
    (c - '0') as nat
  }

  /** The numeral of a non-negative number, most significant digit first. */
  function Digits(n: nat): (s: string)
    ensures s != []
  {
    if n < 10 then [DigitChar(n)] else Digits(n / 10) + [DigitChar(n % 10)]
  }

  /** Different numbers have different numerals. */
  lemma {:induction false} DigitsInjective(m: nat, n: nat)
    requires Digits(m) == Digits(n)
    ensures m == n
  {
    var s, t := Digits(m), Digits(n);
    assert DigitValue(s[|s|-1]) == m % 10 && DigitValue(t[|t|-1]) == n % 10;
    assert (|s| == 1 <==> m < 10) && (|t| == 1 <==> n < 10);
    if m >= 10 {
      assert s[..|s|-1] == Digits(m / 10) && t[..|t|-1] == Digits(n / 10);
      DigitsInjective(m / 10, n / 10);
    }
  }

  /** The numerals are the ordinary decimal ones. */
  lemma DecimalNumerals()
    ensures Digits(0) == "0" && Digits(7) == "7" && Digits(1234567890) == "1234567890"
  {
    assert Digits(1) == "1" && Digits(12) == "12" && Digits(123) == "123" && Digits(1234) == "1234";
    assert Digits(12345) == "12345" && Digits(123456) == "123456" && Digits(1234567) == "1234567";
    assert Digits(12345678) == "12345678" && Digits(123456789) == "123456789";
  }

  // ---------------------------------------------------------------- 64-bit integers

  const HALF_RANGE: int := 0x8000_0000_0000_0000

  predicate IsInt64(x: int)
  {
    -HALF_RANGE <= x < HALF_RANGE
  }

  /** What a 64-bit integer makes of a result that may not fit. */
  function Wrap(x: int): (r: int)
    ensures IsInt64(r)
    ensures IsInt64(x) ==> r == x
  {
    (x + HALF_RANGE) % (2 * HALF_RANGE) - HALF_RANGE
  }

  /** A sum of two of them that does not fit comes out with the other sign. */
  lemma WrappedSum(x: int, y: int)
    requires IsInt64(x) && IsInt64(y)
    ensures Wrap(x + y) == if x + y >= HALF_RANGE then x + y - 2 * HALF_RANGE
                           else if x + y < -HALF_RANGE then x + y + 2 * HALF_RANGE
                           else x + y
  {
  }

  /** The text written for a 64-bit integer; the least one has no positive counterpart and loses its
      digits. */
  function Numeral(n: int): string
    requires IsInt64(n)
  {
    if n == -HALF_RANGE then "-" else if n < 0 then "-" + Digits(-n) else Digits(n)
  }

  /** A negative number is written as a minus sign before its counterpart, the least one as the sign alone. */
  lemma NegativeNumeral(n: int)
    requires -0x8000_0000_0000_0000 <= n < 0
    ensures Numeral(n) == "-" + if n == -0x8000_0000_0000_0000 then "" else Digits(-n)
    ensures HALF_RANGE == 0x8000_0000_0000_0000
  {
  }

  /** The value read from left to right in 64 bits; `None` as soon as a character is not a digit. */
  function Parse(s: string): (r: Option<int>)
    ensures r.Some? ==> IsInt64(r.value)
  {
    if s == [] then Some(0)
    else
      var front := Parse(s[..|s|-1]);
      if front.Some? && IsDigit(s[|s|-1]) then Some(Wrap(front.value * 10 + DigitValue(s[|s|-1]))) else None
  }

  lemma {:induction false} ParseDigits(n: nat)
    requires n < HALF_RANGE
    ensures Parse(Digits(n)) == Some(n)
  {
    var s := Digits(n);
    if n < 10 {
      assert s[..|s|-1] == [];
    } else {
      ParseDigits(n / 10);
      assert s[..|s|-1] == Digits(n / 10);
    }
  }

  lemma {:induction false} ParseNonDigit(s: string, i: nat)
    requires i < |s| && !IsDigit(s[i])
    ensures Parse(s) == None
  {
    if i < |s| - 1 {
      ParseNonDigit(s[..|s|-1], i);
    }
  }

  /** Reading a written number back succeeds exactly for the non-negative ones. */
  lemma NumeralRoundTrip(n: int)
    requires IsInt64(n)
    ensures Parse(Numeral(n)) == if n >= 0 then Some(n) else None
  {
    if n >= 0 {
      ParseDigits(n);
    } else {
      ParseNonDigit(Numeral(n), 0);
    }
  }
}
