/** Unsigned decimal numerals over the ASCII digits `0`..`9`, the only characters the
    character class `[0-9]` admits. */
module Decimal {

  const Int32Max: int := 2147483647

  predicate IsDigit(c: char) {
    '0' <= c <= '9'
  }

  predicate AllDigits(s: string) {
    forall i | 0 <= i < |s| :: IsDigit(s[i])
  }

  function DigitValue(c: char): (d: nat)
    requires IsDigit(c)
    ensures d < 10
  {
    c as int - '0' as int
  }

  function DigitChar(d: nat): (c: char)
    requires d < 10
    ensures IsDigit(c) && DigitValue(c) == d
  {
    ('0' as int + d) as char
  }

  function Pow10(k: nat): (p: nat)
    ensures p >= 1
  {
    if k == 0 then 1 else 10 * Pow10(k - 1)
  }

  /** The number a digit string denotes; leading zeros are allowed, as `int.Parse` allows them. */
  function Value(s: string): (n: nat)
    requires AllDigits(s)
    ensures n < Pow10(|s|)
  {
    if |s| == 0 then 0 else 10 * Value(s[..|s| - 1]) + DigitValue(s[|s| - 1])
  }

  lemma {:induction false} Pow10Monotonic(j: nat, k: nat)
    requires j <= k
    ensures Pow10(j) <= Pow10(k)
  {
    if j < k {
      Pow10Monotonic(j, k - 1);
    }
  }

  /** A numeral of at most nine digits always fits in an `int`. */
  lemma NineDigitsFitInt32(s: string)
    requires AllDigits(s) && |s| <= 9
    ensures Value(s) < 1000000000 < Int32Max
  {
    Pow10Monotonic(|s|, 9);
  }

  lemma DigitsConcat(a: string, b: string)
    requires AllDigits(a) && AllDigits(b)
    ensures AllDigits(a + b)
  {
    forall i | 0 <= i < |a + b| ensures IsDigit((a + b)[i]) {
      if i < |a| { assert (a + b)[i] == a[i]; } else { assert (a + b)[i] == b[i - |a|]; }
    }
  }

  /** The canonical numeral of `n`: no leading zero except for `n == 0` itself. */
  function Text(n: nat): (s: string)
    ensures 1 <= |s| && AllDigits(s)
    ensures Value(s) == n
  {
    if n < 10 then
      [DigitChar(n)]
    else
      var s := Text(n / 10) + [DigitChar(n % 10)];
      assert s[..|s| - 1] == Text(n / 10);
      s
  }

  /** A number below 10^9 has a numeral of at most nine digits. */
  lemma NumeralBelowBillion(n: nat)
    requires n < 1000000000
    ensures |Text(n)| <= 9
  {
    assert Pow10(9) == 1000000000;
    NumeralLength(n, 9);
  }

  /** A number below 10^k has a numeral of at most k digits. */
  lemma {:induction false} NumeralLength(n: nat, k: nat)
    requires 1 <= k && n < Pow10(k)
    ensures |Text(n)| <= k
  {
    if n >= 10 {
      NumeralLength(n / 10, k - 1);
    }
  }
}
