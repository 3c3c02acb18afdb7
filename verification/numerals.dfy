/**
 * Decimal rendering of numbers, as Python does it in the report caption:
 * `str(n)` (the `{now.day}` and `{now.year}` fields of an f-string) and the
 * zero-padded two-digit `%H` and `%M` directives of `strftime`.
 */
module Numerals {

  predicate IsDigit(c: char) {
    '0' <= c <= '9'
  }

  predicate AllDigits(s: string) {
    forall i :: 0 <= i < |s| ==> IsDigit(s[i])
  }

  /** The character of one decimal digit. */
  function DigitChar(d: nat): (c: char)
    requires d < 10
    ensures IsDigit(c) && c as int - '0' as int == d
  {
    ('0' as int + d) as char
  }

  /** The number a string of decimal digits denotes, most significant digit first. */
  function ValueOf(s: string): nat
    requires AllDigits(s)
  {
    if s == [] then 0 else ValueOf(s[..|s| - 1]) * 10 + (s[|s| - 1] as int - '0' as int)
  }

  /** `str(n)` for a natural number: decimal digits, with no leading zero. */
  function Decimal(n: nat): (s: string)
    ensures 1 <= |s| && AllDigits(s)
    ensures |s| > 1 ==> s[0] != '0'
    decreases n
  {
    if n < 10 then [DigitChar(n)] else Decimal(n / 10) + [DigitChar(n % 10)]
  }

  /** Reading back what `Decimal` wrote gives the number again. */
  lemma {:induction false} DecimalRoundTrip(n: nat)
    ensures ValueOf(Decimal(n)) == n
    decreases n
  {
    if n >= 10 {
      var s := Decimal(n);
      assert s[..|s| - 1] == Decimal(n / 10);
      DecimalRoundTrip(n / 10);
    }
  }

  /** The `%H` / `%M` field of `strftime`: always two digits, zero-padded. */
  function TwoDigits(n: nat): (s: string)
    requires n < 100
    ensures |s| == 2 && AllDigits(s)
    ensures ValueOf(s) == n
  {
    var s := [DigitChar(n / 10), DigitChar(n % 10)];
    assert s[..1] == [DigitChar(n / 10)] && s[..1][..0] == [];
    assert ValueOf(s[..1]) == n / 10;
    s
  }
}
