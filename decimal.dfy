/**
 * Decimal text of a natural number, as Python writes an int inside an
 * f-string (f"{counter}"): digits only, no sign, no leading zero.
 * ParseDec is its inverse, which makes the formatting injective.
 */
module Decimal {

  predicate IsDigit(c: char) {
    '0' <= c <= '9'
  }

  predicate IsDigits(s: string) {
    forall i :: 0 <= i < |s| ==> IsDigit(s[i])
  }

  /** The character of the decimal digit d. */
  function DigitChar(d: nat): (c: char)
    requires d < 10
    ensures IsDigit(c) && c as int - '0' as int == d
  {
    ('0' as int + d) as char
  }

  function DigitValue(c: char): nat
    requires IsDigit(c)
  {
    c as int - '0' as int
  }

  /** Decimal text of k: at least one digit, and a leading '0' only for k == 0. */
  function Dec(k: nat): (s: string)
    ensures |s| >= 1 && IsDigits(s)
    ensures (s[0] == '0') <==> (k == 0)
  {
    if k < 10 then [DigitChar(k)] else Dec(k / 10) + [DigitChar(k % 10)]
  }

  /** The value of a string of decimal digits (most significant first). */
  function ParseDec(s: string): nat
    requires IsDigits(s)
  {
    if s == [] then 0 else 10 * ParseDec(s[..|s| - 1]) + DigitValue(s[|s| - 1])
  }

  /** Reading back the decimal text of k gives k. */
  lemma {:induction false} ParseDecOfDec(k: nat)
    ensures ParseDec(Dec(k)) == k
  {
    if k >= 10 {
      var s := Dec(k);
      assert s[..|s| - 1] == Dec(k / 10);
      ParseDecOfDec(k / 10);
    }
  }

  /** Distinct numbers have distinct decimal texts. */
  lemma DecInjective(j: nat, k: nat)
    ensures Dec(j) == Dec(k) ==> j == k
  {
    ParseDecOfDec(j);
    ParseDecOfDec(k);
  }
}
