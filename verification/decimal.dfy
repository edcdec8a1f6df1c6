/**
  Decimal rendering of natural numbers.

  The register table builds names such as "a7" or "s11" by appending the
  decimal rendering of a non-negative loop index to a class prefix. This
  module models that rendering (the non-negative case of `std::to_string`
  on an `int`) as a pure function, together with the reading it inverts,
  so that distinct indices are known to give distinct names.
*/
module Decimal {

  predicate IsDigit(c: char) {
    '0' <= c <= '9'
  }

  predicate IsDigits(s: string) {
    forall k :: 0 <= k < |s| ==> IsDigit(s[k])
  }

  /** A canonical numeral: non-empty, digits only, and no leading zero
      unless the numeral is "0" itself. */
  predicate IsCanonical(s: string) {
    && |s| >= 1
    && IsDigits(s)
    && (|s| > 1 ==> s[0] != '0')
  }

  function DigitChar(d: nat): (c: char)
    requires d < 10
    ensures IsDigit(c)
  {
    ('0' as int + d) as char
  }

  function DigitValue(c: char): (d: nat)
    requires IsDigit(c)
    ensures d < 10
    ensures DigitChar(d) == c
  {
    c as int - '0' as int
  }

  /** The decimal numeral of `n`, most significant digit first. */
  function FromNat(n: nat): (s: string)
    ensures IsCanonical(s)
    ensures |s| == 1 <==> n < 10
    ensures s[0] == '0' <==> n == 0
  {
    if n < 10 then [DigitChar(n)] else FromNat(n / 10) + [DigitChar(n % 10)]
  }

  /** The value a string of digits denotes (the empty string reads as 0). */
  function ToNat(s: string): (n: nat)
    requires IsDigits(s)
  {
    if |s| == 0 then 0 else ToNat(s[..|s| - 1]) * 10 + DigitValue(s[|s| - 1])
  }

  /** Reading back a rendered number gives the number. */
  lemma {:induction false} ToNatFromNat(n: nat)
    ensures ToNat(FromNat(n)) == n
  {
    var s := FromNat(n);
    if n < 10 {
      assert s[..0] == [];
    } else {
      ToNatFromNat(n / 10);
      assert s[..|s| - 1] == FromNat(n / 10);
    }
  }

  /** Distinct numbers have distinct numerals. */
  lemma FromNatInjective(m: nat, n: nat)
    ensures FromNat(m) == FromNat(n) <==> m == n
  {
    ToNatFromNat(m);
    ToNatFromNat(n);
  }

  /** A digit string whose first digit is not '0' denotes a positive number. */
  lemma {:induction false} LeadingDigitPositive(s: string)
    requires |s| >= 1 && IsDigits(s) && s[0] != '0'
    ensures ToNat(s) >= 1
  {
    if |s| > 1 {
      var init := s[..|s| - 1];
      assert init[0] == s[0];
      LeadingDigitPositive(init);
    } else {
      assert s[..0] == [];
    }
  }

  /** Rendering the value of a canonical numeral gives the numeral back, so
      every canonical numeral is the rendering of exactly one number. */
  lemma {:induction false} FromNatToNat(s: string)
    requires IsCanonical(s)
    ensures FromNat(ToNat(s)) == s
  {
    var init := s[..|s| - 1];
    var d := DigitValue(s[|s| - 1]);
    if |s| == 1 {
      assert init == [];
      assert ToNat(s) == d;
      assert FromNat(d) == [s[0]];
    } else {
      assert init[0] == s[0];
      LeadingDigitPositive(init);
      FromNatToNat(init);
      var v := ToNat(s);
      assert v == ToNat(init) * 10 + d;
      assert v / 10 == ToNat(init) && v % 10 == d;
      assert FromNat(v) == FromNat(ToNat(init)) + [DigitChar(d)];
      assert s == init + [s[|s| - 1]];
    }
  }
}
