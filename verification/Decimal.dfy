/** Natural numbers in decimal. */
module Decimal {

  predicate IsDigit(c: char) { '0' <= c <= '9' }

  function DigitChar(d: nat): char
    requires d < 10
  {
    ('0' as int + d) as char
  }

  function Digits(n: nat): (r: string)
    ensures r != []
    ensures forall i :: 0 <= i < |r| ==> IsDigit(r[i])
  {
    if n < 10 then [DigitChar(n)] else Digits(n / 10) + [DigitChar(n % 10)]
  }

  function ValueOf(s: string): int {
    if s == [] then 0 else ValueOf(s[..|s| - 1]) * 10 + (s[|s| - 1] as int - '0' as int)
  }

  lemma {:induction false} ValueOfDigits(n: nat)
    ensures ValueOf(Digits(n)) == n
  {
    if n < 10 {
      assert Digits(n)[..0] == [];
    } else {
      ValueOfDigits(n / 10);
      var d := Digits(n);
      assert d[..|d| - 1] == Digits(n / 10);
    }
  }

  lemma DigitsInjective(a: nat, b: nat)
    requires Digits(a) == Digits(b)
    ensures a == b
  {
    ValueOfDigits(a);
    ValueOfDigits(b);
  }
}
