/** Decimal numerals, as template strings print non-negative integers. */
module Decimals {

  function Digit(d: nat): char
    requires d < 10
  {
    ('0' as int + d) as char
  }

  function Decimal(n: nat): (s: string)
    ensures s != "" && forall i | 0 <= i < |s| :: '0' <= s[i] <= '9'
  {
    if n < 10 then [Digit(n)] else Decimal(n / 10) + [Digit(n % 10)]
  }

  lemma LastDigit(n: nat)
    ensures var s := Decimal(n);
      && s[|s| - 1] == Digit(n % 10)
      && (if n < 10 then |s| == 1 else |s| > 1 && s[..|s| - 1] == Decimal(n / 10))
  {
  }

  lemma {:induction false} DecimalInjective(a: nat, b: nat)
    requires Decimal(a) == Decimal(b)
    ensures a == b
  {
    LastDigit(a);
    LastDigit(b);
    if a >= 10 {
      DecimalInjective(a / 10, b / 10);
    }
  }
}
