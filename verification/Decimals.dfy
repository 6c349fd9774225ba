/** Numbers written in decimal. */
module Decimals {

  function Digit(n: nat): char
    requires n < 10
  {
    "0123456789"[n]
  }

  function Decimal(n: nat): string {
    if n < 10 then [Digit(n)] else Decimal(n / 10) + [Digit(n % 10)]
  }

  predicate IsDigit(c: char) {
    '0' <= c <= '9'
  }

  lemma DigitIs(n: nat)
    requires n < 10
    ensures Digit(n) == '0' + n as char && IsDigit(Digit(n))
  {
  }

  lemma {:induction false} DecimalDigits(n: nat)
    ensures |Decimal(n)| > 0 && forall i | 0 <= i < |Decimal(n)| :: IsDigit(Decimal(n)[i])
  {
    DigitIs(n % 10);
    if n >= 10 { DecimalDigits(n / 10); } else { DigitIs(n); }
  }

  lemma {:induction false} DecimalInjective(m: nat, n: nat)
    requires Decimal(m) == Decimal(n)
    ensures m == n
  {
    DecimalSplits(m);
    DecimalSplits(n);
    var s := Decimal(m);
    DigitIs(m % 10);
    DigitIs(n % 10);
    assert Digit(m % 10) == s[|s| - 1] == Digit(n % 10);
    if m >= 10 {
      assert n >= 10;
      assert Decimal(m / 10) == s[..|s| - 1] == Decimal(n / 10);
      DecimalInjective(m / 10, n / 10);
    }
  }

  lemma DecimalSplits(n: nat)
    ensures |Decimal(n)| > 0 && Decimal(n)[|Decimal(n)| - 1] == Digit(n % 10)
    ensures n >= 10 ==> |Decimal(n)| > 1 && Decimal(n)[..|Decimal(n)| - 1] == Decimal(n / 10)
    ensures n < 10 ==> |Decimal(n)| == 1
  {
    DecimalDigits(n / 10);
  }

  function PowerOfTen(n: nat): nat {
    if n == 0 then 1 else 10 * PowerOfTen(n - 1)
  }

  /** Large numbers have many digits. */
  lemma {:induction false} ManyDigits(i: nat, n: nat)
    requires i >= PowerOfTen(n)
    ensures |Decimal(i)| > n
  {
    DecimalSplits(i);
    if n > 0 {
      PowerPositive(n - 1);
      ManyDigits(i / 10, n - 1);
    }
  }

  lemma {:induction false} PowerPositive(n: nat)
    ensures PowerOfTen(n) >= 1
  {
    if n > 0 { PowerPositive(n - 1); }
  }

  /** Larger numbers have no fewer digits. */
  lemma {:induction false} MoreDigits(i: nat, j: nat)
    requires i <= j
    ensures |Decimal(i)| <= |Decimal(j)|
  {
    DecimalSplits(i);
    DecimalSplits(j);
    if i >= 10 { MoreDigits(i / 10, j / 10); }
  }

  /** Two numbers written after the same kind of text, which ends in no digit, are read off the end. */
  lemma NumberAtEnd(a: string, b: string, m: nat, n: nat)
    requires a != "" && b != "" && !IsDigit(a[|a| - 1]) && !IsDigit(b[|b| - 1])
    requires a + Decimal(m) == b + Decimal(n)
    ensures m == n
  {
    var s := a + Decimal(m);
    LastNonDigit(a, m);
    LastNonDigit(b, n);
    assert Decimal(m) == s[|a|..] && Decimal(n) == s[|b|..];
    DecimalInjective(m, n);
  }

  lemma LastNonDigit(a: string, m: nat)
    requires a != "" && !IsDigit(a[|a| - 1])
    ensures var s := a + Decimal(m); !IsDigit(s[|a| - 1]) && forall p | |a| <= p < |s| :: IsDigit(s[p])
  {
    DecimalDigits(m);
  }
}
