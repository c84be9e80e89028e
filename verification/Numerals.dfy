/** Decimal numerals: how an integer is printed, and the integer a text spells. */
module Numerals {
  import Texts

  function DigitChar(d: nat): (c: char)
    requires d < 10
    ensures Texts.IsDigit(c) && c as int == '0' as int + d
  {
    ('0' as int + d) as char
  }

  function DigitValue(c: char): (d: nat)
    requires Texts.IsDigit(c)
    ensures d < 10 && c as int == '0' as int + d
  {
    c as int - '0' as int
  }

  predicate IsDigits(s: string) {
    forall i :: 0 <= i < |s| ==> Texts.IsDigit(s[i])
  }

  function Decimal(n: nat): (s: string)
    ensures s != "" && IsDigits(s)
    ensures |s| > 1 ==> s[0] != '0'
  {
    if n < 10 then [DigitChar(n)] else Decimal(n / 10) + [DigitChar(n % 10)]
  }

  /** `String(n)` of an integer. */
  function IntText(n: int): string {
    if n < 0 then "-" + Decimal(-n) else Decimal(n)
  }

  function Value(s: string): nat
    requires IsDigits(s)
  {
    if s == "" then 0 else 10 * Value(s[..|s| - 1]) + DigitValue(s[|s| - 1])
  }

  lemma {:induction false} ValueOfDecimal(n: nat)
    ensures Value(Decimal(n)) == n
  {
    if n < 10 {
      assert Decimal(n)[..0] == "";
    } else {
      ValueOfDecimal(n / 10);
      assert Decimal(n)[..|Decimal(n)| - 1] == Decimal(n / 10);
    }
  }

  /** `Number(s)` of an optional sign and digits. */
  function IntValue(s: string): int
    requires s != "" && (IsDigits(s) || (s[0] == '-' && IsDigits(s[1..])))
  {
    if s[0] == '-' then 0 - Value(s[1..]) else Value(s)
  }

  lemma IntValueOfIntText(n: int)
    ensures var s := IntText(n);
            && s != "" && (IsDigits(s) || (s[0] == '-' && IsDigits(s[1..])))
            && IntValue(s) == n
  {
    ValueOfDecimal(if n < 0 then -n else n);
    if n < 0 {
      assert IntText(n)[1..] == Decimal(-n);
    } else {
      assert Texts.IsDigit(Decimal(n)[0]);
    }
  }

  lemma IntTextInjective(m: int, n: int)
    requires IntText(m) == IntText(n)
    ensures m == n
  {
    IntValueOfIntText(m);
    IntValueOfIntText(n);
  }
}
