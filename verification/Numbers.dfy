/** Natural numbers as digit strings, and back. */
module Numbers {
  predicate IsDigit(c: char) {
    '0' <= c <= '9' || 'a' <= c <= 'z'
  }

  function Digit(d: nat): (c: char)
    requires d < 36
    ensures IsDigit(c)
    ensures d < 10 ==> '0' <= c <= '9'
  {
    if d < 10 then '0' + d as char else 'a' + (d - 10) as char
  }

  lemma DivisionShrinks(n: nat, radix: nat)
    requires 2 <= radix <= n
    ensures 0 < n / radix < n
  {
  }

  function Digits(n: nat, radix: nat): (s: string)
    requires 2 <= radix <= 36
    ensures s != [] && forall i | 0 <= i < |s| :: IsDigit(s[i])
    ensures radix <= 10 ==> forall i | 0 <= i < |s| :: '0' <= s[i] <= '9'
  {
    if n < radix then [Digit(n)]
    else
      DivisionShrinks(n, radix);
      Digits(n / radix, radix) + [Digit(n % radix)]
  }

  lemma DigitInjective(a: nat, b: nat)
    requires a < 36 && b < 36 && Digit(a) == Digit(b)
    ensures a == b
  {
  }

  lemma DigitsUnfold(n: nat, radix: nat)
    requires 2 <= radix <= 36 && n >= radix
    ensures var s := Digits(n, radix);
            |s| >= 2 && s[..|s| - 1] == Digits(n / radix, radix) && s[|s| - 1] == Digit(n % radix)
  {
  }

  lemma DivMod(n: nat, radix: nat)
    requires radix > 0
    ensures n == n / radix * radix + n % radix
  {
  }

  lemma {:induction false} DecimalInjective(a: nat, b: nat)
    requires Digits(a, 10) == Digits(b, 10)
    ensures a == b
    decreases a
  {
    if a >= 10 {
      DigitsUnfold(a, 10);
    }
    if b >= 10 {
      DigitsUnfold(b, 10);
    }
    if a < 10 {
      DigitInjective(a, b);
    } else {
      DigitInjective(a % 10, b % 10);
      DecimalInjective(a / 10, b / 10);
    }
  }

  function Power(radix: nat, k: nat): nat {
    if k == 0 then 1 else radix * Power(radix, k - 1)
  }

  lemma SmallerFactor(radix: nat, q: nat, p: nat)
    requires radix * q < radix * p
    ensures q < p
  {
  }

  lemma {:induction false} DigitsLength(n: nat, radix: nat, k: nat)
    requires 2 <= radix <= 36 && k > 0 && n < Power(radix, k)
    ensures |Digits(n, radix)| <= k
    decreases k
  {
    if n >= radix {
      DivMod(n, radix);
      SmallerFactor(radix, n / radix, Power(radix, k - 1));
      DigitsLength(n / radix, radix, k - 1);
    }
  }

  /** The number a string of digits stands for in a radix. */
  function Stands(s: string, radix: nat): nat
    requires forall i | 0 <= i < |s| :: IsDigit(s[i])
  {
    if s == "" then 0
    else Stands(s[..|s| - 1], radix) * radix + DigitValue(s[|s| - 1])
  }

  function DigitValue(c: char): nat
    requires IsDigit(c)
  {
    if c <= '9' then c as int - '0' as int else c as int - 'a' as int + 10
  }

  lemma DigitStands(d: nat)
    requires d < 36
    ensures DigitValue(Digit(d)) == d
  {
  }

  lemma {:induction false} StandsForDigits(n: nat, radix: nat)
    requires 2 <= radix <= 36
    ensures Stands(Digits(n, radix), radix) == n
    decreases n
  {
    if n >= radix {
      DivisionShrinks(n, radix);
      StandsForDigits(n / radix, radix);
      LastDigit(n, radix, Digits(n, radix));
      StandsUnfold(Digits(n, radix), radix);
    } else {
      OneDigitStands(n, radix);
    }
  }

  lemma OneDigitStands(n: nat, radix: nat)
    requires n < radix <= 36
    ensures Stands([Digit(n)], radix) == n
  {
    DigitStands(n);
    StandsUnfold([Digit(n)], radix);
    assert [Digit(n)][..0] == "";
  }

  lemma LastDigit(n: nat, radix: nat, digits: string)
    requires 2 <= radix <= 36 && n >= radix && digits == Digits(n, radix)
    requires Stands(Digits(n / radix, radix), radix) == n / radix
    ensures Stands(digits[..|digits| - 1], radix) * radix + DigitValue(digits[|digits| - 1]) == n
  {
    DigitsUnfold(n, radix);
    DigitStands(n % radix);
    DivMod(n, radix);
  }

  lemma StandsUnfold(s: string, radix: nat)
    requires s != "" && forall i | 0 <= i < |s| :: IsDigit(s[i])
    ensures Stands(s, radix) == Stands(s[..|s| - 1], radix) * radix + DigitValue(s[|s| - 1])
  {
  }

  /** The value of a string of decimal digits. */
  function Value(s: string): nat
    requires forall i | 0 <= i < |s| :: '0' <= s[i] <= '9'
  {
    if s == "" then 0 else Value(s[..|s| - 1]) * 10 + (s[|s| - 1] - '0') as int
  }

  lemma {:induction false} ValueOfDigits(n: nat)
    ensures Value(Digits(n, 10)) == n
  {
    if n >= 10 {
      DigitsUnfold(n, 10);
      ValueOfDigits(n / 10);
    } else {
      assert Digits(n, 10)[..0] == "";
    }
  }
}
