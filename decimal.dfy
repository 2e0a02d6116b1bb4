/** Decimal numerals of non-negative integers, as Python's `str(int)` writes them. */
module Decimal {

  predicate IsDigit(c: char) {
    '0' <= c <= '9'
  }

  predicate AllDigits(s: string) {
    forall i :: 0 <= i < |s| ==> IsDigit(s[i])
  }

  function DigitChar(d: nat): (c: char)
    requires d < 10
    ensures IsDigit(c) && c as int - '0' as int == d
  {
    (d + '0' as int) as char
  }

  function DigitValue(c: char): (d: nat)
    requires IsDigit(c)
    ensures d < 10
  {
    c as int - '0' as int
  }

  /** The canonical decimal numeral of `n`: non-empty, digits only, no leading zero. */
  function Show(n: nat): (s: string)
    ensures |s| > 0 && AllDigits(s)
    ensures Canonical(s)
    ensures s[0] == '0' ==> n == 0
  {
    if n < 10 then [DigitChar(n)] else Show(n / 10) + [DigitChar(n % 10)]
  }

  /** The number a string of digits denotes (most significant digit first). */
  function Value(s: string): nat
    requires AllDigits(s)
  {
    if s == [] then 0 else Value(s[..|s| - 1]) * 10 + DigitValue(s[|s| - 1])
  }

  /** Reading back a numeral gives the number that was written. */
  lemma {:induction false} ValueOfShow(n: nat)
    ensures Value(Show(n)) == n
  {
    if n >= 10 {
      var s := Show(n);
      assert s[..|s| - 1] == Show(n / 10);
      ValueOfShow(n / 10);
    }
  }

  /** A numeral as `str` writes one: at least one digit, and no leading zero unless it is `0`. */
  predicate Canonical(s: string) {
    |s| > 0 && AllDigits(s) && (s[0] == '0' ==> |s| == 1)
  }

  /** A digit string that does not start with `0` denotes a positive number. */
  lemma {:induction false} ValuePositive(s: string)
    requires |s| > 0 && AllDigits(s) && s[0] != '0'
    ensures Value(s) > 0
  {
    if |s| > 1 {
      ValuePositive(s[..|s| - 1]);
    }
  }

  /** Every canonical numeral is the one `Show` writes for the number it denotes. */
  lemma {:induction false} ShowOfValue(s: string)
    requires Canonical(s)
    ensures Show(Value(s)) == s
  {
    var n := |s| - 1;
    if n == 0 {
      assert Value(s) == DigitValue(s[0]);
      assert Show(Value(s)) == [s[0]];
    } else {
      var p := s[..n];
      ValuePositive(p);
      ShowOfValue(p);
      assert Value(s) == Value(p) * 10 + DigitValue(s[n]);
      assert Value(s) / 10 == Value(p) && Value(s) % 10 == DigitValue(s[n]);
      assert s == p + [s[n]];
    }
  }

  /** Different numbers have different numerals. */
  lemma ShowInjective(m: nat, n: nat)
    ensures Show(m) == Show(n) <==> m == n
  {
    if Show(m) == Show(n) {
      ValueOfShow(m);
      ValueOfShow(n);
    }
  }
}
