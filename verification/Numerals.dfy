/** Decimal numerals. */
module Numerals {

  predicate IsDigit(c: char) { '0' <= c <= '9' }

  predicate Digits(s: string) { forall i :: 0 <= i < |s| ==> IsDigit(s[i]) }

  function DigitValue(c: char): (v: nat)
    requires IsDigit(c)
    ensures v < 10
  {
    c as int - '0' as int
  }

  function DigitChar(v: nat): (c: char)
    requires v < 10
    ensures IsDigit(c) && DigitValue(c) == v
  {
    '0' + v as char
  }

  lemma DigitMeans(v: nat)
    ensures v < 10 ==> "0123456789"[v] == DigitChar(v) && DigitValue("0123456789"[v]) == v
  {
  }

  function Value(s: string): nat
    requires Digits(s)
  {
    if s == [] then 0 else Value(s[..|s| - 1]) * 10 + DigitValue(s[|s| - 1])
  }

  /** The canonical numeral: no leading zero, except for zero itself. */
  function Decimal(n: nat): (s: string)
    ensures s != [] && Digits(s)
  {
    if n < 10 then [DigitChar(n)] else Decimal(n / 10) + [DigitChar(n % 10)]
  }

  lemma {:induction false} ValueOfDecimal(n: nat)
    ensures Value(Decimal(n)) == n
  {
    if n >= 10 {
      ValueOfDecimal(n / 10);
      assert Decimal(n)[..|Decimal(n)| - 1] == Decimal(n / 10);
    }
  }

  /** No spelling of a number is shorter than the canonical one. */
  lemma {:induction false} DecimalIsShortest(s: string)
    requires s != [] && Digits(s)
    ensures |Decimal(Value(s))| <= |s|
  {
    if |s| > 1 {
      var init := s[..|s| - 1];
      DecimalIsShortest(init);
      assert Value(s) / 10 == Value(init);
    }
  }

  lemma {:induction false} DecimalLength(n: nat, digits: nat, bound: nat)
    requires digits >= 1 && bound == Power10(digits) && n < bound
    ensures |Decimal(n)| <= digits
    decreases n
  {
    if n >= 10 {
      assert digits >= 2;
      DecimalLength(n / 10, digits - 1, Power10(digits - 1));
    }
  }

  function Power10(n: nat): (p: nat)
    ensures p >= 1
  {
    if n == 0 then 1 else 10 * Power10(n - 1)
  }

  /** Exactly `width` digits, with leading zeros. */
  function Padded(n: nat, width: nat): (s: string)
    ensures |s| == width && Digits(s)
    decreases width
  {
    if width == 0 then [] else Padded(n / 10, width - 1) + [DigitChar(n % 10)]
  }

  lemma {:induction false} ValueOfPadded(n: nat, width: nat)
    requires n < Power10(width)
    ensures Value(Padded(n, width)) == n
    decreases width
  {
    if width > 0 {
      ValueOfPadded(n / 10, width - 1);
      assert Padded(n, width)[..width - 1] == Padded(n / 10, width - 1);
    }
  }
}
