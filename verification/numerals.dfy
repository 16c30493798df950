/**
 * Decimal numerals as the frontend builds and reads them: `String(n)` of a
 * non-negative integer, `padStart`, and the digit run `parseInt` consumes.
 */
module Numerals {
  predicate IsDigit(c: char) {
    '0' <= c <= '9'
  }

  predicate AllDigits(s: string) {
    forall i :: 0 <= i < |s| ==> IsDigit(s[i])
  }

  function DigitChar(d: nat): (c: char)
    requires d < 10
    ensures IsDigit(c)
  {
    ('0' as int + d) as char
  }

  function DigitValue(c: char): (d: nat)
    requires IsDigit(c)
    ensures d < 10 && DigitChar(d) == c
  {
    c as int - '0' as int
  }

  /** `String(n)` for a non-negative integer: its shortest decimal numeral. */
  function Decimal(n: nat): (s: string)
    ensures |s| >= 1 && AllDigits(s)
    ensures n < 10 <==> |s| == 1
  {
    if n < 10 then [DigitChar(n)] else Decimal(n / 10) + [DigitChar(n % 10)]
  }

  /** The number a run of digits denotes. */
  function DigitsValue(s: string): nat
    requires AllDigits(s)
  {
    if s == [] then 0 else 10 * DigitsValue(s[..|s| - 1]) + DigitValue(s[|s| - 1])
  }

  /** Reading a numeral back gives the number it was written from. */
  lemma {:induction false} DigitsValueOfDecimal(n: nat)
    ensures DigitsValue(Decimal(n)) == n
  {
    if n >= 10 {
      var s := Decimal(n);
      assert s[..|s| - 1] == Decimal(n / 10);
      DigitsValueOfDecimal(n / 10);
    }
  }

  /** Distinct numbers are written differently. */
  lemma DecimalInjective(a: nat, b: nat)
    requires Decimal(a) == Decimal(b)
    ensures a == b
  {
    DigitsValueOfDecimal(a);
    DigitsValueOfDecimal(b);
  }

  /** The longest prefix of `s` made of digits. */
  function LeadingDigits(s: string): (r: string)
    ensures |r| <= |s| && r == s[..|r|] && AllDigits(r)
    ensures |r| < |s| ==> !IsDigit(s[|r|])
  {
    if |s| > 0 && IsDigit(s[0]) then [s[0]] + LeadingDigits(s[1..]) else []
  }

  /** A string of digits is its own leading run. */
  lemma {:induction false} LeadingDigitsOfDigits(s: string)
    requires AllDigits(s)
    ensures LeadingDigits(s) == s
  {
    if |s| > 0 {
      LeadingDigitsOfDigits(s[1..]);
    }
  }

  /** `s.padStart(width, pad)`: `pad` repeated on the left up to `width` characters. */
  function PadStart(s: string, width: nat, pad: char): (r: string)
    decreases width - |s|
    ensures |s| >= width ==> r == s
    ensures |s| < width ==> |r| == width
    ensures |r| >= |s| && r[|r| - |s|..] == s
    ensures forall i :: 0 <= i < |r| - |s| ==> r[i] == pad
  {
    if |s| >= width then s else PadStart([pad] + s, width, pad)
  }

  /** `String(n).padStart(2, "0")` for n below 100: exactly two digits. */
  function TwoDigits(n: nat): (r: string)
    requires n < 100
    ensures |r| == 2 && AllDigits(r) && DigitsValue(r) == n
  {
    TwoDigitsReadBack(n);
    PadStart(Decimal(n), 2, '0')
  }

  lemma TwoDigitsReadBack(n: nat)
    requires n < 100
    ensures var r := PadStart(Decimal(n), 2, '0');
      |r| == 2 && AllDigits(r) && DigitsValue(r) == n
  {
    if n < 10 {
      OneDigitPadded(n);
    } else {
      TwoDigitNumeral(n);
    }
  }

  lemma OneDigitPadded(n: nat)
    requires n < 10
    ensures PadStart(Decimal(n), 2, '0') == ['0', DigitChar(n)]
    ensures DigitsValue(['0', DigitChar(n)]) == n
  {
    var d := DigitChar(n);
    assert PadStart([d], 2, '0') == PadStart(['0', d], 2, '0');
    var two := ['0', d];
    assert two[..1] == ['0'] && two[1] == d;
    assert DigitsValue(['0']) == 0 by {
      assert ['0'][..0] == [];
    }
    assert DigitValue(d) == n;
  }

  lemma TwoDigitNumeral(n: nat)
    requires 10 <= n < 100
    ensures |Decimal(n)| == 2 && PadStart(Decimal(n), 2, '0') == Decimal(n)
    ensures DigitsValue(Decimal(n)) == n
  {
    assert |Decimal(n / 10)| == 1;
    DigitsValueOfDecimal(n);
  }
}
