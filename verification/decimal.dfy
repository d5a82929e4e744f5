/**
 How a template literal renders the number `getFullYear()` returns: an integer
 in base ten with a leading minus sign when negative, or `NaN` when the date
 string did not parse.
 */
module Decimal {
  import opened Wrappers

  predicate IsDigit(c: char)
  {
    '0' <= c <= '9'
  }

  predicate AllDigits(s: string)
  {
    forall i :: 0 <= i < |s| ==> IsDigit(s[i])
  }

  function DigitChar(d: nat): (c: char)
    requires d < 10
    ensures IsDigit(c)
  {
    "0123456789"[d]
  }

  function DigitValue(c: char): (d: nat)
    requires IsDigit(c)
    ensures d < 10
  {
    (c as int) - ('0' as int)
  }

  /** The base-ten digits of `n`, most significant first, without leading zeros. */
  function NatText(n: nat): (r: string)
    ensures |r| >= 1 && AllDigits(r)
    ensures r[0] == '0' ==> n == 0
    decreases n
  {
    if n < 10 then [DigitChar(n)] else NatText(n / 10) + [DigitChar(n % 10)]
  }

  /** The value of a string of base-ten digits. */
  function ParseNat(s: string): nat
    requires AllDigits(s)
    decreases |s|
  {
    if |s| == 0 then 0 else ParseNat(s[..|s| - 1]) * 10 + DigitValue(s[|s| - 1])
  }

  /** Reading the rendered digits back gives the number. */
  lemma {:induction false} NatTextRoundTrip(n: nat)
    ensures ParseNat(NatText(n)) == n
    decreases n
  {
    var r := NatText(n);
    if n < 10 {
      assert r[..|r| - 1] == [];
      assert DigitValue(DigitChar(n)) == n by {
        assert "0123456789"[n] as int == '0' as int + n;
      }
    } else {
      NatTextRoundTrip(n / 10);
      assert r[..|r| - 1] == NatText(n / 10);
      assert DigitValue(DigitChar(n % 10)) == n % 10 by {
        assert "0123456789"[n % 10] as int == '0' as int + n % 10;
      }
    }
  }

  /** `${year}` for a year that is a number or `NaN`. */
  function YearText(year: Option<int>): (r: string)
    ensures |r| >= 1 && '\n' !in r
    ensures year.Some? && year.value >= 0 ==> AllDigits(r)
    ensures year.Some? && year.value < 0 ==> r[0] == '-' && AllDigits(r[1..])
    ensures year.None? ==> r[0] != '-' && !AllDigits(r)
  {
    match year
    case None => "NaN"
    case Some(y) => if y < 0 then "-" + NatText(-y) else NatText(y)
  }

  /** Reads a rendered year back; anything that is not an optionally signed
      digit string, such as `NaN`, reads as no year. */
  function ParseYear(s: string): Option<int>
  {
    if |s| > 1 && s[0] == '-' && AllDigits(s[1..]) then
      var v: int := 0 - ParseNat(s[1..]) as int;
      Some(v)
    else if |s| > 0 && AllDigits(s) then Some(ParseNat(s))
    else None
  }

  /** A minus sign followed by digits reads as the negated digit value. */
  lemma ParseNegative(digits: string)
    requires |digits| >= 1 && AllDigits(digits)
    ensures ParseYear("-" + digits) == Some(0 - ParseNat(digits) as int)
  {
    var text := "-" + digits;
    assert text[1..] == digits;
    assert |text| > 1 && text[0] == '-' && AllDigits(text[1..]);
  }

  /** A negative year renders as a minus sign followed by the digits of its magnitude. */
  lemma NegativeYearText(n: nat)
    requires n > 0
    ensures YearText(Some(0 - n)) == "-" + NatText(n)
  {
  }

  /** A negative year reads back through its minus sign. */
  lemma NegativeYearRoundTrip(y: int)
    requires y < 0
    ensures ParseYear(YearText(Some(y))) == Some(y)
  {
    var n: nat := -y;
    NegativeYearText(n);
    ParseNegative(NatText(n));
    NatTextRoundTrip(n);
  }

  /** A year of zero or more reads back as its digits. */
  lemma NonNegativeYearRoundTrip(y: int)
    requires y >= 0
    ensures ParseYear(YearText(Some(y))) == Some(y)
  {
    var digits := NatText(y);
    NatTextRoundTrip(y);
    assert digits[0] != '-' by {
      assert IsDigit(digits[0]);
    }
  }

  /** Distinct years render differently: the rendering can be read back. */
  lemma YearTextRoundTrip(year: Option<int>)
    ensures ParseYear(YearText(year)) == year
  {
    match year
    case None =>
      assert !IsDigit("NaN"[0]);
    case Some(y) =>
      if y < 0 {
        NegativeYearRoundTrip(y);
      } else {
        NonNegativeYearRoundTrip(y);
      }
  }
}
