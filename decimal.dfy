/**
 * The text a coordinate takes in a path: `write!(.., "{}", r(x))` formats
 * the rounded `f64` with `Display`, which prints the shortest decimal that
 * reads back as the same number. For a multiple k/1000 of moderate size
 * that is the exact decimal of k/1000 with no trailing zeros and no
 * exponent, and `-0` for the negative zero that `round` yields on
 * (-0.5, 0). `ParseMilli` reads such a numeral back; the round trip shows
 * the text loses nothing of the rounded value.
 */
module Decimal {
  import opened Wrappers
  import opened Rounding

  predicate IsDigit(c: char)
  {
    '0' <= c <= '9'
  }

  predicate AllDigits(s: string)
  {
    forall i :: 0 <= i < |s| ==> IsDigit(s[i])
  }

  /** The characters a numeral is made of. */
  predicate IsNumeralChar(c: char)
  {
    IsDigit(c) || c == '-' || c == '.'
  }

  predicate IsNumeral(s: string)
  {
    forall i :: 0 <= i < |s| ==> IsNumeralChar(s[i])
  }

  function DigitChar(d: nat): (c: char)
    requires d < 10
    ensures IsDigit(c)
  {
    ('0' as int + d) as char
  }

  function DigitValue(c: char): (d: nat)
    requires IsDigit(c)
    ensures d < 10
  {
    c as int - '0' as int
  }

  /** The decimal digits of `n`, most significant first, without leading zeros. */
  function Digits(n: nat): (s: string)
    ensures |s| > 0 && AllDigits(s)
    ensures |s| > 1 ==> s[0] != '0'
  {
    if n < 10 then [DigitChar(n)] else Digits(n / 10) + [DigitChar(n % 10)]
  }

  /** The number a string of decimal digits denotes. */
  function DigitsValue(s: string): nat
    requires AllDigits(s)
  {
    if s == [] then 0 else DigitsValue(s[..|s| - 1]) * 10 + DigitValue(s[|s| - 1])
  }

  lemma {:induction false} DigitsRoundTrip(n: nat)
    ensures DigitsValue(Digits(n)) == n
  {
    var s := Digits(n);
    if n < 10 {
      assert s[..|s| - 1] == [];
    } else {
      assert s[..|s| - 1] == Digits(n / 10);
      DigitsRoundTrip(n / 10);
    }
  }

  /** The fractional digits of `f` thousandths, with trailing zeros dropped. */
  function Fraction(f: nat): (s: string)
    requires 0 < f < 1000
    ensures 1 <= |s| <= 3 && AllDigits(s) && s[|s| - 1] != '0'
  {
    var d1, d2, d3 := f / 100, f / 10 % 10, f % 10;
    if d3 != 0 then [DigitChar(d1), DigitChar(d2), DigitChar(d3)]
    else if d2 != 0 then [DigitChar(d1), DigitChar(d2)]
    else [DigitChar(d1)]
  }

  /** The thousandths that the digits after a decimal point denote. */
  function FractionValue(s: string): nat
    requires 1 <= |s| <= 3 && AllDigits(s)
  {
    DigitsValue(s) * (if |s| == 1 then 100 else if |s| == 2 then 10 else 1)
  }

  /** The three decimal digits of a number of thousandths below 1000. */
  lemma ThreeDigits(f: nat)
    requires f < 1000
    ensures f / 100 < 10 && f == f / 100 * 100 + f / 10 % 10 * 10 + f % 10
  {
    assert f == f / 10 * 10 + f % 10;
    assert f / 10 == f / 10 / 10 * 10 + f / 10 % 10;
    assert f / 10 / 10 == f / 100;
  }

  lemma FractionRoundTrip(f: nat)
    requires 0 < f < 1000
    ensures FractionValue(Fraction(f)) == f
  {
    var d1, d2, d3 := f / 100, f / 10 % 10, f % 10;
    var c1, c2, c3 := DigitChar(d1), DigitChar(d2), DigitChar(d3);
    ThreeDigits(f);
    assert DigitsValue([c1]) == d1 by {
      assert [c1][..0] == [];
    }
    if d3 != 0 {
      assert DigitsValue([c1, c2]) == d1 * 10 + d2 by {
        assert [c1, c2][..1] == [c1];
      }
      assert [c1, c2, c3][..2] == [c1, c2];
    } else if d2 != 0 {
      assert [c1, c2][..1] == [c1];
    }
  }

  /** The decimal text of m/1000: the integer part, then the fraction if there is one. */
  function UnsignedText(m: nat): (s: string)
    ensures IsNumeral(s) && |s| > 0 && IsDigit(s[0])
  {
    Digits(m / 1000) + (if m % 1000 == 0 then "" else "." + Fraction(m % 1000))
  }

  /** The decimal text of k/1000, with a minus sign when k is negative. */
  function MilliText(k: int): (s: string)
    ensures IsNumeral(s) && |s| > 0
  {
    if k < 0 then "-" + UnsignedText(-k) else UnsignedText(k)
  }

  /**
   * The text `write!` produces for `r(x)`: the decimal of R(x), or `-0`
   * when a negative `x` rounds to zero.
   */
  function Num(x: real): (s: string)
    ensures IsNumeral(s) && |s| > 0
  {
    if x < 0.0 && Milli(x) == 0 then "-0" else MilliText(Milli(x))
  }

  /** The first position of `c` in `s`, or |s| when there is none. */
  function Find(s: string, c: char): (i: nat)
    ensures i <= |s|
    ensures i < |s| ==> s[i] == c
    ensures forall j :: 0 <= j < i ==> s[j] != c
  {
    if s == [] then 0
    else if s[0] == c then 0
    else 1 + Find(s[1..], c)
  }

  /** Reads an unsigned numeral `digits[.digits]` as a count of thousandths. */
  function ParseUnsigned(s: string): Option<nat>
  {
    var i := Find(s, '.');
    var whole := s[..i];
    if whole == [] || !AllDigits(whole) then None
    else if i == |s| then Some(DigitsValue(whole) * 1000)
    else
      var frac := s[i + 1..];
      if |frac| < 1 || 3 < |frac| || !AllDigits(frac) then None
      else Some(DigitsValue(whole) * 1000 + FractionValue(frac))
  }

  /** Reads a numeral with an optional minus sign as a count of thousandths. */
  function ParseMilli(s: string): Option<int>
  {
    if |s| > 0 && s[0] == '-' then
      match ParseUnsigned(s[1..])
      case None => None
      case Some(m) => Some(-(m as int))
    else
      ParseUnsigned(s)
  }

  /** `Find` is determined by its contract. */
  lemma FindIs(s: string, c: char, i: nat)
    requires i <= |s|
    requires i < |s| ==> s[i] == c
    requires forall j :: 0 <= j < i ==> s[j] != c
    ensures Find(s, c) == i
  {
  }

  /** In `a + [sep] + b`, when `a` has no `sep`, the first `sep` is the one after `a`. */
  lemma FindSeparator(a: string, sep: char, b: string)
    requires forall j :: 0 <= j < |a| ==> a[j] != sep
    ensures Find(a + [sep] + b, sep) == |a|
    ensures (a + [sep] + b)[..|a|] == a && (a + [sep] + b)[|a| + 1..] == b
  {
    var s := a + [sep] + b;
    assert forall j :: 0 <= j < |a| ==> s[j] == a[j];
    FindIs(s, sep, |a|);
    assert s[..|a|] == a;
    assert s[|a| + 1..] == b;
  }

  lemma ParseWhole(whole: string)
    requires |whole| > 0 && AllDigits(whole)
    ensures ParseUnsigned(whole) == Some(DigitsValue(whole) * 1000)
  {
    FindIs(whole, '.', |whole|);
    assert whole[..|whole|] == whole;
  }

  /** How `ParseUnsigned` reads a numeral whose first point is at `i`. */
  lemma ParseAtPoint(s: string, i: nat)
    requires i < |s| && Find(s, '.') == i
    requires |s[..i]| > 0 && AllDigits(s[..i])
    requires 1 <= |s[i + 1..]| <= 3 && AllDigits(s[i + 1..])
    ensures ParseUnsigned(s) == Some(DigitsValue(s[..i]) * 1000 + FractionValue(s[i + 1..]))
  {
  }

  lemma ParseWithFraction(whole: string, frac: string)
    requires |whole| > 0 && AllDigits(whole)
    requires 1 <= |frac| <= 3 && AllDigits(frac)
    ensures ParseUnsigned(whole + "." + frac) == Some(DigitsValue(whole) * 1000 + FractionValue(frac))
  {
    var s := whole + "." + frac;
    assert forall j :: 0 <= j < |whole| ==> whole[j] != '.' by {
      forall j | 0 <= j < |whole| ensures whole[j] != '.' {
        assert IsDigit(whole[j]);
      }
    }
    FindSeparator(whole, '.', frac);
    ParseAtPoint(s, |whole|);
  }

  lemma UnsignedRoundTrip(m: nat)
    ensures ParseUnsigned(UnsignedText(m)) == Some(m)
  {
    var q, f := m / 1000, m % 1000;
    assert m == q * 1000 + f;
    var whole := Digits(q);
    DigitsRoundTrip(q);
    if f == 0 {
      assert UnsignedText(m) == whole;
      ParseWhole(whole);
    } else {
      assert UnsignedText(m) == whole + "." + Fraction(f);
      ParseWithFraction(whole, Fraction(f));
      FractionRoundTrip(f);
    }
  }

  /** A numeral with a minus sign reads as the negated unsigned value. */
  lemma ParseNegative(body: string, m: nat)
    requires ParseUnsigned(body) == Some(m)
    ensures ParseMilli("-" + body) == Some(-(m as int))
  {
    assert ("-" + body)[1..] == body;
  }

  /** Reading back `MilliText(k)` gives `k`. */
  lemma MilliTextRoundTrip(k: int)
    ensures ParseMilli(MilliText(k)) == Some(k)
  {
    if k < 0 {
      UnsignedRoundTrip(-k);
      ParseNegative(UnsignedText(-k), -k);
    } else {
      UnsignedRoundTrip(k);
    }
  }

  /** Reading back the text of a coordinate gives the thousandths of `R(x)`. */
  lemma NumRoundTrip(x: real)
    ensures ParseMilli(Num(x)) == Some(Milli(x))
    ensures ParseMilli(Num(x)) == Some(RoundHalfAway(R(x) * 1000.0))
  {
    if x < 0.0 && Milli(x) == 0 {
      assert "-0"[1..] == "0";
      assert Find("0", '.') == 1;
      assert "0"[..1] == "0" == Digits(0);
      DigitsRoundTrip(0);
    } else {
      MilliTextRoundTrip(Milli(x));
    }
    RoundHalfAwayOfInt(Milli(x));
  }
}
