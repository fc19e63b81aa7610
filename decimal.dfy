/**
 * Python's `float()` on decimal literals, computed exactly over `real`: surrounding
 * whitespace is ignored, an optional sign, then digits with at most one decimal point
 * and at least one digit.
 */
module Decimal {
  import opened Wrappers
  import Text

  predicate IsDigit(c: char) {
    '0' <= c <= '9'
  }

  predicate AllDigits(s: string) {
    forall i :: 0 <= i < |s| ==> IsDigit(s[i])
  }

  function Pow10(k: nat): (p: nat)
    ensures p >= 1
  {
    if k == 0 then 1 else 10 * Pow10(k - 1)
  }

  function DigitValue(c: char): (d: nat)
    requires IsDigit(c)
    ensures d < 10
  {
    (c as int - '0' as int) as nat
  }

  function DigitChar(d: nat): (c: char)
    requires d < 10
    ensures IsDigit(c) && DigitValue(c) == d
  {
    ('0' as int + d) as char
  }

  /** The number a digit string denotes, most significant digit first. */
  function DigitsValue(s: string): (n: nat)
    requires AllDigits(s)
    ensures n < Pow10(|s|)
  {
    if |s| == 0 then 0 else 10 * DigitsValue(s[..|s| - 1]) + DigitValue(s[|s| - 1])
  }

  /** `str(n)` for a natural number. */
  function NatText(n: nat): (s: string)
    ensures |s| > 0 && AllDigits(s)
  {
    if n < 10 then [DigitChar(n)] else NatText(n / 10) + [DigitChar(n % 10)]
  }

  /** Reading back `str(n)` gives `n`. */
  lemma {:induction false} NatTextValue(n: nat)
    ensures DigitsValue(NatText(n)) == n
  {
    if n >= 10 {
      var s := NatText(n);
      assert s[..|s| - 1] == NatText(n / 10);
      NatTextValue(n / 10);
    }
  }

  /** Digits after a decimal point: their value scaled below 1. */
  function Fraction(ds: string): (x: real)
    requires AllDigits(ds)
  {
    DigitsValue(ds) as real / Pow10(|ds|) as real
  }

  /** The digits of a literal after the sign: `12`, `12.`, `.5` or `12.5`. */
  function Unsigned(body: string): (r: Option<real>)
    ensures r.Some? ==> r.value >= 0.0
  {
    var parts := Text.SplitFirst(body, '.');
    var whole := parts.0;
    var digits := if parts.1.Some? then parts.1.value else "";
    if AllDigits(whole) && AllDigits(digits) && |whole| + |digits| > 0 then
      Some(DigitsValue(whole) as real + Fraction(digits))
    else None
  }

  /** `float(s)`, `None` where Python raises `ValueError`. */
  function ParseDecimal(s: string): (r: Option<real>)
    ensures r.Some? ==> |Text.Strip(s)| > 0
  {
    var t := Text.Strip(s);
    if |t| > 0 && (t[0] == '+' || t[0] == '-') then
      match Unsigned(t[1..])
      case None => None
      case Some(v) => Some(if t[0] == '-' then -v else v)
    else Unsigned(t)
  }

  /** Whitespace only, the empty text included, is not a number. */
  lemma BlankRejected(s: string)
    requires Text.AllSpace(s)
    ensures ParseDecimal(s).None?
  {
    Text.StripEmpty(s);
  }

  /** `float(str(n))` is `n`. */
  lemma ParseNat(n: nat)
    ensures ParseDecimal(NatText(n)) == Some(n as real)
  {
    var s := NatText(n);
    DigitNotSpace(s[0]);
    DigitNotSpace(s[|s| - 1]);
    Text.StripTrimmed(s);
    assert !(s[0] == '+' || s[0] == '-');
    UnsignedWhole(s);
    NatTextValue(n);
  }

  /** `float(str(a) + "." + ds)` is `a` plus `ds` read as a decimal fraction. */
  lemma ParseFraction(a: nat, ds: string)
    requires AllDigits(ds)
    ensures ParseDecimal(NatText(a) + "." + ds) == Some(a as real + Fraction(ds))
  {
    var w := NatText(a);
    var s := w + "." + ds;
    assert s[0] == w[0];
    DigitNotSpace(w[0]);
    assert !Text.IsSpace(s[|s| - 1]) by {
      if |ds| > 0 {
        assert s[|s| - 1] == ds[|ds| - 1];
        DigitNotSpace(ds[|ds| - 1]);
      } else {
        assert s[|s| - 1] == '.';
      }
    }
    Text.StripTrimmed(s);
    assert !(s[0] == '+' || s[0] == '-');
    UnsignedPoint(w, ds);
    NatTextValue(a);
  }

  /** A digit string has no decimal point, so splitting at one leaves it whole. */
  lemma NoPoint(s: string)
    requires AllDigits(s)
    ensures Text.SplitFirst(s, '.') == (s, None)
  {
  }

  /** A digit string alone reads as its value. */
  lemma UnsignedWhole(w: string)
    requires AllDigits(w) && |w| > 0
    ensures Unsigned(w) == Some(DigitsValue(w) as real)
  {
    NoPoint(w);
    EmptyDigits();
    UnsignedParts(w, "", w);
    AddNoFraction(DigitsValue(w) as real);
  }

  /** The empty string is a (vacuous) digit string. */
  lemma EmptyDigits()
    ensures AllDigits("")
  {
  }

  /** Adding the empty fraction leaves a value unchanged. */
  lemma AddNoFraction(x: real)
    ensures x + Fraction("") == x
  {
    NoDigits();
  }

  /** No digits after the point add nothing. */
  lemma NoDigits()
    ensures Fraction("") == 0.0
  {
    assert DigitsValue("") == 0 && Pow10(0) == 1;
  }

  /** A digit string, a point and digits read as the whole part plus the fraction. */
  lemma UnsignedPoint(w: string, ds: string)
    requires AllDigits(w) && AllDigits(ds) && |w| > 0
    ensures Unsigned(w + "." + ds) == Some(DigitsValue(w) as real + Fraction(ds))
  {
    SplitAfter(w, ds);
    UnsignedParts(w, ds, w + "." + ds);
  }

  /** A literal that splits into a digit string and digits after its point (or no point) reads as their sum. */
  lemma UnsignedParts(w: string, ds: string, body: string)
    requires AllDigits(w) && AllDigits(ds) && |w| > 0
    requires Text.SplitFirst(body, '.') == (w, Some(ds)) || (ds == "" && Text.SplitFirst(body, '.') == (w, None))
    ensures Unsigned(body) == Some(DigitsValue(w) as real + Fraction(ds))
  {
  }

  /** A digit never counts as whitespace. */
  lemma DigitNotSpace(c: char)
    requires IsDigit(c)
    ensures !Text.IsSpace(c)
  {
  }

  /** Splitting `w + "." + ds` at the first point, for a digit string `w`. */
  lemma {:induction false} SplitAfter(w: string, ds: string)
    requires AllDigits(w)
    ensures Text.SplitFirst(w + "." + ds, '.') == (w, Some(ds))
  {
    if |w| == 0 {
      assert w + "." + ds == ['.'] + ds;
    } else {
      assert (w + "." + ds)[1..] == w[1..] + "." + ds;
      SplitAfter(w[1..], ds);
      assert w[0] != '.';
      assert [w[0]] + w[1..] == w;
    }
  }

  /** `float("-" + str(n))` is `-n`. */
  lemma ParseNegative(n: nat)
    ensures ParseDecimal("-" + NatText(n)) == Some(-(n as real))
  {
    var w := NatText(n);
    var s := "-" + w;
    assert s[|s| - 1] == w[|w| - 1];
    DigitNotSpace(w[|w| - 1]);
    Text.StripTrimmed(s);
    assert s[1..] == w;
    UnsignedWhole(w);
    NatTextValue(n);
  }
}
