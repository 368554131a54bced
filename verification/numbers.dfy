/**
 Decimal digits and the numeric text that `pd.to_numeric` turns into a
 number. Values are exact rationals (`real`); the floating-point rounding
 of `astype(float)` is not modelled.
 */
module Numbers {
  import opened Basics

  /** An ASCII decimal digit (the characters `\d` is taken to match). */
  predicate IsDigit(c: char) {
    '0' <= c <= '9'
  }

  predicate AllDigits(t: string) {
    forall i :: 0 <= i < |t| ==> IsDigit(t[i])
  }

  /** A non-empty run of digits, the language of `\d+`. */
  predicate IsDigits(t: string) {
    |t| > 0 && AllDigits(t)
  }

  /**
   Digits, a point, digits — the language of `\d+\.\d+`; `d` is the
   position of the point.
   */
  predicate IsDecimalAt(t: string, d: nat) {
    0 < d < |t| - 1 && t[d] == '.' && AllDigits(t[..d]) && AllDigits(t[d + 1..])
  }

  ghost predicate IsDecimal(t: string) {
    exists d: nat :: IsDecimalAt(t, d)
  }

  /** Unsigned numeric text as accepted by ParseNumber: `\d+` or `\d+\.\d+`. */
  ghost predicate IsUnsignedText(t: string) {
    IsDigits(t) || IsDecimal(t)
  }

  /** Numeric text with an optional leading sign. */
  ghost predicate IsNumberText(t: string) {
    IsUnsignedText(t) || (|t| > 0 && (t[0] == '-' || t[0] == '+') && IsUnsignedText(t[1..]))
  }

  function DigitValue(c: char): (v: nat)
    requires IsDigit(c)
    ensures v < 10
  {
    c as int - '0' as int
  }

  /** The value of a digit string read in base ten (0 for the empty string). */
  function DigitsValue(t: string): nat
    requires AllDigits(t)
    decreases |t|
  {
    if |t| == 0 then 0 else 10 * DigitsValue(t[..|t| - 1]) + DigitValue(t[|t| - 1])
  }

  function Pow10(n: nat): (p: nat)
    ensures p >= 1
  {
    if n == 0 then 1 else 10 * Pow10(n - 1)
  }

  /** The value of `whole.frac`. */
  function DecimalValue(whole: string, frac: string): real
    requires AllDigits(whole) && AllDigits(frac)
  {
    DigitsValue(whole) as real + DigitsValue(frac) as real / Pow10(|frac|) as real
  }

  /** Position of the first '.' in `t`, or `|t|` when there is none. */
  function DotIndex(t: string): (d: nat)
    ensures d <= |t|
    ensures d < |t| ==> t[d] == '.'
    ensures forall i :: 0 <= i < d ==> t[i] != '.'
    decreases |t|
  {
    if |t| == 0 || t[0] == '.' then 0 else 1 + DotIndex(t[1..])
  }

  function ParseUnsigned(t: string): Option<real> {
    var d := DotIndex(t);
    if d == |t| then
      if IsDigits(t) then Some(DigitsValue(t) as real) else None
    else
      var whole, frac := t[..d], t[d + 1..];
      if IsDigits(whole) && IsDigits(frac) then Some(DecimalValue(whole, frac)) else None
  }

  /**
   The number a cell's text denotes, or None where `pd.to_numeric(...,
   errors='coerce')` would produce NaN.
   */
  function ParseNumber(t: string): (r: Option<real>)
    ensures r.Some? <==> IsNumberText(t)
  {
    ParseUnsignedAccepts(t);
    UnsignedStartsWithDigit(t);
    if |t| > 0 && (t[0] == '-' || t[0] == '+') then
      ParseUnsignedAccepts(t[1..]);
      var u :- ParseUnsigned(t[1..]);
      Some(if t[0] == '-' then -u else u)
    else
      ParseUnsigned(t)
  }

  /** Unsigned numeric text starts with a digit, never with a sign. */
  lemma UnsignedStartsWithDigit(t: string)
    ensures IsUnsignedText(t) ==> |t| > 0 && IsDigit(t[0])
  {
    if IsDecimal(t) {
      var d: nat :| IsDecimalAt(t, d);
      assert t[..d][0] == t[0];
    }
  }

  /** ParseUnsigned accepts exactly the unsigned numeric texts. */
  lemma ParseUnsignedAccepts(t: string)
    ensures ParseUnsigned(t).Some? <==> IsUnsignedText(t)
  {
    var d := DotIndex(t);
    if d < |t| {
      if IsDigits(t[..d]) && IsDigits(t[d + 1..]) {
        assert IsDecimalAt(t, d);
      } else {
        forall e: nat | IsDecimalAt(t, e)
          ensures false
        {
        }
        assert !IsDigits(t);
      }
    } else {
      forall e: nat | IsDecimalAt(t, e)
        ensures false
      {
      }
    }
  }

  /** `\d+\.\d+` text parses to the value of its whole and fractional parts. */
  lemma ParseDecimal(t: string, d: nat)
    requires IsDecimalAt(t, d)
    ensures ParseNumber(t) == Some(DecimalValue(t[..d], t[d + 1..]))
  {
    assert t[..d][0] == t[0];
  }

  /** `\d+` text parses to its integer value. */
  lemma ParseDigits(t: string)
    requires IsDigits(t)
    ensures ParseNumber(t) == Some(DigitsValue(t) as real)
  {
  }
}
