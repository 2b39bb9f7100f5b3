/**
 * `!isNaN(Number(s))` for a string `s`: whether `s` is a StringNumericLiteral
 * (section 7.1.4.1 of ECMA-262). `Number` trims the same white space as
 * `String.prototype.trim`, reads an empty remainder as 0, and otherwise
 * yields NaN exactly when the remainder is not one of the literal forms
 * below; every literal it accepts denotes a number or an infinity.
 */
module JsNumber {
  import opened JsString

  predicate DigitsIn(s: string, digit: char -> bool)
  {
    |s| >= 1 && forall i :: 0 <= i < |s| ==> digit(s[i])
  }

  predicate IsHexDigit(c: char)
  {
    IsDigit(c) || 'a' <= c <= 'f' || 'A' <= c <= 'F'
  }

  /** `0b…`, `0o…`, `0x…` (no sign, no separators). */
  predicate IsNonDecimalInteger(t: string)
  {
    && |t| >= 3 && t[0] == '0'
    && (|| (t[1] in "bB" && DigitsIn(t[2..], c => c in "01"))
        || (t[1] in "oO" && DigitsIn(t[2..], c => '0' <= c <= '7'))
        || (t[1] in "xX" && DigitsIn(t[2..], IsHexDigit)))
  }

  /** Index of the first `e` or `E`, or `|t|`. */
  function ExponentStart(t: string): (k: nat)
    ensures k <= |t|
    ensures forall i :: 0 <= i < k ==> t[i] !in "eE"
    ensures k < |t| ==> t[k] in "eE"
  {
    if t == [] then 0 else if t[0] in "eE" then 0 else 1 + ExponentStart(t[1..])
  }

  /** `DecimalDigits`, `DecimalDigits .`, `DecimalDigits . DecimalDigits` or `. DecimalDigits`. */
  predicate IsMantissa(m: string)
  {
    if '.' in m then
      var d := IndexOfDot(m);
      && (forall i :: 0 <= i < d ==> IsDigit(m[i]))
      && (forall i :: d < i < |m| ==> IsDigit(m[i]))
      && |m| >= 2
    else DigitsIn(m, IsDigit)
  }

  function IndexOfDot(m: string): (d: nat)
    requires '.' in m
    ensures d < |m| && m[d] == '.'
    ensures forall i :: 0 <= i < d ==> m[i] != '.'
  {
    if m[0] == '.' then 0 else 1 + IndexOfDot(m[1..])
  }

  /** `ExponentPart` or nothing. */
  predicate IsExponentOpt(e: string)
  {
    e == [] ||
    (e[0] in "eE" && |e| >= 2 &&
      if e[1] in "+-" then DigitsIn(e[2..], IsDigit) else DigitsIn(e[1..], IsDigit))
  }

  predicate IsUnsignedDecimal(t: string)
  {
    t == "Infinity" ||
    (var k := ExponentStart(t); IsMantissa(t[..k]) && IsExponentOpt(t[k..]))
  }

  predicate IsStrNumericLiteral(t: string)
  {
    || IsNonDecimalInteger(t)
    || IsUnsignedDecimal(t)
    || (|t| >= 1 && t[0] in "+-" && IsUnsignedDecimal(t[1..]))
  }

  /** `!isNaN(Number(s))`. */
  predicate IsNumeric(s: string)
  {
    var t := Trim(s);
    t == "" || IsStrNumericLiteral(t)
  }

  /** A non-empty run of decimal digits, such as a year, is numeric. */
  lemma DigitsAreNumeric(s: string)
    requires s != [] && AllDigits(s)
    ensures IsNumeric(s)
  {
    assert IsTrimmed(s) by {
      assert !IsWhiteSpace(s[0]) && !IsWhiteSpace(s[|s| - 1]);
    }
    TrimOfTrimmed(s);
    assert s[..ExponentStart(s)] == s;
  }

  /** Surrounding white space never changes the verdict. */
  lemma NumericOfTrim(s: string)
    ensures IsNumeric(Trim(s)) == IsNumeric(s)
  {
    TrimIdempotent(s);
  }

  /** White space alone reads as 0, so it counts as numeric. */
  lemma BlankIsNumeric(s: string)
    requires IsBlank(s)
    ensures IsNumeric(s)
  {
    TrimIsEmptyIffBlank(s);
  }

  /** A string containing a letter other than the literal forms' is not numeric. */
  lemma LetterIsNotNumeric(s: string)
    requires IsTrimmed(s) && s != []
    requires forall i :: 0 <= i < |s| ==> 'g' <= s[i] <= 'z' && s[i] != 'o' && s[i] != 'x'
    ensures !IsNumeric(s)
  {
    TrimOfTrimmed(s);
    assert s[..ExponentStart(s)] == s;
  }
}
