/** String primitives of the JavaScript runtime that the application leans on:
    the whitespace class shared by `String.prototype.trim` and the regular
    expression escape `\s`, `trim` itself, and the decimal rendering that
    `Number.prototype.toString` produces for integers. Strings are sequences
    of Unicode scalar values here; JavaScript counts UTF-16 code units. */
module Text {
  import opened Wrappers

  /** The characters JavaScript treats as white space or line terminators:
      the members of `\s` in a regular expression and what `trim` removes. */
  predicate IsJsWhitespace(c: char) {
    || c == '\t' || c == '\n' || c == '\U{000B}' || c == '\U{000C}' || c == '\r'
    || c == ' ' || c == '\U{00A0}' || c == '\U{1680}'
    || ('\U{2000}' <= c <= '\U{200A}')
    || c == '\U{2028}' || c == '\U{2029}' || c == '\U{202F}' || c == '\U{205F}'
    || c == '\U{3000}' || c == '\U{FEFF}'
  }

  predicate AllWhitespace(s: string) {
    forall i :: 0 <= i < |s| ==> IsJsWhitespace(s[i])
  }

  /** `r` is what remains of `s` once every leading and every trailing
      white-space character is removed: a slice of `s`, surrounded only by
      white space, and neither starting nor ending with white space. */
  ghost predicate IsTrimOf(r: string, s: string) {
    exists lo :: 0 <= lo && lo + |r| <= |s|
      && r == s[lo..lo + |r|]
      && AllWhitespace(s[..lo])
      && AllWhitespace(s[lo + |r|..])
      && (|r| > 0 ==> !IsJsWhitespace(r[0]) && !IsJsWhitespace(r[|r| - 1]))
  }

  /** Number of white-space characters at the front of `s`. */
  function LeadingWhitespace(s: string): (n: nat)
    ensures n <= |s|
    ensures AllWhitespace(s[..n])
    ensures n < |s| ==> !IsJsWhitespace(s[n])
  {
    if |s| == 0 || !IsJsWhitespace(s[0]) then 0
    else
      var k := LeadingWhitespace(s[1..]);
      assert s[..k + 1] == [s[0]] + s[1..][..k];
      k + 1
  }

  /** Number of white-space characters at the back of `s`. */
  function TrailingWhitespace(s: string): (n: nat)
    ensures n <= |s|
    ensures AllWhitespace(s[|s| - n..])
    ensures n < |s| ==> !IsJsWhitespace(s[|s| - n - 1])
  {
    if |s| == 0 || !IsJsWhitespace(s[|s| - 1]) then 0
    else
      var init := s[..|s| - 1];
      var k := TrailingWhitespace(init);
      var tail := init[|init| - k..];
      var suffix := tail + [s[|s| - 1]];
      assert s[|s| - (k + 1)..] == suffix;
      assert AllWhitespace(suffix) by {
        forall i | 0 <= i < k + 1 ensures IsJsWhitespace(suffix[i]) {
          if i < k { assert suffix[i] == tail[i]; }
        }
      }
      assert k < |init| ==> s[|s| - (k + 1) - 1] == init[|init| - k - 1];
      k + 1
  }

  /** `String.prototype.trim`. */
  function Trim(s: string): (r: string)
    ensures IsTrimOf(r, s)
  {
    var lo := LeadingWhitespace(s);
    var rest := s[lo..];
    var n := TrailingWhitespace(rest);
    var r := rest[..|rest| - n];
    assert r == s[lo..lo + |r|];
    assert s[lo + |r|..] == rest[|rest| - n..];
    assert |r| > 0 ==> r[0] == s[lo];
    r
  }

  /** Trimming a string that is already trimmed changes nothing. */
  lemma TrimIdempotent(s: string)
    ensures Trim(Trim(s)) == Trim(s)
  {
    var r := Trim(s);
    if |r| > 0 {
      assert LeadingWhitespace(r) == 0;
      assert TrailingWhitespace(r) == 0;
    }
  }

  /** A string made of white space only trims to the empty string, and only
      such a string does. */
  lemma TrimEmptyIff(s: string)
    ensures Trim(s) == [] <==> AllWhitespace(s)
  {
    var r := Trim(s);
    var lo :| 0 <= lo && lo + |r| <= |s| && r == s[lo..lo + |r|]
      && AllWhitespace(s[..lo]) && AllWhitespace(s[lo + |r|..])
      && (|r| > 0 ==> !IsJsWhitespace(r[0]) && !IsJsWhitespace(r[|r| - 1]));
    if r == [] {
      forall i | 0 <= i < |s| ensures IsJsWhitespace(s[i]) {
        if i < lo { assert s[..lo][i] == s[i]; }
        else { assert s[lo..][i - lo] == s[i]; }
      }
    } else {
      assert s[lo] == r[0];
    }
  }

  /** A character outside the Basic Multilingual Plane, which JavaScript
      stores as a surrogate pair of two UTF-16 code units. */
  predicate IsAstral(c: char) {
    c as int >= 0x10000
  }

  /** `String.prototype.length`: the number of UTF-16 code units. */
  function Utf16Length(s: string): (n: nat)
    ensures |s| <= n <= 2 * |s|
    ensures (forall i :: 0 <= i < |s| ==> !IsAstral(s[i])) ==> n == |s|
  {
    if |s| == 0 then 0
    else (if IsAstral(s[0]) then 2 else 1) + Utf16Length(s[1..])
  }

  // ---------------------------------------------------------------------
  // Decimal rendering of integers

  predicate IsDigit(c: char) {
    '0' <= c <= '9'
  }

  predicate AllDigits(s: string) {
    forall i :: 0 <= i < |s| ==> IsDigit(s[i])
  }

  function DigitChar(d: nat): (c: char)
    requires d < 10
    ensures IsDigit(c)
  {
    (48 + d) as char
  }

  function DigitValue(c: char): (d: nat)
    requires IsDigit(c)
    ensures d < 10 && DigitChar(d) == c
  {
    (c as int) - 48
  }

  /** Decimal digits of `n`, most significant first, with no leading zero. */
  function NatToDecimal(n: nat): (s: string)
    ensures |s| >= 1 && AllDigits(s)
    ensures s[0] == '0' ==> n == 0 && |s| == 1
    decreases n
  {
    if n < 10 then [DigitChar(n)]
    else NatToDecimal(n / 10) + [DigitChar(n % 10)]
  }

  /** `Number.prototype.toString()` of an integer: its decimal digits,
      preceded by `-` when it is negative. */
  function IntToDecimal(n: int): (s: string)
    ensures |s| >= 1
    ensures n >= 0 <==> s[0] != '-'
    ensures var digits := if n < 0 then s[1..] else s;
      && |digits| >= 1 && AllDigits(digits)
      && (digits[0] == '0' ==> n == 0 && |s| == 1)
  {
    if n < 0 then "-" + NatToDecimal(-n) else NatToDecimal(n)
  }

  /** The number a string of decimal digits denotes. */
  function DecimalValue(s: string): nat
    requires AllDigits(s)
  {
    if |s| == 0 then 0
    else DecimalValue(s[..|s| - 1]) * 10 + DigitValue(s[|s| - 1])
  }

  /** A non-empty run of decimal digits with no superfluous leading zero:
      the only form `NatToDecimal` writes. */
  predicate CanonicalDigits(s: string) {
    |s| > 0 && AllDigits(s) && (s[0] != '0' || |s| == 1)
  }

  /** Reads back what `IntToDecimal` writes: an optional `-` and a non-empty
      run of digits without a superfluous leading zero. */
  function ParseDecimal(s: string): Option<int> {
    if |s| > 0 && s[0] == '-' then
      var t := s[1..];
      if |t| > 0 && AllDigits(t) && t[0] != '0' then Some(0 - DecimalValue(t) as int) else None
    else if CanonicalDigits(s) then Some(DecimalValue(s) as int)
    else None
  }

  lemma {:induction false} NatDecimalRoundTrip(n: nat)
    ensures DecimalValue(NatToDecimal(n)) == n
    decreases n
  {
    if n >= 10 {
      NatDecimalRoundTrip(n / 10);
      var s := NatToDecimal(n);
      assert s[..|s| - 1] == NatToDecimal(n / 10);
    }
  }

  /** The digits of a natural number parse back to it. */
  lemma ParseNatDecimal(n: nat)
    ensures ParseDecimal(NatToDecimal(n)) == Some(n)
  {
    var t := NatToDecimal(n);
    NatDecimalRoundTrip(n);
    assert t[0] != '-';
  }

  /** A minus sign before the digits of a positive number parses back to
      its negation. */
  lemma ParseNegatedDecimal(n: nat)
    requires n > 0
    ensures ParseDecimal("-" + NatToDecimal(n)) == Some(0 - n as int)
  {
    var t := NatToDecimal(n);
    NatDecimalRoundTrip(n);
    var s := "-" + t;
    assert s[0] == '-' && s[1..] == t;
    assert t[0] != '0';
  }

  /** Parsing the rendering of any integer gives the integer back. */
  lemma DecimalRoundTrip(n: int)
    ensures ParseDecimal(IntToDecimal(n)) == Some(n)
  {
    if n < 0 {
      ParseNegatedDecimal(-n);
    } else {
      ParseNatDecimal(n);
    }
  }

  /** Canonical digits are the rendering of the number they denote: no other
      string of digits reads as the same number. */
  lemma {:induction false} CanonicalDigitsRoundTrip(s: string)
    requires CanonicalDigits(s)
    ensures NatToDecimal(DecimalValue(s)) == s
    decreases |s|
  {
    if |s| > 1 {
      var init, c := s[..|s| - 1], s[|s| - 1];
      assert init[0] == s[0];
      CanonicalDigitsRoundTrip(init);
      var m := DecimalValue(init);
      assert m != 0;
      var v := DecimalValue(s);
      assert v == m * 10 + DigitValue(c);
      assert v / 10 == m && v % 10 == DigitValue(c);
      assert s == init + [c];
    }
  }

  /** Distinct integers have distinct renderings. */
  lemma DecimalInjective(m: int, n: int)
    requires IntToDecimal(m) == IntToDecimal(n)
    ensures m == n
  {
    DecimalRoundTrip(m);
    DecimalRoundTrip(n);
  }
}
