/** `toEnglishDigits`: the amount and rate fields of the receive form keep only
    digits, with the Persian digits U+06F0..U+06F9 turned into ASCII digits. */
module Digits {

  predicate IsAsciiDigit(c: char) {
    '0' <= c <= '9'
  }

  predicate IsPersianDigit(c: char) {
    '\U{06F0}' <= c <= '\U{06F9}'
  }

  predicate AllAsciiDigits(s: string) {
    forall k :: 0 <= k < |s| ==> IsAsciiDigit(s[k])
  }

  /** The ASCII digit with the same value as the Persian digit `c`. */
  function PersianToAscii(c: char): (d: char)
    requires IsPersianDigit(c)
    ensures IsAsciiDigit(d)
    ensures d as int - '0' as int == c as int - '\U{06F0}' as int
  {
    ('0' as int + (c as int - '\U{06F0}' as int)) as char
  }

  /** What one character becomes: an ASCII digit stays, a Persian digit becomes
      its ASCII digit, anything else is removed. */
  function DigitOf(c: char): string {
    if IsAsciiDigit(c) then [c]
    else if IsPersianDigit(c) then [PersianToAscii(c)]
    else ""
  }

  /** `toEnglishDigits(str)`; the empty string gives the empty string. */
  function ToEnglishDigits(s: string): (r: string)
    ensures AllAsciiDigits(r)
    ensures |r| <= |s|
  {
    if |s| == 0 then "" else DigitOf(s[0]) + ToEnglishDigits(s[1..])
  }

  /** The conversion works character by character. */
  lemma {:induction false} ToEnglishDigitsAppend(a: string, b: string)
    ensures ToEnglishDigits(a + b) == ToEnglishDigits(a) + ToEnglishDigits(b)
    decreases |a|
  {
    if |a| > 0 {
      assert (a + b)[1..] == a[1..] + b;
      ToEnglishDigitsAppend(a[1..], b);
    } else {
      assert a + b == b;
    }
  }

  /** A string of ASCII digits comes back unchanged. */
  lemma {:induction false} ToEnglishDigitsKeepsAscii(s: string)
    requires AllAsciiDigits(s)
    ensures ToEnglishDigits(s) == s
    decreases |s|
  {
    if |s| > 0 {
      ToEnglishDigitsKeepsAscii(s[1..]);
      assert s == [s[0]] + s[1..];
    }
  }

  /** Converting twice is converting once. */
  lemma ToEnglishDigitsIdempotent(s: string)
    ensures ToEnglishDigits(ToEnglishDigits(s)) == ToEnglishDigits(s)
  {
    ToEnglishDigitsKeepsAscii(ToEnglishDigits(s));
  }

  /** Exactly the digit characters (ASCII or Persian) survive, each once. */
  function CountDigits(s: string): nat {
    if |s| == 0 then 0
    else (if IsAsciiDigit(s[0]) || IsPersianDigit(s[0]) then 1 else 0) + CountDigits(s[1..])
  }

  lemma {:induction false} ToEnglishDigitsLength(s: string)
    ensures |ToEnglishDigits(s)| == CountDigits(s)
    decreases |s|
  {
    if |s| > 0 { ToEnglishDigitsLength(s[1..]); }
  }

  /** `Number(digits)` of a string of ASCII digits; `Number('')` is 0. */
  function DecimalValue(s: string): (v: nat)
    requires AllAsciiDigits(s)
  {
    if |s| == 0 then 0
    else DecimalValue(s[..|s| - 1]) * 10 + (s[|s| - 1] as int - '0' as int)
  }

  /** The value is positive exactly when some digit is not '0'. */
  lemma {:induction false} DecimalValuePositive(s: string)
    requires AllAsciiDigits(s)
    ensures DecimalValue(s) > 0 <==> exists k :: 0 <= k < |s| && s[k] != '0'
    decreases |s|
  {
    if |s| > 0 {
      var init := s[..|s| - 1];
      DecimalValuePositive(init);
      if exists k :: 0 <= k < |init| && init[k] != '0' {
        var k :| 0 <= k < |init| && init[k] != '0';
        assert s[k] != '0';
      }
      if exists k :: 0 <= k < |s| && s[k] != '0' {
        var k :| 0 <= k < |s| && s[k] != '0';
        if k < |init| { assert init[k] != '0'; }
      }
    }
  }
}
