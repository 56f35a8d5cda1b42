/**
 * Decimal text and integers: `str(n)` / f-string rendering of an `int`, and
 * Python's `int(text)` for base 10.
 */
module Numerals {
  import opened Wrappers
  import opened Text

  function DigitChar(n: int): (c: char)
    requires 0 <= n < 10
    ensures IsDigit(c)
  {
    ('0' as int + n) as char
  }

  function DigitValue(c: char): (n: int)
    requires IsDigit(c)
    ensures 0 <= n < 10 && DigitChar(n) == c
  {
    c as int - '0' as int
  }

  /** The value of a string of decimal digits (leading zeros allowed, as in `int("007")`). */
  function DigitsValue(s: string): nat
    requires AllDigits(s)
  {
    if |s| == 0 then 0 else DigitsValue(s[..|s| - 1]) * 10 + DigitValue(s[|s| - 1])
  }

  /** `str(n)` for a natural number: no sign, no leading zeros. */
  function NatToString(n: nat): (s: string)
    ensures |s| >= 1 && AllDigits(s)
  {
    if n < 10 then [DigitChar(n)] else NatToString(n / 10) + [DigitChar(n % 10)]
  }

  /** `str(n)` for any integer. */
  function IntToString(n: int): (s: string)
    ensures |s| >= 1
    ensures IsDigit(s[|s| - 1])
    ensures s[0] == '-' || IsDigit(s[0])
  {
    if n < 0 then "-" + NatToString(-n) else NatToString(n)
  }

  /** The texts `int()` accepts once stripped: an optional `+` or `-` followed by
      at least one digit. */
  predicate IsIntegerText(t: string) {
    (|t| > 0 && AllDigits(t)) || (|t| > 1 && (t[0] == '-' || t[0] == '+') && AllDigits(t[1..]))
  }

  /** Python `int(text)` in base 10: surrounding whitespace is ignored, an
      optional sign, then at least one digit; anything else is a ValueError. */
  function ParseInt(text: string): (r: Option<int>)
    ensures r.Some? ==> Strip(text) != ""
    ensures AllDigits(Strip(text)) && Strip(text) != "" ==> r == Some(DigitsValue(Strip(text)))
  {
    var t := Strip(text);
    if |t| > 0 && (t[0] == '-' || t[0] == '+') then
      var body := t[1..];
      if |body| > 0 && AllDigits(body) then
        Some(if t[0] == '-' then -(DigitsValue(body) as int) else DigitsValue(body))
      else None
    else if |t| > 0 && AllDigits(t) then Some(DigitsValue(t))
    else None
  }

  /** `int(text)` accepts exactly the integer texts, and reads the sign and the digits. */
  lemma ParseIntMeaning(text: string)
    ensures ParseInt(text).Some? <==> IsIntegerText(Strip(text))
    ensures var t := Strip(text);
      && (IsIntegerText(t) && t[0] == '-' ==> ParseInt(text) == Some(-(DigitsValue(t[1..]) as int)))
      && (IsIntegerText(t) && t[0] == '+' ==> ParseInt(text) == Some(DigitsValue(t[1..]) as int))
      && (IsIntegerText(t) && IsDigit(t[0]) ==> ParseInt(text) == Some(DigitsValue(t) as int))
  {
  }

  /** Reading back a rendered natural number gives the number. */
  lemma {:induction false} NatToStringRoundTrip(n: nat)
    ensures DigitsValue(NatToString(n)) == n
  {
    if n >= 10 {
      var s := NatToString(n);
      assert s[..|s| - 1] == NatToString(n / 10);
      NatToStringRoundTrip(n / 10);
    }
  }

  /** `int(str(n)) == n` for every integer. */
  lemma IntToStringRoundTrip(n: int)
    ensures ParseInt(IntToString(n)) == Some(n)
  {
    if n < 0 {
      var m: nat := -n;
      var body := NatToString(m);
      NatToStringRoundTrip(m);
      ParseNegative(body);
      assert IntToString(n) == "-" + body;
    } else {
      var m: nat := n;
      NatToStringRoundTrip(m);
      ParseDigits(NatToString(m));
      assert IntToString(n) == NatToString(m);
    }
  }

  /** Digits read as their value. */
  lemma ParseDigits(t: string)
    requires |t| > 0 && AllDigits(t)
    ensures ParseInt(t) == Some(DigitsValue(t))
  {
    StripUnchanged(t);
  }

  /** A minus sign followed by digits reads as the negated value of the digits. */
  lemma ParseNegative(body: string)
    requires |body| > 0 && AllDigits(body)
    ensures ParseInt("-" + body) == Some(-(DigitsValue(body) as int))
  {
    var t := "-" + body;
    StripUnchanged(t);
    assert t[0] == '-' && t[1..] == body;
  }

  lemma StripUnchanged(t: string)
    requires |t| > 0 && (t[0] == '-' || IsDigit(t[0])) && IsDigit(t[|t| - 1])
    ensures Strip(t) == t
  {
  }

  /** `str(n)` is written with a minus sign and decimal digits only. */
  lemma IntToStringAlphabet(n: int)
    ensures forall i :: 0 <= i < |IntToString(n)| ==> IntToString(n)[i] == '-' || IsDigit(IntToString(n)[i])
  {
    if n < 0 {
      var s := IntToString(n);
      assert forall i :: 1 <= i < |s| ==> s[i] == NatToString(-n)[i - 1];
    }
  }

  /** Digits that do not start with a zero have a positive value. */
  lemma {:induction false} DigitsValuePositive(s: string)
    requires AllDigits(s) && |s| >= 1 && s[0] != '0'
    ensures DigitsValue(s) >= 1
  {
    if |s| == 1 {
      assert DigitChar(DigitValue(s[0])) == s[0];
    } else {
      DigitsValuePositive(s[..|s| - 1]);
    }
  }

  /** `str(int(s)) == s` for a numeral without leading zeros. */
  lemma {:induction false} NatToStringOfDigits(s: string)
    requires AllDigits(s) && |s| >= 1 && (s[0] != '0' || |s| == 1)
    ensures NatToString(DigitsValue(s)) == s
  {
    var init := s[..|s| - 1];
    if |s| > 1 {
      DigitsValuePositive(init);
      NatToStringOfDigits(init);
      var n := DigitsValue(s);
      assert n / 10 == DigitsValue(init) && n % 10 == DigitValue(s[|s| - 1]);
      assert s == init + [s[|s| - 1]];
    }
  }
}
