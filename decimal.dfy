/**
 * Decimal text for integers: Python's `str(n)` (used by f-strings) and the
 * part of `int(s)` that `Car.from_string` needs.
 */
module Decimal {
  import opened Wrappers
  import opened Text

  predicate IsDigit(c: char) {
    '0' <= c <= '9'
  }

  predicate AllDigits(s: string) {
    forall k :: 0 <= k < |s| ==> IsDigit(s[k])
  }

  function DigitChar(d: nat): (c: char)
    requires d < 10
    ensures IsDigit(c)
  {
    (48 + d) as char
  }

  function DigitValue(c: char): (d: nat)
    requires IsDigit(c)
    ensures d < 10 && DigitChar(d) == c
  {
    c as int - 48
  }

  /** `str(n)` for a non-negative `n`: its digits, most significant first, no leading zero. */
  function NatToString(n: nat): (s: string)
    ensures |s| >= 1 && AllDigits(s)
    ensures |s| > 1 ==> s[0] != '0'
    decreases n
  {
    if n < 10 then [DigitChar(n)] else NatToString(n / 10) + [DigitChar(n % 10)]
  }

  /** `str(n)`: a minus sign for negative values, then the digits of the magnitude. */
  function IntToString(n: int): string {
    if n < 0 then "-" + NatToString(-n) else NatToString(n)
  }

  /** The number a non-empty run of decimal digits denotes. */
  function DigitsValue(s: string): nat
    requires AllDigits(s)
    decreases |s|
  {
    if s == [] then 0 else DigitsValue(s[..|s| - 1]) * 10 + DigitValue(s[|s| - 1])
  }

  /**
   * The whitespace `int()` skips around a number: ASCII tab to carriage
   * return, space, and every non-ASCII character `str.isspace()` accepts.
   * The separators U+001C to U+001F, which `strip()` removes, are not skipped.
   */
  predicate IsIntSpace(c: char) {
    IsSpace(c) && !('\U{001C}' <= c <= '\U{001F}')
  }

  /** Drops the leading whitespace `int()` skips. */
  function LStripInt(s: string): (r: string)
    ensures |r| <= |s|
    decreases |s|
  {
    if |s| > 0 && IsIntSpace(s[0]) then LStripInt(s[1..]) else s
  }

  /** Drops the trailing whitespace `int()` skips. */
  function RStripInt(s: string): (r: string)
    ensures |r| <= |s|
    decreases |s|
  {
    if |s| > 0 && IsIntSpace(s[|s| - 1]) then RStripInt(s[..|s| - 1]) else s
  }

  /** The text `int()` reads a number from, once surrounding whitespace is skipped. */
  function StripInt(s: string): string {
    RStripInt(LStripInt(s))
  }

  /** An optional sign and at least one ASCII digit (what `ParseInt` accepts after stripping). */
  predicate IsIntLiteral(t: string) {
    if |t| > 0 && (t[0] == '-' || t[0] == '+') then |t| > 1 && AllDigits(t[1..])
    else |t| > 0 && AllDigits(t)
  }

  /**
   * `int(s)` on text: surrounding whitespace (`IsIntSpace`) is ignored, then an optional
   * sign and one or more ASCII digits; anything else is the `ValueError`
   * case, here `None`.
   */
  function ParseInt(s: string): (r: Option<int>)
    ensures r.Some? <==> IsIntLiteral(StripInt(s))
    ensures r.Some? && AllDigits(StripInt(s)) ==> r.value == DigitsValue(StripInt(s))
    ensures r.Some? && StripInt(s)[0] == '-' ==> r.value == -(DigitsValue(StripInt(s)[1..]) as int)
    ensures r.Some? && StripInt(s)[0] == '+' ==> r.value == DigitsValue(StripInt(s)[1..])
  {
    var t := StripInt(s);
    if |t| > 0 && (t[0] == '-' || t[0] == '+') then
      var body := t[1..];
      if |body| > 0 && AllDigits(body) then
        Some(if t[0] == '-' then -(DigitsValue(body) as int) else DigitsValue(body))
      else None
    else if |t| > 0 && AllDigits(t) then Some(DigitsValue(t))
    else None
  }

  /** The digits `str` writes denote the number written. */
  lemma {:induction false} DigitsValueOfNatToString(n: nat)
    ensures DigitsValue(NatToString(n)) == n
    decreases n
  {
    if n >= 10 {
      var s := NatToString(n);
      DigitsValueOfNatToString(n / 10);
      assert s[..|s| - 1] == NatToString(n / 10);
    }
  }

  /** The text of an integer has no whitespace at its ends, so `int()` reads all of it. */
  lemma IntToStringUnstripped(n: int)
    ensures StripInt(IntToString(n)) == IntToString(n)
  {
    var s := IntToString(n);
    assert IsDigit(s[|s| - 1]);
    assert s[0] == '-' || IsDigit(s[0]);
  }

  /** `int()` skips spaces but not the separator U+001C, which `strip()` would remove. */
  lemma ParseIntSpaces()
    ensures ParseInt(" 12\n") == Some(12)
    ensures ParseInt("-7") == Some(-7) && ParseInt("+7") == Some(7)
    ensures ParseInt("\U{001C}1") == None && Strip("\U{001C}1") == "1"
    ensures ParseInt("") == None && ParseInt("-") == None && ParseInt("1 2") == None
  {
    assert LStripInt(" 12\n") == "12\n";
    assert RStripInt("12\n") == "12";
    assert DigitsValue("12") == 12 by {
      assert "12"[..1] == "1";
    }
    assert StripInt("\U{001C}1") == "\U{001C}1";
    assert StripInt("1 2") == "1 2";
    assert Strip("\U{001C}1") == "1" by {
      assert LStrip("\U{001C}1") == "1";
    }
  }

  /** Round trip: `int(str(n)) == n` for every integer. */
  lemma ParseIntToString(n: int)
    ensures ParseInt(IntToString(n)) == Some(n)
  {
    var s := IntToString(n);
    IntToStringUnstripped(n);
    if n < 0 {
      assert s[1..] == NatToString(-n);
      DigitsValueOfNatToString(-n);
    } else {
      DigitsValueOfNatToString(n);
    }
  }

  /** The text of an integer contains neither whitespace nor a comma. */
  lemma IntToStringPlain(n: int)
    ensures forall k :: 0 <= k < |IntToString(n)| ==>
      IntToString(n)[k] == '-' || IsDigit(IntToString(n)[k])
    ensures ',' !in IntToString(n) && ' ' !in IntToString(n)
  {
  }
}
