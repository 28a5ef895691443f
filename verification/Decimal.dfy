/**
 * Decimal rendering of integers as Java's string concatenation prints a
 * `long` or a `short` (Long.toString): an optional '-' and the digits of the
 * magnitude without leading zeros.
 */
module Decimal {
  import opened Wrappers

  function DigitChar(d: int): (c: char)
    requires 0 <= d < 10
  {
    (48 + d) as char
  }

  predicate IsDigit(c: char) {
    '0' <= c <= '9'
  }

  predicate AllDigits(s: string) {
    forall i :: 0 <= i < |s| ==> IsDigit(s[i])
  }

  /** The digits of n, most significant first, with no leading zero. */
  function Digits(n: nat): (r: string)
    ensures |r| > 0 && AllDigits(r)
    ensures |r| > 1 ==> r[0] != '0'
  {
    if n < 10 then [DigitChar(n)] else Digits(n / 10) + [DigitChar(n % 10)]
  }

  function ToDecimal(x: int): (r: string) {
    if x < 0 then "-" + Digits(-x) else Digits(x)
  }

  /** The value of a string of decimal digits. */
  function DigitsValue(s: string): (r: nat)
    requires AllDigits(s)
  {
    if s == [] then 0 else DigitsValue(s[..|s| - 1]) * 10 + (s[|s| - 1] as int - 48)
  }

  lemma {:induction false} DigitsValueOfDigits(n: nat)
    ensures DigitsValue(Digits(n)) == n
  {
    if n >= 10 {
      var r := Digits(n);
      assert r[..|r| - 1] == Digits(n / 10);
      DigitsValueOfDigits(n / 10);
    }
  }

  /** The length of the run of digits at the start of s. */
  function DigitRun(s: string): (k: nat)
    ensures k <= |s| && AllDigits(s[..k])
    ensures k < |s| ==> !IsDigit(s[k])
  {
    if s == [] || !IsDigit(s[0]) then 0
    else
      var k := DigitRun(s[1..]);
      assert s[..k + 1] == [s[0]] + s[1..][..k];
      k + 1
  }

  /**
   * Reads one optionally signed decimal number from the front of s and
   * returns it with the rest of the string.
   */
  function ParseLeading(s: string): (r: Option<(int, string)>) {
    if |s| > 0 && s[0] == '-' then
      var k := DigitRun(s[1..]);
      if k == 0 then None else Some((0 - DigitsValue(s[1..][..k]), s[1..][k..]))
    else
      var k := DigitRun(s);
      if k == 0 then None else Some((DigitsValue(s[..k]), s[k..]))
  }

  lemma {:induction false} DigitRunOfAppend(d: string, rest: string)
    requires AllDigits(d) && (rest == [] || !IsDigit(rest[0]))
    ensures DigitRun(d + rest) == |d|
    decreases |d|
  {
    if d == [] {
      assert d + rest == rest;
    } else {
      assert (d + rest)[1..] == d[1..] + rest;
      DigitRunOfAppend(d[1..], rest);
    }
  }

  /** A digit string followed by a non-digit is read as its value, leaving the rest. */
  lemma ParseLeadingOfDigits(n: nat, rest: string)
    requires rest == [] || !IsDigit(rest[0])
    ensures ParseLeading(Digits(n) + rest) == Some((n, rest))
  {
    var d := Digits(n);
    var s := d + rest;
    assert s[0] == d[0] && IsDigit(d[0]);
    DigitRunOfAppend(d, rest);
    assert s[..|d|] == d && s[|d|..] == rest;
    DigitsValueOfDigits(n);
  }

  /** A rendered number followed by a non-digit is read back exactly, leaving the rest. */
  lemma ParseLeadingOfDecimal(x: int, rest: string)
    requires rest == [] || !IsDigit(rest[0])
    ensures ParseLeading(ToDecimal(x) + rest) == Some((x, rest))
  {
    if x < 0 {
      ParseLeadingOfNegative(0 - x, rest);
    } else {
      ParseLeadingOfDigits(x, rest);
    }
  }

  lemma ParseLeadingOfNegative(n: nat, rest: string)
    requires n > 0
    requires rest == [] || !IsDigit(rest[0])
    ensures ParseLeading("-" + Digits(n) + rest) == Some((0 - n, rest))
  {
    var d := Digits(n);
    var t := d + rest;
    assert "-" + d + rest == ['-'] + t;
    DigitRunOfAppend(d, rest);
    assert t[..|d|] == d && t[|d|..] == rest;
    DigitsValueOfDigits(n);
    NegativeLeading(t, |d|);
  }

  lemma NegativeLeading(t: string, k: nat)
    requires DigitRun(t) == k > 0
    ensures ParseLeading(['-'] + t) == Some((0 - DigitsValue(t[..k]), t[k..]))
  {
    assert (['-'] + t)[1..] == t;
  }
}
