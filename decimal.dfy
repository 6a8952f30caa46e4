/**
 * Decimal formatting of integers, as Go's `fmt` writes them with the `%d`
 * verb (an optional '-' followed by the digits, most significant first, no
 * leading zero), together with its inverse.
 */
module Decimal {
  import opened Wrappers

  predicate IsDigit(c: char) {
    '0' <= c <= '9'
  }

  predicate AllDigits(s: string) {
    forall k :: 0 <= k < |s| ==> IsDigit(s[k])
  }

  function DigitChar(d: nat): (c: char)
    requires d < 10
    ensures IsDigit(c) && DigitValue(c) == d
  {
    ('0' as int + d) as char
  }

  function DigitValue(c: char): (d: nat)
    requires IsDigit(c)
    ensures d < 10
  {
    c as int - '0' as int
  }

  /** The digits of n, most significant first. */
  function NatDigits(n: nat): (s: string)
    ensures |s| >= 1 && AllDigits(s)
    ensures s[0] == '0' <==> n == 0
    ensures n < 10 <==> |s| == 1
    decreases n
  {
    if n < 10 then [DigitChar(n)] else NatDigits(n / 10) + [DigitChar(n % 10)]
  }

  /** `%d`: the sign, when negative, then the digits of the magnitude. */
  function Format(i: int): (s: string)
    ensures |s| >= 1
    ensures s[0] == '-' <==> i < 0
    ensures forall k :: 0 <= k < |s| ==> IsDigit(s[k]) || (k == 0 && s[k] == '-')
  {
    if i < 0 then "-" + NatDigits(-i) else NatDigits(i)
  }

  /** The value of a string of digits, most significant first. */
  function DigitsValue(s: string): nat
    requires AllDigits(s)
  {
    if s == [] then 0 else DigitsValue(s[..|s| - 1]) * 10 + DigitValue(s[|s| - 1])
  }

  /** Digits with no leading zero, as `%d` writes a magnitude. */
  predicate Canonical(d: string) {
    |d| >= 1 && AllDigits(d) && (d[0] == '0' ==> |d| == 1)
  }

  /** Reads exactly what `%d` writes: an optional '-' and canonical digits, with no "-0". */
  function Parse(s: string): (r: Option<int>)
    ensures r.Some? ==> |s| >= 1 && (r.value < 0 <==> s[0] == '-')
    ensures r.Some? && s[0] != '-' ==> Canonical(s)
  {
    if s == [] then None
    else if s[0] == '-' then
      if |s| >= 2 && AllDigits(s[1..]) && s[1] != '0' then
        DigitsValuePositive(s[1..]);
        Some(-(DigitsValue(s[1..]) as int))
      else None
    else if Canonical(s) then Some(DigitsValue(s))
    else None
  }

  /** Digits that do not start with '0' stand for a positive number, at least 10 when there are two or more. */
  lemma {:induction false} DigitsValuePositive(d: string)
    requires |d| >= 1 && AllDigits(d) && d[0] != '0'
    ensures DigitsValue(d) >= 1
    ensures |d| >= 2 ==> DigitsValue(d) >= 10
    decreases |d|
  {
    if |d| >= 2 {
      DigitsValuePositive(d[..|d| - 1]);
    }
  }

  /** Canonical digits are the digits of their own value. */
  lemma {:induction false} DigitsCanonical(d: string)
    requires Canonical(d)
    ensures NatDigits(DigitsValue(d)) == d
    decreases |d|
  {
    var v := DigitsValue(d);
    var last := DigitValue(d[|d| - 1]);
    if |d| == 1 {
      assert d[..|d| - 1] == [];
      assert v == DigitsValue(d[..|d| - 1]) * 10 + last;
      assert v == last;
      assert DigitChar(last) == d[0];
    } else {
      var init := d[..|d| - 1];
      assert init[0] == d[0] != '0';
      DigitsValuePositive(d);
      DigitsCanonical(init);
      assert v == DigitsValue(init) * 10 + last;
      assert v / 10 == DigitsValue(init) && v % 10 == last;
      assert DigitChar(last) == d[|d| - 1];
      assert d == init + [d[|d| - 1]];
    }
  }

  /** Whatever Parse accepts is exactly what `%d` writes for the value read. */
  lemma ParseCanonical(s: string, i: int)
    requires Parse(s) == Some(i)
    ensures s == Format(i)
  {
    if s[0] == '-' {
      var d := s[1..];
      DigitsValuePositive(d);
      DigitsCanonical(d);
      assert s == "-" + d;
    } else {
      DigitsCanonical(s);
    }
  }

  lemma {:induction false} DigitsRoundTrip(n: nat)
    ensures DigitsValue(NatDigits(n)) == n
    decreases n
  {
    if n >= 10 {
      var s := NatDigits(n);
      assert s[..|s| - 1] == NatDigits(n / 10);
      DigitsRoundTrip(n / 10);
    }
  }

  lemma ParseNatural(m: nat)
    ensures Parse(NatDigits(m)) == Some(m)
  {
    DigitsRoundTrip(m);
  }

  lemma ParseNegative(m: nat)
    requires m > 0
    ensures Parse(['-'] + NatDigits(m)) == Some(-(m as int))
  {
    var d := NatDigits(m);
    assert (['-'] + d)[1..] == d;
    DigitsRoundTrip(m);
  }

  /** Reading back what `%d` wrote gives the number written. */
  lemma FormatRoundTrip(i: int)
    ensures Parse(Format(i)) == Some(i)
  {
    if i < 0 {
      ParseNegative(-i);
    } else {
      ParseNatural(i);
    }
  }

  /** Different numbers are written differently. */
  lemma FormatInjective(i: int, j: int)
    ensures Format(i) == Format(j) <==> i == j
  {
    FormatRoundTrip(i);
    FormatRoundTrip(j);
  }

  /** Two strings that Parse reads as the same number are the same string. */
  lemma ParseInjective(s: string, t: string)
    requires Parse(s).Some? && Parse(s) == Parse(t)
    ensures s == t
  {
    ParseCanonical(s, Parse(s).value);
    ParseCanonical(t, Parse(t).value);
  }
}
