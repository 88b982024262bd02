/**
 * Decimal integers as text: Python's `str(n)` for an `int`, and the part of
 * `int(token)` the calculator relies on (an optional sign, then ASCII digits).
 */
module Integers {
  import opened Wrappers

  predicate IsDigit(ch: char) {
    '0' <= ch <= '9'
  }

  predicate AllDigits(s: string) {
    forall i :: 0 <= i < |s| ==> IsDigit(s[i])
  }

  function DigitValue(ch: char): (v: nat)
    requires IsDigit(ch)
    ensures v < 10
  {
    (ch as int) - ('0' as int)
  }

  function DigitChar(v: nat): (ch: char)
    requires v < 10
    ensures IsDigit(ch) && DigitValue(ch) == v
  {
    (('0' as int) + v) as char
  }

  /** The value of a run of decimal digits, most significant digit first; leading zeros are allowed. */
  function DigitsValue(s: string): (v: nat)
    requires AllDigits(s)
    ensures |s| >= 1 && s[0] != '0' ==> v >= 1
    decreases |s|
  {
    if s == [] then 0 else DigitsValue(s[..|s| - 1]) * 10 + DigitValue(s[|s| - 1])
  }

  /** The shortest decimal text of `n`: no leading zero unless `n` is zero. */
  function NatToString(n: nat): (s: string)
    ensures |s| >= 1 && AllDigits(s) && DigitsValue(s) == n
    ensures s[0] == '0' ==> n == 0 && s == "0"
    decreases n
  {
    if n < 10 then [DigitChar(n)]
    else
      var p := NatToString(n / 10);
      var s := p + [DigitChar(n % 10)];
      assert s[..|s| - 1] == p;
      s
  }

  /** The grammar accepted for a token: an optional `-` or `+` followed by one or more ASCII digits. */
  predicate IsIntLiteral(t: string) {
    || (|t| >= 1 && AllDigits(t))
    || (|t| >= 2 && (t[0] == '-' || t[0] == '+') && AllDigits(t[1..]))
  }

  /** Python's `int(token)`: None where Python raises ValueError. */
  function ParseInt(t: string): (r: Option<int>)
    ensures r.Some? <==> IsIntLiteral(t)
    ensures r.Some? && r.value < 0 ==> t[0] == '-'
    ensures r.Some? && t[0] != '-' ==> r.value >= 0
  {
    if |t| >= 1 && (t[0] == '-' || t[0] == '+') then
      if |t| >= 2 && AllDigits(t[1..]) then
        var magnitude: int := DigitsValue(t[1..]);
        Some(if t[0] == '-' then -magnitude else magnitude)
      else None
    else if |t| >= 1 && AllDigits(t) then Some(DigitsValue(t))
    else None
  }

  /** Python's `str(n)`: a minus sign for negative numbers, then the shortest decimal digits. */
  function IntToString(n: int): (s: string)
    ensures |s| >= 1
    ensures s[0] == '-' <==> n < 0
    ensures forall i :: 0 <= i < |s| ==> IsDigit(s[i]) || (i == 0 && s[i] == '-')
    ensures s[0] == '0' ==> s == "0"
    ensures n < 0 ==> |s| >= 2 && s[1] != '0'
    ensures ParseInt(s) == Some(n)
  {
    if n < 0 then
      var s := "-" + NatToString(-n);
      assert s[1..] == NatToString(-n);
      s
    else NatToString(n)
  }

  /** The texts `str(n)` produces: `0`, or digits without a leading zero, with a `-` before them exactly for negatives. */
  predicate IsCanonical(t: string) {
    || (|t| >= 1 && AllDigits(t) && (t[0] == '0' ==> |t| == 1))
    || (|t| >= 2 && t[0] == '-' && AllDigits(t[1..]) && t[1] != '0')
  }

  lemma {:induction false} DigitsRoundTrip(s: string)
    requires |s| >= 1 && AllDigits(s) && (s[0] == '0' ==> |s| == 1)
    ensures NatToString(DigitsValue(s)) == s
    decreases |s|
  {
    var p := s[..|s| - 1];
    var c := s[|s| - 1];
    if |s| == 1 {
      assert DigitChar(DigitValue(c)) == c;
    } else {
      assert p[0] == s[0];
      DigitsRoundTrip(p);
      var n := DigitsValue(s);
      assert n / 10 == DigitsValue(p) && n % 10 == DigitValue(c);
      assert DigitChar(DigitValue(c)) == c;
      assert s == p + [c];
    }
  }

  /** `str(int(t)) == t` for every text `str` can produce. */
  lemma ParseIntRoundTrip(t: string)
    requires IsCanonical(t)
    ensures ParseInt(t).Some?
    ensures IntToString(ParseInt(t).value) == t
  {
    if t[0] == '-' {
      var u := t[1..];
      DigitsRoundTrip(u);
      assert DigitsValue(u) >= 1;
      assert t == "-" + u;
    } else {
      DigitsRoundTrip(t);
    }
  }

  lemma {:induction false} DigitsLeadingZero(u: string)
    requires AllDigits(u)
    ensures AllDigits("0" + u) && DigitsValue("0" + u) == DigitsValue(u)
    decreases |u|
  {
    var s := "0" + u;
    if u != [] {
      var p := u[..|u| - 1];
      DigitsLeadingZero(p);
      assert s[..|s| - 1] == "0" + p;
      assert s[|s| - 1] == u[|u| - 1];
    }
  }

  /** `int()` ignores a leading zero, with or without a `-` before it: `int("007") == int("7")`. */
  lemma ParseIntLeadingZero(u: string)
    requires |u| >= 1 && AllDigits(u)
    ensures ParseInt("0" + u) == ParseInt(u)
    ensures ParseInt("-0" + u) == ParseInt("-" + u)
  {
    DigitsLeadingZero(u);
    assert ("-0" + u)[1..] == "0" + u;
    assert ("-" + u)[1..] == u;
  }

  /** `int("+" + u) == int(u)`, and a `-` negates the value of the digits. */
  lemma ParseIntSign(u: string)
    requires |u| >= 1 && AllDigits(u)
    ensures ParseInt("+" + u) == ParseInt(u)
    ensures ParseInt("-" + u) == Some(-ParseInt(u).value)
  {
    assert ("+" + u)[1..] == u;
    assert ("-" + u)[1..] == u;
  }
}
