/**
 The two string operations registration uses to build a username:
 the first space-separated token of a display name (`name.split(" ")[0]`)
 and the decimal rendering of a millisecond timestamp (`"" + Date.now()`).
 */
module Text {

  /** The first token of `s` when split on single spaces: the longest prefix
      without a space (the empty string when `s` starts with one). */
  function FirstToken(s: string): (r: string)
    ensures r <= s
    ensures ' ' !in r
    ensures |r| == |s| || s[|r|] == ' '
    decreases |s|
  {
    if |s| == 0 || s[0] == ' ' then "" else [s[0]] + FirstToken(s[1..])
  }

  /** The three properties in FirstToken's contract pin the token down:
      any prefix that has them is the token. */
  lemma FirstTokenUnique(s: string, t: string)
    requires t <= s
    requires ' ' !in t
    requires |t| == |s| || s[|t|] == ' '
    ensures t == FirstToken(s)
  {
    var r := FirstToken(s);
    assert t == s[..|t|] == r;
  }

  /** A name written "First Rest" yields "First" as its first token. */
  lemma FirstTokenOfFullName(first: string, rest: string)
    requires ' ' !in first
    ensures FirstToken(first + " " + rest) == first
  {
    var s := first + " " + rest;
    assert first <= s;
    assert s[|first|] == ' ';
    FirstTokenUnique(s, first);
  }

  predicate IsDigit(c: char) {
    '0' <= c <= '9'
  }

  predicate AllDigits(s: string) {
    forall i :: 0 <= i < |s| ==> IsDigit(s[i])
  }

  function DigitChar(d: nat): (c: char)
    requires d < 10
    ensures IsDigit(c)
  {
    (('0' as int) + d) as char
  }

  function DigitValue(c: char): (d: nat)
    requires IsDigit(c)
    ensures d < 10
    ensures DigitChar(d) == c
  {
    (c as int) - ('0' as int)
  }

  /** The decimal rendering of `n`, most significant digit first. */
  function Decimal(n: nat): (r: string)
    ensures |r| >= 1
    ensures AllDigits(r)
    ensures r[0] == '0' ==> n == 0
    decreases n
  {
    if n < 10 then [DigitChar(n)] else Decimal(n / 10) + [DigitChar(n % 10)]
  }

  /** The value a string of decimal digits denotes. */
  function ParseDecimal(s: string): (n: nat)
    requires AllDigits(s)
    decreases |s|
  {
    if |s| == 0 then 0 else ParseDecimal(s[..|s| - 1]) * 10 + DigitValue(s[|s| - 1])
  }

  /** Reading back a rendered number gives the number. */
  lemma {:induction false} DecimalRoundTrip(n: nat)
    ensures ParseDecimal(Decimal(n)) == n
    decreases n
  {
    if n >= 10 {
      DecimalRoundTrip(n / 10);
      var r := Decimal(n);
      assert r[..|r| - 1] == Decimal(n / 10);
      assert DigitValue(r[|r| - 1]) == n % 10;
    } else {
      assert DigitValue(DigitChar(n)) == n;
    }
  }

  /** Distinct timestamps render differently. */
  lemma DecimalInjective(m: nat, n: nat)
    requires Decimal(m) == Decimal(n)
    ensures m == n
  {
    DecimalRoundTrip(m);
    DecimalRoundTrip(n);
  }
}
