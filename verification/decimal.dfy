/** Decimal numerals: the `\d+` capture groups read by `parseInt(_, 10)` and the
    strings JavaScript produces when a line number is concatenated into a fragment. */
module Decimal {

  /** `\d` in a JavaScript regular expression: an ASCII digit. */
  predicate IsDigit(c: char) {
    '0' <= c <= '9'
  }

  predicate AllDigits(s: string) {
    forall i :: 0 <= i < |s| ==> IsDigit(s[i])
  }

  /** `\d+`: one or more ASCII digits. */
  predicate IsDigits(s: string) {
    |s| > 0 && AllDigits(s)
  }

  /** The way a non-negative integer is printed: no leading zero except for "0" itself. */
  predicate Canonical(s: string) {
    IsDigits(s) && (s[0] != '0' || |s| == 1)
  }

  function DigitValue(c: char): (d: nat)
    requires IsDigit(c)
    ensures d < 10
  {
    c as int - '0' as int
  }

  function DigitChar(d: nat): (c: char)
    requires d < 10
    ensures IsDigit(c) && DigitValue(c) == d
  {
    ('0' as int + d) as char
  }

  /** `parseInt(s, 10)` on a string made only of ASCII digits. Leading zeros are
      ignored. */
  function ParseDecimal(s: string): (n: nat)
    requires AllDigits(s)
    ensures |s| > 0 && s[0] == '0' ==> n == ParseDecimal(s[1..])
    decreases |s|
  {
    if |s| == 0 then 0
    else
      var t := s[..|s| - 1];
      assert |s| > 1 ==> s[1..][..|s| - 2] == t[1..];
      ParseDecimal(t) * 10 + DigitValue(s[|s| - 1])
  }

  /** The decimal text of `n`, as `"" + n` yields it. */
  function FormatDecimal(n: nat): (s: string)
    ensures Canonical(s)
    ensures '-' !in s && '#' !in s
    decreases n
  {
    if n < 10 then [DigitChar(n)]
    else FormatDecimal(n / 10) + [DigitChar(n % 10)]
  }

  /** Reading back the printed form of a number gives the number. */
  lemma {:induction false} ParseFormat(n: nat)
    ensures ParseDecimal(FormatDecimal(n)) == n
    decreases n
  {
    if n >= 10 {
      var s := FormatDecimal(n);
      assert s[..|s| - 1] == FormatDecimal(n / 10);
      ParseFormat(n / 10);
    }
  }

  /** A numeral whose value is zero is made of zeros only. */
  lemma {:induction false} ParseZero(s: string)
    requires AllDigits(s)
    requires ParseDecimal(s) == 0
    ensures forall i :: 0 <= i < |s| ==> s[i] == '0'
    decreases |s|
  {
    if |s| > 0 {
      ParseZero(s[..|s| - 1]);
      forall i | 0 <= i < |s|
        ensures s[i] == '0'
      {
        if i < |s| - 1 {
          assert s[i] == s[..|s| - 1][i];
        }
      }
    }
  }

  /** Printing the value of a canonical numeral gives back the numeral, so the printed
      form of a number is the only canonical text that denotes it. */
  lemma {:induction false} FormatParse(s: string)
    requires Canonical(s)
    ensures FormatDecimal(ParseDecimal(s)) == s
    decreases |s|
  {
    if |s| > 1 {
      var t := s[..|s| - 1];
      assert Canonical(t) by {
        assert t[0] == s[0];
      }
      if ParseDecimal(t) == 0 {
        ParseZero(t);
        assert false;
      }
      FormatParse(t);
      var n := ParseDecimal(s);
      assert n / 10 == ParseDecimal(t) && n % 10 == DigitValue(s[|s| - 1]);
      assert DigitChar(n % 10) == s[|s| - 1];
      assert s == t + [s[|s| - 1]];
    }
  }
}
