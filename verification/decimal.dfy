/** `strconv.Itoa` for the non-negative line indices the rule uploader numbers its items
    with, and its inverse on canonical decimal strings. */
module Decimal {

  predicate IsDigit(c: char) {
    '0' <= c <= '9'
  }

  /** The character of one decimal digit. */
  function DigitChar(d: nat): (c: char)
    requires d < 10
    ensures IsDigit(c)
  {
    ('0' as int + d) as char
  }

  /** The value of one decimal digit character. */
  function DigitValue(c: char): (d: nat)
    requires IsDigit(c)
    ensures d < 10 && DigitChar(d) == c
  {
    (c as int - '0' as int) as nat
  }

  /** A decimal numeral as `strconv.Itoa` writes it: digits only, no leading zero except
      for "0" itself. */
  predicate Canonical(s: string) {
    && |s| > 0
    && (forall k :: 0 <= k < |s| ==> IsDigit(s[k]))
    && (s[0] == '0' ==> |s| == 1)
  }

  /** `strconv.Itoa(n)` for `n >= 0`. */
  function Itoa(n: nat): (s: string)
    ensures Canonical(s)
    decreases n
  {
    if n < 10 then [DigitChar(n)]
    else
      var init := Itoa(n / 10);
      assert init[0] != '0';
      init + [DigitChar(n % 10)]
  }

  /** The value of a string of digits. */
  function Atoi(s: string): nat
    requires forall k :: 0 <= k < |s| ==> IsDigit(s[k])
    decreases |s|
  {
    if |s| == 0 then 0
    else Atoi(s[..|s| - 1]) * 10 + DigitValue(s[|s| - 1])
  }

  /** Reading back a written index gives the index. */
  lemma {:induction false} AtoiItoa(n: nat)
    ensures Atoi(Itoa(n)) == n
    decreases n
  {
    if n >= 10 {
      var s := Itoa(n);
      assert s[..|s| - 1] == Itoa(n / 10);
      AtoiItoa(n / 10);
    }
  }

  /** Writing the value of a canonical numeral gives the numeral back. */
  lemma {:induction false} ItoaAtoi(s: string)
    requires Canonical(s)
    ensures Itoa(Atoi(s)) == s
    decreases |s|
  {
    if |s| > 1 {
      var init := s[..|s| - 1];
      assert Canonical(init);
      ItoaAtoi(init);
      AtoiPositive(init);
      assert Atoi(s) / 10 == Atoi(init);
      assert Atoi(s) % 10 == DigitValue(s[|s| - 1]);
      assert s == init + [s[|s| - 1]];
    }
  }

  /** A canonical numeral longer than one digit is at least 1. */
  lemma AtoiPositive(s: string)
    requires Canonical(s)
    ensures |s| > 1 ==> Atoi(s) >= 10
    ensures Atoi(s) >= 1 || s == "0"
    decreases |s|
  {
    if |s| > 1 {
      var init := s[..|s| - 1];
      assert Canonical(init);
      AtoiPositive(init);
    } else {
      assert s == [s[0]];
    }
  }

  /** Different indices are written differently. */
  lemma ItoaInjective(m: nat, n: nat)
    requires Itoa(m) == Itoa(n)
    ensures m == n
  {
    AtoiItoa(m);
    AtoiItoa(n);
  }
}
