/**
 * Decimal numerals as the shell reads and writes them: `sprintf("%d", n)` when it
 * expands `$?` and `$$` or prints a job index or pid, and `atoi` when `fg` and `bg`
 * read a pid argument. Integers are unbounded here (see README, "Left out").
 */
module Numerals {

  predicate IsDigit(c: char) {
    '0' <= c <= '9'
  }

  predicate AllDigits(s: string) {
    forall i :: 0 <= i < |s| ==> IsDigit(s[i])
  }

  /** The characters C's `isspace` accepts in the "C" locale. */
  predicate IsSpace(c: char) {
    c == ' ' || c == '\t' || c == '\n' || c == '\r' || c == 11 as char || c == 12 as char
  }

  function DigitChar(d: nat): (c: char)
    requires d < 10
    ensures IsDigit(c)
  {
    ('0' as int + d) as char
  }

  function DigitValue(c: char): (d: nat)
    requires IsDigit(c)
    ensures d < 10
  {
    c as int - '0' as int
  }

  /** The digits of `n`, most significant first, with no leading zero. */
  function Digits(n: nat): (s: string)
    ensures |s| > 0 && AllDigits(s)
    ensures n >= 10 ==> s[0] != '0'
    decreases n
  {
    if n < 10 then [DigitChar(n)] else Digits(n / 10) + [DigitChar(n % 10)]
  }

  /** `sprintf(buf, "%d", n)`. */
  function Decimal(n: int): (s: string)
    ensures |s| > 0
    ensures s[0] == '-' <==> n < 0
    ensures n >= 0 ==> AllDigits(s)
  {
    if n < 0 then "-" + Digits(-n) else Digits(n)
  }

  /** The value of a run of digits, read from the left. */
  function DigitsValue(s: string): nat
    requires AllDigits(s)
  {
    if s == [] then 0 else DigitsValue(s[..|s| - 1]) * 10 + DigitValue(s[|s| - 1])
  }

  /** Length of the longest prefix of `s` made of digits. */
  function DigitRun(s: string): (k: nat)
    ensures k <= |s| && AllDigits(s[..k])
    ensures k < |s| ==> !IsDigit(s[k])
  {
    if s == [] || !IsDigit(s[0]) then 0 else 1 + DigitRun(s[1..])
  }

  /** Length of the longest prefix of `s` made of white space. */
  function SpaceRun(s: string): (k: nat)
    ensures k <= |s| && forall i :: 0 <= i < k ==> IsSpace(s[i])
    ensures k < |s| ==> !IsSpace(s[k])
  {
    if s == [] || !IsSpace(s[0]) then 0 else 1 + SpaceRun(s[1..])
  }

  /**
   * `atoi(s)`: skips leading white space, reads an optional sign and then the
   * longest run of digits; anything after is ignored, and no digits give 0.
   */
  function Atoi(s: string): int {
    var t := s[SpaceRun(s)..];
    if |t| > 0 && (t[0] == '-' || t[0] == '+') then
      var v: int := DigitsValue(t[1..][..DigitRun(t[1..])]);
      if t[0] == '-' then -v else v
    else
      DigitsValue(t[..DigitRun(t)])
  }

  lemma {:induction false} DigitsValueOfDigits(n: nat)
    ensures DigitsValue(Digits(n)) == n
    decreases n
  {
    if n >= 10 {
      var s := Digits(n);
      assert s[..|s| - 1] == Digits(n / 10);
      DigitsValueOfDigits(n / 10);
    }
  }

  /**
   * Reading back what `%d` printed gives the number again, even when other text
   * follows the digits: `atoi(sprintf("%d", n) + rest) == n` unless `rest` starts with a digit.
   */
  lemma AtoiOfDecimal(n: int, rest: string)
    requires rest == [] || !IsDigit(rest[0])
    ensures Atoi(Decimal(n) + rest) == n
  {
    if n < 0 {
      assert Decimal(n) == "-" + Digits(-n);
      AtoiNegative(Digits(-n), rest);
      DigitsValueOfDigits(-n);
    } else {
      assert Decimal(n) == Digits(n);
      AtoiUnsigned(Digits(n), rest);
      DigitsValueOfDigits(n);
    }
  }

  /** `atoi` of a run of digits followed by a non-digit reads the run. */
  lemma AtoiUnsigned(ds: string, rest: string)
    requires ds != [] && AllDigits(ds)
    requires rest == [] || !IsDigit(rest[0])
    ensures Atoi(ds + rest) == DigitsValue(ds)
  {
    var s := ds + rest;
    assert s[0] == ds[0] && !IsSpace(s[0]) && s[0] != '-' && s[0] != '+';
    assert s[SpaceRun(s)..] == s;
    DigitRunOfDigitsThen(ds, rest);
    assert s[..|ds|] == ds;
  }

  /** `atoi` of a minus sign, a run of digits and a non-digit reads the negated run. */
  lemma AtoiNegative(ds: string, rest: string)
    requires ds != [] && AllDigits(ds)
    requires rest == [] || !IsDigit(rest[0])
    ensures Atoi("-" + ds + rest) == -(DigitsValue(ds) as int)
  {
    var s := "-" + ds + rest;
    assert s[0] == '-' && !IsSpace(s[0]);
    assert s[SpaceRun(s)..] == s;
    assert s[1..] == ds + rest;
    DigitRunOfDigitsThen(ds, rest);
    assert s[1..][..DigitRun(s[1..])] == ds;
  }

  lemma {:induction false} DigitRunOfDigitsThen(s: string, rest: string)
    requires AllDigits(s)
    requires rest == [] || !IsDigit(rest[0])
    ensures DigitRun(s + rest) == |s|
    decreases |s|
  {
    if s == [] {
      assert s + rest == rest;
    } else {
      assert (s + rest)[1..] == s[1..] + rest;
      DigitRunOfDigitsThen(s[1..], rest);
    }
  }

  /** Distinct numbers print differently, so a decimal pid names one process. */
  lemma DecimalInjective(m: int, n: int)
    requires Decimal(m) == Decimal(n)
    ensures m == n
  {
    AtoiOfDecimal(m, []);
    AtoiOfDecimal(n, []);
    assert Decimal(m) + [] == Decimal(m);
    assert Decimal(n) + [] == Decimal(n);
  }
}
