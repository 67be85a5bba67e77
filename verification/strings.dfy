/** The bits of Rust's string formatting the converter relies on: decimal
    rendering of integers (`{}` on `usize`/`i64`) and ASCII lower-casing. */
module Strings {

  predicate IsDigit(c: char) {
    '0' <= c <= '9'
  }

  function DigitChar(d: nat): (c: char)
    requires d < 10
    ensures IsDigit(c)
    ensures c as int - '0' as int == d
  {
    (('0' as int) + d) as char
  }

  function DigitValue(c: char): (d: nat)
    requires IsDigit(c)
    ensures d < 10
  {
    c as int - '0' as int
  }

  /** Decimal text of a natural number, as `format!("{}", n)` prints it. */
  function NatText(n: nat): (s: string)
    ensures |s| > 0
    ensures forall i :: 0 <= i < |s| ==> IsDigit(s[i])
    ensures s[0] == '0' ==> n == 0
    decreases n
  {
    if n < 10 then [DigitChar(n)] else NatText(n / 10) + [DigitChar(n % 10)]
  }

  /** Decimal text of a signed integer (`i64` printed with `{}`). */
  function IntText(i: int): string {
    if i < 0 then "-" + NatText(-i) else NatText(i)
  }

  /** The value of a string of decimal digits. */
  function ParseNat(s: string): nat
    requires forall i :: 0 <= i < |s| ==> IsDigit(s[i])
    decreases |s|
  {
    if |s| == 0 then 0 else 10 * ParseNat(s[..|s| - 1]) + DigitValue(s[|s| - 1])
  }

  /** Reading back the decimal text gives the number: `NatText` is a faithful encoding. */
  lemma {:induction false} ParseNatText(n: nat)
    ensures ParseNat(NatText(n)) == n
    decreases n
  {
    if n >= 10 {
      var s := NatText(n);
      assert s[..|s| - 1] == NatText(n / 10);
      ParseNatText(n / 10);
    }
  }

  /** Distinct numbers have distinct decimal texts. */
  lemma NatTextInjective(a: nat, b: nat)
    ensures NatText(a) == NatText(b) ==> a == b
  {
    ParseNatText(a);
    ParseNatText(b);
  }

  /** ASCII lower-casing of one character; every other character is kept. */
  function LowerChar(c: char): char {
    if 'A' <= c <= 'Z' then (c as int + 32) as char else c
  }

  function UpperChar(c: char): char {
    if 'a' <= c <= 'z' then (c as int - 32) as char else c
  }

  /** `str::to_lowercase` restricted to ASCII letters. */
  function Lower(s: string): (r: string)
    ensures |r| == |s|
    ensures forall i :: 0 <= i < |s| ==> r[i] == LowerChar(s[i])
  {
    seq(|s|, i requires 0 <= i < |s| => LowerChar(s[i]))
  }

  predicate IsLowerAscii(s: string) {
    forall i :: 0 <= i < |s| ==> 'a' <= s[i] <= 'z'
  }

  /** `s` spells `t` with every letter in either case. */
  predicate EqualsIgnoringCase(s: string, t: string) {
    && |s| == |t|
    && forall i :: 0 <= i < |s| ==> s[i] == t[i] || s[i] == UpperChar(t[i])
  }

  /** A word spelled ignoring case from lower-case letters consists of letters. */
  lemma IgnoringCaseKeepsLetters(s: string, t: string)
    requires IsLowerAscii(t) && EqualsIgnoringCase(s, t)
    ensures forall j :: 0 <= j < |s| ==> 'a' <= s[j] <= 'z' || 'A' <= s[j] <= 'Z'
  {
    forall j | 0 <= j < |s|
      ensures 'a' <= s[j] <= 'z' || 'A' <= s[j] <= 'Z'
    {
      assert s[j] == t[j] || s[j] == UpperChar(t[j]);
    }
  }

  /** Lower-casing maps `s` onto a lower-case word exactly when `s` spells
      that word ignoring case. */
  lemma LowerMatchesIgnoringCase(s: string, t: string)
    requires IsLowerAscii(t)
    ensures Lower(s) == t <==> EqualsIgnoringCase(s, t)
  {
    if Lower(s) == t {
      forall i | 0 <= i < |s|
        ensures s[i] == t[i] || s[i] == UpperChar(t[i])
      {
        assert LowerChar(s[i]) == t[i];
      }
    }
    if EqualsIgnoringCase(s, t) {
      forall i | 0 <= i < |s|
        ensures Lower(s)[i] == t[i]
      {
        assert LowerChar(s[i]) == t[i];
      }
    }
  }
}
