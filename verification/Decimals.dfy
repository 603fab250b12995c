/** Numbers and the decimal digits they are written with. */
module Decimals {

  predicate IsDigit(c: char) {
    '0' <= c <= '9'
  }

  predicate AllDigits(s: string) {
    forall i :: 0 <= i < |s| ==> IsDigit(s[i])
  }

  function DigitChar(d: int): char
    requires 0 <= d <= 9
  {
    d as char + '0'
  }

  /** A number in decimal digits, without leading zeros. */
  function Written(n: nat): string {
    if n < 10 then [DigitChar(n)] else Written(n / 10) + [DigitChar(n % 10)]
  }

  /** The number that a string of digits spells. */
  function Spelled(s: string): int {
    if s == "" then 0 else Spelled(s[..|s| - 1]) * 10 + (s[|s| - 1] as int - '0' as int)
  }

  lemma SpelledSnoc(s: string, c: char)
    ensures Spelled(s + [c]) == Spelled(s) * 10 + (c as int - '0' as int)
  {
    assert (s + [c])[..|s|] == s;
  }

  lemma {:induction false} WrittenIsDigits(n: nat)
    ensures |Written(n)| >= 1 && AllDigits(Written(n))
  {
    if n >= 10 {
      WrittenIsDigits(n / 10);
    }
  }

  lemma SpelledDigit(s: string, d: int)
    requires 0 <= d <= 9
    ensures Spelled(s + [DigitChar(d)]) == Spelled(s) * 10 + d
  {
    SpelledSnoc(s, DigitChar(d));
  }

  /** Reading a written number gives it back. */
  lemma {:induction false} SpelledWritten(n: nat)
    ensures Spelled(Written(n)) == n
  {
    if n < 10 {
      SpelledDigit("", n);
      assert "" + [DigitChar(n)] == [DigitChar(n)];
    } else {
      SpelledWritten(n / 10);
      SpelledDigit(Written(n / 10), n % 10);
    }
  }
}
