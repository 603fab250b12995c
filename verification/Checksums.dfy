/** Check digits: what each algorithm computes, and which errors it catches. */
module Checksums {
  import opened Decimals

  /** The byte difference to '0', which wraps around for bytes below it. */
  function Digit(c: char): int {
    (c as int - '0' as int) % 256
  }

  /** `t` differs from `s` in the one place `k`. */
  ghost predicate OneDiffers(s: string, t: string, k: nat) {
    k < |s| && |t| == |s| && t == s[k := t[k]] && t[k] != s[k]
  }

  /** `t` is `s` with the characters at `j` and `k` exchanged. */
  ghost predicate Swapped(s: string, t: string, j: nat, k: nat) {
    j < k < |s| && t == s[j := s[k]][k := s[j]]
  }

  lemma ShiftMod10(x: int, d: int)
    requires x % 10 == 0
    ensures (x + d) % 10 == 0 <==> d % 10 == 0
  {
  }

  lemma DigitIsSmall(c: char)
    requires IsDigit(c)
    ensures Digit(c) == c as int - '0' as int && 0 <= Digit(c) <= 9
  {
  }

  // ----- keeping the digits -----

  function Digits(s: string): string {
    if s == "" then "" else Digits(s[..|s| - 1]) + if IsDigit(s[|s| - 1]) then [s[|s| - 1]] else ""
  }

  method StripNonDigits(s: string) returns (r: string)
    ensures r == Digits(s)
  {
    r := "";
    for i := 0 to |s|
      invariant r == Digits(s[..i])
    {
      assert s[..i + 1][..i] == s[..i];
      if '0' <= s[i] <= '9' {
        r := r + [s[i]];
      }
    }
    assert s[..|s|] == s;
  }

  /** What is kept are digits, in order, and a second pass keeps all of them. */
  lemma {:induction false} DigitsAreDigits(s: string)
    ensures AllDigits(Digits(s)) && multiset(Digits(s)) <= multiset(s)
    ensures AllDigits(s) ==> Digits(s) == s
  {
    if s != "" {
      var front := s[..|s| - 1];
      assert s == front + [s[|s| - 1]];
      DigitsAreDigits(front);
    }
  }

  lemma {:induction false} DigitsOfConcat(s: string, t: string)
    ensures Digits(s + t) == Digits(s) + Digits(t)
  {
    if t == "" {
      assert s + t == s;
    } else {
      assert (s + t)[..|s + t| - 1] == s + t[..|t| - 1];
      DigitsOfConcat(s, t[..|t| - 1]);
    }
  }

  // ----- Luhn -----

  function Doubled(d: int): int {
    if 2 * d > 9 then 2 * d - 9 else 2 * d
  }

  function LuhnTerm(c: char, alt: bool): int {
    if alt then Doubled(Digit(c)) else Digit(c)
  }

  /** The sum from the right, where `alt` says whether the last digit is doubled. */
  function LuhnSum(s: string, alt: bool): int {
    if s == "" then 0 else LuhnTerm(s[|s| - 1], alt) + LuhnSum(s[..|s| - 1], !alt)
  }

  predicate LuhnValid(s: string) {
    LuhnSum(s, false) % 10 == 0
  }

  method Luhn(digits: string) returns (ok: bool)
    ensures ok <==> LuhnValid(digits)
  {
    var sum, alt := 0, false;
    var i := |digits| - 1;
    assert digits[..i + 1] == digits;
    while i >= 0
      invariant -1 <= i < |digits|
      invariant sum + LuhnSum(digits[..i + 1], alt) == LuhnSum(digits, false)
    {
      var d := Digit(digits[i]);
      assert digits[..i + 1][..i] == digits[..i];
      if alt {
        d := d * 2;
        if d > 9 {
          d := d - 9;
        }
      }
      sum := sum + d;
      alt := !alt;
      i := i - 1;
    }
    assert digits[..0] == "";
    ok := sum % 10 == 0;
  }

  /** Whether the digit at `k` is doubled. */
  predicate IsDoubled(n: nat, k: nat, alt: bool) {
    if (n - 1 - k) % 2 == 0 then alt else !alt
  }

  lemma LuhnSnoc(s: string, c: char, alt: bool)
    ensures LuhnSum(s + [c], alt) == LuhnTerm(c, alt) + LuhnSum(s, !alt)
  {
    assert (s + [c])[..|s|] == s;
  }

  lemma DoubledFromFront(n: nat, k: nat, alt: bool)
    requires n > 0
    ensures IsDoubled(n, k, alt) == IsDoubled(n - 1, k, !alt)
  {
  }

  lemma {:induction false} LuhnUpdate(s: string, k: nat, c: char, alt: bool)
    requires k < |s|
    ensures LuhnSum(s[k := c], alt)
         == LuhnSum(s, alt) - LuhnTerm(s[k], IsDoubled(|s|, k, alt)) + LuhnTerm(c, IsDoubled(|s|, k, alt))
  {
    var front, last := s[..|s| - 1], s[|s| - 1];
    assert s == front + [last];
    LuhnSnoc(front, last, alt);
    if k == |front| {
      assert s[k := c] == front + [c];
      LuhnSnoc(front, c, alt);
    } else {
      assert s[k := c] == front[k := c] + [last];
      LuhnSnoc(front[k := c], last, alt);
      LuhnUpdate(front, k, c, !alt);
      DoubledFromFront(|s|, k, alt);
    }
  }

  /** What a digit gives the sum, told from its distance to the end: at an odd distance the two digits of its double. */
  function Contribution(c: char, distance: nat): int {
    var d := c as int - '0' as int;
    if distance % 2 == 1 then 2 * d / 10 + 2 * d % 10 else d
  }

  /** The sum over the first `k` positions of a payload, to which one more digit will be added behind. */
  function PayloadSum(s: string, k: nat): int
    requires k <= |s|
  {
    if k == 0 then 0 else PayloadSum(s, k - 1) + Contribution(s[k - 1], |s| - (k - 1))
  }

  lemma {:induction false} PayloadIsLuhnSum(s: string, k: nat)
    requires AllDigits(s) && k <= |s|
    ensures PayloadSum(s, k) == LuhnSum(s[..k], (|s| - k) % 2 == 0)
  {
    if k > 0 {
      PayloadIsLuhnSum(s, k - 1);
      assert s[..k][..k - 1] == s[..k - 1];
      ContributionIsTerm(s[k - 1], |s| - (k - 1));
    }
  }

  lemma ContributionIsTerm(c: char, distance: nat)
    requires IsDigit(c)
    ensures Contribution(c, distance) == LuhnTerm(c, distance % 2 == 1)
  {
    DigitIsSmall(c);
  }

  /** A payload with a digit behind it is accepted exactly if the digit and what the payload contributes sum up to a
      multiple of 10: the digits at distances 1, 3, 5 and so on from the end their doubles' digits, the others
      themselves. */
  lemma {:induction false} LuhnExactly(s: string, d: char)
    requires AllDigits(s) && IsDigit(d)
    ensures LuhnValid(s + [d]) <==> (d as int - '0' as int + PayloadSum(s, |s|)) % 10 == 0
  {
    LuhnSnoc(s, d, false);
    PayloadIsLuhnSum(s, |s|);
    assert s[..|s|] == s;
    DigitIsSmall(d);
  }

  /** Each payload has exactly one check digit. */
  lemma {:induction false} OneLuhnDigit(s: string, d: int)
    requires AllDigits(s) && 0 <= d <= 9
    ensures LuhnValid(s + [DigitChar(d)]) <==> d == (10 - PayloadSum(s, |s|) % 10) % 10
  {
    LuhnExactly(s, DigitChar(d));
  }

  /** Every error in a single digit is caught. */
  lemma LuhnCatchesSingleErrors(s: string, t: string, k: nat)
    requires AllDigits(s) && AllDigits(t) && OneDiffers(s, t, k)
    requires LuhnValid(s)
    ensures !LuhnValid(t)
  {
    LuhnUpdate(s, k, t[k], false);
    DigitIsSmall(s[k]);
    DigitIsSmall(t[k]);
    var alt := IsDoubled(|s|, k, false);
    TermsDiffer(s[k], t[k], alt);
    ShiftMod10(LuhnSum(s, false), LuhnTerm(t[k], alt) - LuhnTerm(s[k], alt));
  }

  lemma TermsDiffer(c: char, d: char, alt: bool)
    requires IsDigit(c) && IsDigit(d) && c != d
    ensures (LuhnTerm(d, alt) - LuhnTerm(c, alt)) % 10 != 0
  {
    DigitIsSmall(c);
    DigitIsSmall(d);
  }

  /** A swap of neighbours goes unnoticed exactly if they are equal, or a 0 and a 9. */
  lemma LuhnSwapExactly(s: string, t: string, k: nat)
    requires AllDigits(s) && Swapped(s, t, k, k + 1)
    requires LuhnValid(s)
    ensures LuhnValid(t) <==> s[k] == s[k + 1] || {s[k], s[k + 1]} == {'0', '9'}
  {
    LuhnUpdate(s, k, s[k + 1], false);
    LuhnUpdate(s[k := s[k + 1]], k + 1, s[k], false);
    NeighbourIsDoubled(|s|, k);
    var alt := IsDoubled(|s|, k, false);
    var gain := SwapGain(s[k], s[k + 1], alt);
    SwapGainExactly(s[k], s[k + 1], alt);
    ShiftMod10(LuhnSum(s, false), gain);
  }

  lemma NeighbourIsDoubled(n: nat, k: nat)
    ensures IsDoubled(n, k + 1, false) == !IsDoubled(n, k, false)
  {
  }

  /** What the sum gains when `c` and `d` change places, the first of which is doubled if `alt`. */
  function SwapGain(c: char, d: char, alt: bool): int {
    LuhnTerm(d, alt) - LuhnTerm(c, alt) + (LuhnTerm(c, !alt) - LuhnTerm(d, !alt))
  }

  lemma SwapGainExactly(c: char, d: char, alt: bool)
    requires IsDigit(c) && IsDigit(d)
    ensures SwapGain(c, d, alt) % 10 == 0 <==> c == d || {c, d} == {'0', '9'}
  {
    DigitIsSmall(c);
    DigitIsSmall(d);
    DoublingGain(Digit(c), Digit(d));
    DoublingGain(Digit(d), Digit(c));
    assert {c, d} == {'0', '9'} <==> (c == '0' && d == '9') || (c == '9' && d == '0') by {
      assert c in {c, d} && d in {c, d};
    }
  }

  lemma DoublingGain(a: int, b: int)
    requires 0 <= a <= 9 && 0 <= b <= 9
    ensures (Doubled(a) - a - (Doubled(b) - b)) % 10 == 0 <==> a == b || (a == 0 && b == 9) || (a == 9 && b == 0)
  {
  }

  // ----- weighted sums -----

  function WeightedSum(s: string, w: seq<int>): int
    requires |s| <= |w|
  {
    if s == "" then 0 else WeightedSum(s[..|s| - 1], w) + Digit(s[|s| - 1]) * w[|s| - 1]
  }

  lemma {:induction false} WeightedUpdate(s: string, w: seq<int>, k: nat, c: char)
    requires k < |s| <= |w|
    ensures WeightedSum(s[k := c], w) == WeightedSum(s, w) + (Digit(c) - Digit(s[k])) * w[k]
  {
    var front := s[..|s| - 1];
    if k == |front| {
      assert s[k := c][..|s| - 1] == front;
      assert Digit(c) * w[k] == Digit(s[k]) * w[k] + (Digit(c) - Digit(s[k])) * w[k];
    } else {
      assert s[k := c][..|s| - 1] == front[k := c];
      WeightedUpdate(front, w, k, c);
    }
  }

  lemma SwapArithmetic(before: int, between: int, after: int, a: int, b: int, x: int, y: int)
    requires between == before + (b - a) * x && after == between + (a - b) * y
    ensures after == before + (b - a) * (x - y)
  {
  }

  lemma WeightedSwap(s: string, t: string, w: seq<int>, j: nat, k: nat)
    requires |s| <= |w| && Swapped(s, t, j, k)
    ensures WeightedSum(t, w) == WeightedSum(s, w) + (Digit(s[k]) - Digit(s[j])) * (w[j] - w[k])
  {
    WeightedUpdate(s, w, j, s[k]);
    WeightedUpdate(s[j := s[k]], w, k, s[j]);
    SwapArithmetic(WeightedSum(s, w), WeightedSum(s[j := s[k]], w), WeightedSum(t, w), Digit(s[j]), Digit(s[k]), w[j], w[k]);
  }

  const AbaWeights: seq<int> := [3, 7, 1, 3, 7, 1, 3, 7, 1]

  predicate AbaValid(s: string) {
    |s| == 9 && WeightedSum(s, AbaWeights) % 10 == 0
  }

  method AbaChecksum(digits: string) returns (ok: bool)
    ensures ok <==> AbaValid(digits)
    ensures ok ==> |digits| == 9
  {
    if |digits| != 9 {
      return false;
    }
    var sum := 0;
    for i := 0 to |AbaWeights|
      invariant sum == WeightedSum(digits[..i], AbaWeights)
    {
      assert digits[..i + 1][..i] == digits[..i];
      sum := sum + Digit(digits[i]) * AbaWeights[i];
    }
    assert digits[..9] == digits;
    ok := sum % 10 == 0;
  }

  /** One more digit, of weight `c`. */
  lemma WeightedPrefix(s: string, w: seq<int>, k: nat, c: int)
    requires AllDigits(s) && 0 < k <= |s| && k <= |w| && w[k - 1] == c
    ensures WeightedSum(s[..k], w) == WeightedSum(s[..k - 1], w) + c * At(s, k - 1)
  {
    assert s[..k][..k - 1] == s[..k - 1];
    DigitIsSmall(s[k - 1]);
  }

  function At(s: string, k: nat): int
    requires k < |s|
  {
    s[k] as int - '0' as int
  }

  lemma {:induction false} AbaSumOfFive(s: string)
    requires AllDigits(s) && |s| == 9
    ensures WeightedSum(s[..5], AbaWeights) == 3 * At(s, 0) + 7 * At(s, 1) + At(s, 2) + 3 * At(s, 3) + 7 * At(s, 4)
  {
    assert s[..0] == "";
    WeightedPrefix(s, AbaWeights, 1, 3);
    WeightedPrefix(s, AbaWeights, 2, 7);
    WeightedPrefix(s, AbaWeights, 3, 1);
    WeightedPrefix(s, AbaWeights, 4, 3);
    WeightedPrefix(s, AbaWeights, 5, 7);
  }

  lemma {:induction false} AbaSum(s: string)
    requires AllDigits(s) && |s| == 9
    ensures WeightedSum(s, AbaWeights)
         == 3 * (At(s, 0) + At(s, 3) + At(s, 6)) + 7 * (At(s, 1) + At(s, 4) + At(s, 7)) + At(s, 2) + At(s, 5) + At(s, 8)
  {
    assert s[..9] == s;
    AbaSumOfFive(s);
    WeightedPrefix(s, AbaWeights, 6, 1);
    WeightedPrefix(s, AbaWeights, 7, 3);
    WeightedPrefix(s, AbaWeights, 8, 7);
    WeightedPrefix(s, AbaWeights, 9, 1);
  }

  /** Nine digits are accepted exactly if three times the first, fourth and seventh, seven times the second, fifth and
      eighth, and the others sum up to a multiple of 10. */
  lemma AbaExactly(s: string)
    requires AllDigits(s) && |s| == 9
    ensures AbaValid(s) <==>
            (3 * (At(s, 0) + At(s, 3) + At(s, 6)) + 7 * (At(s, 1) + At(s, 4) + At(s, 7)) + At(s, 2) + At(s, 5) + At(s, 8)) % 10 == 0
  {
    AbaSum(s);
  }

  lemma AbaWeightIsUnit(k: nat, d: int)
    requires k < 9 && -9 <= d <= 9 && d != 0
    ensures (d * AbaWeights[k]) % 10 != 0
  {
    var w := AbaWeights[k];
    if w == 1 {
    } else if w == 3 {
      assert d * w == 3 * d;
    } else {
      assert w == 7 && d * w == 7 * d;
    }
  }

  lemma AbaWeightStep(k: nat, d: int)
    requires k < 8 && -9 <= d <= 9
    ensures (d * (AbaWeights[k] - AbaWeights[k + 1])) % 10 == 0 <==> d % 5 == 0
  {
    var w := AbaWeights[k] - AbaWeights[k + 1];
    if w == -4 {
      assert d * w == -4 * d;
    } else if w == 6 {
      assert d * w == 6 * d;
    } else {
      assert w == -2 && d * w == -2 * d;
    }
  }

  /** Every error in a single digit is caught. */
  lemma AbaCatchesSingleErrors(s: string, t: string, k: nat)
    requires AllDigits(s) && AllDigits(t) && OneDiffers(s, t, k)
    requires AbaValid(s)
    ensures !AbaValid(t)
  {
    WeightedUpdate(s, AbaWeights, k, t[k]);
    DigitIsSmall(s[k]);
    DigitIsSmall(t[k]);
    AbaWeightIsUnit(k, Digit(t[k]) - Digit(s[k]));
    ShiftMod10(WeightedSum(s, AbaWeights), (Digit(t[k]) - Digit(s[k])) * AbaWeights[k]);
  }

  /** A swap of neighbours goes unnoticed exactly if they are equal or differ by 5. */
  lemma AbaSwapExactly(s: string, t: string, k: nat)
    requires AllDigits(s) && Swapped(s, t, k, k + 1)
    requires AbaValid(s)
    ensures AbaValid(t) <==> (Digit(s[k + 1]) - Digit(s[k])) % 5 == 0
  {
    WeightedSwap(s, t, AbaWeights, k, k + 1);
    DigitIsSmall(s[k]);
    DigitIsSmall(s[k + 1]);
    AbaWeightStep(k, Digit(s[k + 1]) - Digit(s[k]));
    ShiftMod10(WeightedSum(s, AbaWeights), (Digit(s[k + 1]) - Digit(s[k])) * (AbaWeights[k] - AbaWeights[k + 1]));
  }

  const NhsWeights: seq<int> := [10, 9, 8, 7, 6, 5, 4, 3, 2, 1]

  /** The check digit of the first nine, 10 if there is none. */
  function NhsCheck(s: string): int
    requires |s| == 10
  {
    var check := 11 - WeightedSum(s[..9], NhsWeights) % 11;
    if check == 11 then 0 else check
  }

  predicate NhsValid(s: string) {
    |s| == 10 && NhsCheck(s) != 10 && NhsCheck(s) == Digit(s[9])
  }

  method NhsChecksum(digits: string) returns (ok: bool)
    ensures ok <==> NhsValid(digits)
    ensures ok ==> |digits| == 10
  {
    if |digits| != 10 {
      return false;
    }
    var sum := 0;
    for i := 0 to 9
      invariant sum == WeightedSum(digits[..i], NhsWeights)
    {
      assert digits[..i + 1][..i] == digits[..i];
      sum := sum + Digit(digits[i]) * (10 - i);
    }
    var check := 11 - sum % 11;
    if check == 11 {
      check := 0;
    }
    if check == 10 {
      return false;
    }
    ok := check == Digit(digits[9]);
  }

  lemma NhsIsDivisibility(s: string)
    requires AllDigits(s) && |s| == 10
    ensures NhsValid(s) <==> WeightedSum(s, NhsWeights) % 11 == 0
  {
    var sum := WeightedSum(s[..9], NhsWeights);
    assert WeightedSum(s, NhsWeights) == sum + Digit(s[9]);
    assert 0 <= Digit(s[9]) <= 9;
  }

  lemma {:induction false} NhsSumOfFive(s: string)
    requires AllDigits(s) && |s| == 10
    ensures WeightedSum(s[..5], NhsWeights) == 10 * At(s, 0) + 9 * At(s, 1) + 8 * At(s, 2) + 7 * At(s, 3) + 6 * At(s, 4)
  {
    assert s[..0] == "";
    WeightedPrefix(s, NhsWeights, 1, 10);
    WeightedPrefix(s, NhsWeights, 2, 9);
    WeightedPrefix(s, NhsWeights, 3, 8);
    WeightedPrefix(s, NhsWeights, 4, 7);
    WeightedPrefix(s, NhsWeights, 5, 6);
  }

  lemma {:induction false} NhsSum(s: string)
    requires AllDigits(s) && |s| == 10
    ensures WeightedSum(s, NhsWeights) == 10 * At(s, 0) + 9 * At(s, 1) + 8 * At(s, 2) + 7 * At(s, 3) + 6 * At(s, 4)
                                          + 5 * At(s, 5) + 4 * At(s, 6) + 3 * At(s, 7) + 2 * At(s, 8) + At(s, 9)
  {
    assert s[..10] == s;
    NhsSumOfFive(s);
    WeightedPrefix(s, NhsWeights, 6, 5);
    WeightedPrefix(s, NhsWeights, 7, 4);
    WeightedPrefix(s, NhsWeights, 8, 3);
    WeightedPrefix(s, NhsWeights, 9, 2);
    WeightedPrefix(s, NhsWeights, 10, 1);
  }

  /** Ten digits are accepted exactly if ten times the first, nine times the second, down to the last one itself, sum up
      to a multiple of 11. */
  lemma {:induction false} NhsExactly(s: string)
    requires AllDigits(s) && |s| == 10
    ensures NhsValid(s) <==>
            (10 * At(s, 0) + 9 * At(s, 1) + 8 * At(s, 2) + 7 * At(s, 3) + 6 * At(s, 4)
             + 5 * At(s, 5) + 4 * At(s, 6) + 3 * At(s, 7) + 2 * At(s, 8) + At(s, 9)) % 11 == 0
  {
    NhsSum(s);
    NhsIsDivisibility(s);
  }

  lemma NoZeroDivisorsMod11(a: int, b: int)
    requires 1 <= a <= 10 && -10 <= b <= 10 && b != 0
    ensures (b * a) % 11 != 0
  {
    assert a == 1 || a == 2 || a == 3 || a == 4 || a == 5 || a == 6 || a == 7 || a == 8 || a == 9 || a == 10;
  }

  lemma NotDivisibleBy11(x: int, d: int)
    requires x % 11 == 0 && d % 11 != 0
    ensures (x + d) % 11 != 0
  {
  }

  /** Every error in a single digit is caught. */
  lemma NhsCatchesSingleErrors(s: string, t: string, k: nat)
    requires AllDigits(s) && AllDigits(t) && OneDiffers(s, t, k)
    requires NhsValid(s)
    ensures !NhsValid(t)
  {
    NhsIsDivisibility(s);
    NhsIsDivisibility(t);
    WeightedUpdate(s, NhsWeights, k, t[k]);
    DigitIsSmall(s[k]);
    DigitIsSmall(t[k]);
    NoZeroDivisorsMod11(NhsWeights[k], Digit(t[k]) - Digit(s[k]));
    NotDivisibleBy11(WeightedSum(s, NhsWeights), (Digit(t[k]) - Digit(s[k])) * NhsWeights[k]);
  }

  /** Every swap of two different digits, wherever they stand, is caught. */
  lemma NhsCatchesSwaps(s: string, t: string, j: nat, k: nat)
    requires AllDigits(s) && Swapped(s, t, j, k) && s[j] != s[k]
    requires NhsValid(s)
    ensures !NhsValid(t)
  {
    NhsIsDivisibility(s);
    NhsIsDivisibility(t);
    WeightedSwap(s, t, NhsWeights, j, k);
    DigitIsSmall(s[j]);
    DigitIsSmall(s[k]);
    assert NhsWeights[j] == 10 - j && NhsWeights[k] == 10 - k;
    NoZeroDivisorsMod11(k - j, Digit(s[k]) - Digit(s[j]));
    NotDivisibleBy11(WeightedSum(s, NhsWeights), (Digit(s[k]) - Digit(s[j])) * (k - j));
  }
}
