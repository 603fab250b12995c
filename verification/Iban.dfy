/** The check digits of an IBAN: the whole rearranged number modulo 97. A text is a sequence of bytes. */
module Iban {
  import opened Decimals

  predicate IsLetter(c: char) {
    'A' <= c <= 'Z'
  }

  predicate IsAscii(c: char) {
    c < '\U{80}'
  }

  function Upper(c: char): char {
    if 'a' <= c <= 'z' then c - 'a' + 'A' else c
  }

  /** The dotless i and the long s, in two bytes each, are the only characters beyond ASCII with an upper
      case in ASCII. */
  predicate StartsWithDotlessI(s: string) {
    |s| >= 2 && s[0] == '\U{C4}' && s[1] == '\U{B1}'
  }

  predicate StartsWithLongS(s: string) {
    |s| >= 2 && s[0] == '\U{C5}' && s[1] == '\U{BF}'
  }

  /** `strings.ToUpper`; any other byte beyond ASCII is left to stand for a character that is no letter or digit. */
  function UpperText(s: string): string {
    if s == "" then ""
    else if StartsWithDotlessI(s) then "I" + UpperText(s[2..])
    else if StartsWithLongS(s) then "S" + UpperText(s[2..])
    else [Upper(s[0])] + UpperText(s[1..])
  }

  predicate Plain(u: string) {
    forall i :: 0 <= i < |u| ==> IsDigit(u[i]) || IsLetter(u[i])
  }

  /** A digit counts for itself, letters for 10 to 35. */
  function Value(c: char): int {
    if IsDigit(c) then c as int - '0' as int else c as int - 'A' as int + 10
  }

  /** A number with one more character behind it. */
  function Scaled(n: int, c: char): int {
    if IsDigit(c) then n * 10 else n * 100
  }

  /** The number that the characters spell when each letter is written as two digits. */
  function Numeral(u: string): int {
    if u == "" then 0 else Scaled(Numeral(u[..|u| - 1]), u[|u| - 1]) + Value(u[|u| - 1])
  }

  function Rearranged(iban: string): string
    requires |iban| >= 4
  {
    iban[4..] + iban[..4]
  }

  predicate Passes(u: string) {
    Plain(u) && Numeral(u) % 97 == 1
  }

  predicate IbanValid(iban: string) {
    |iban| >= 5 && Passes(UpperText(Rearranged(iban)))
  }

  /** The characters with each letter written out as its number: A is 10, B is 11, and so on to Z, which is 35. */
  function WrittenOut(u: string): string {
    if u == "" then ""
    else
      var c := u[|u| - 1];
      WrittenOut(u[..|u| - 1]) + if 'A' <= c <= 'Z' then Written(10 + (c as int - 'A' as int)) else [c]
  }

  lemma WrittenLetter(s: string, n: int)
    requires 10 <= n <= 35
    ensures s + Written(n) == s + [DigitChar(n / 10)] + [DigitChar(n % 10)]
  {
    assert Written(n) == [DigitChar(n / 10)] + [DigitChar(n % 10)];
  }

  /** One more character: a digit, or the two digits of a letter. */
  lemma WrittenOutSnoc(u: string, c: char)
    requires IsDigit(c) || IsLetter(c)
    ensures IsDigit(c) ==> WrittenOut(u + [c]) == WrittenOut(u) + [c]
    ensures IsLetter(c) ==>
      var n := c as int - 'A' as int + 10;
      WrittenOut(u + [c]) == WrittenOut(u) + [DigitChar(n / 10)] + [DigitChar(n % 10)]
  {
    assert (u + [c])[..|u|] == u;
    if IsLetter(c) {
      WrittenLetter(WrittenOut(u), c as int - 'A' as int + 10);
    }
  }

  lemma {:induction false} NumeralIsWrittenOut(u: string)
    requires Plain(u)
    ensures AllDigits(WrittenOut(u)) && Spelled(WrittenOut(u)) == Numeral(u)
  {
    if u != "" {
      var front, c := u[..|u| - 1], u[|u| - 1];
      NumeralIsWrittenOut(front);
      assert u == front + [c];
      WrittenOutSnoc(front, c);
      if IsLetter(c) {
        LetterIsTwoDigits(WrittenOut(front), c as int - 'A' as int + 10);
      } else {
        SpelledSnoc(WrittenOut(front), c);
      }
    }
  }

  lemma LetterInDigits(c: char)
    requires 'A' <= c <= 'Z'
    ensures Spelled(WrittenOut([c])) == 10 + (c as int - 'A' as int)
  {
    NumeralIsWrittenOut([c]);
    assert [c][..0] == "";
  }

  /** Digits stay, and letters become two, from A to Z. */
  lemma LettersInDigits()
    ensures WrittenOut("7") == "7" && WrittenOut("A") == "10" && WrittenOut("Z") == "35"
    ensures forall c :: 'A' <= c <= 'Z' ==> Spelled(WrittenOut([c])) == 10 + (c as int - 'A' as int)
  {
    assert "7"[..0] == "" && "A"[..0] == "" && "Z"[..0] == "";
    WrittenLetter("", 10);
    WrittenLetter("", 35);
    forall c | 'A' <= c <= 'Z'
      ensures Spelled(WrittenOut([c])) == 10 + (c as int - 'A' as int)
    {
      LetterInDigits(c);
    }
  }

  /** A text is accepted exactly if it has five bytes at least, and with the first four moved to the end and everything in
      upper case it consists of digits and letters, which written out as digits spell a number that leaves 1
      when divided by 97. */
  lemma {:induction false} IbanExactly(iban: string)
    requires |iban| >= 5
    ensures var u := UpperText(iban[4..] + iban[..4]);
      IbanValid(iban) <==>
        (forall i :: 0 <= i < |u| ==> '0' <= u[i] <= '9' || 'A' <= u[i] <= 'Z') && Spelled(WrittenOut(u)) % 97 == 1
  {
    var u := UpperText(iban[4..] + iban[..4]);
    if Plain(u) {
      NumeralIsWrittenOut(u);
    }
  }

  /** Upper case, character by character: the 26 letters, both letters beyond ASCII, and nothing else. */
  lemma UpperExactly(c: char, k: nat)
    requires k < 26
    ensures Upper(['a', 'b', 'c', 'd', 'e', 'f', 'g', 'h', 'i', 'j', 'k', 'l', 'm',
                   'n', 'o', 'p', 'q', 'r', 's', 't', 'u', 'v', 'w', 'x', 'y', 'z'][k])
                == ['A', 'B', 'C', 'D', 'E', 'F', 'G', 'H', 'I', 'J', 'K', 'L', 'M',
                    'N', 'O', 'P', 'Q', 'R', 'S', 'T', 'U', 'V', 'W', 'X', 'Y', 'Z'][k]
    ensures UpperText("\U{C4}\U{B1}") == "I" && UpperText("\U{C5}\U{BF}") == "S"
    ensures !('a' <= c <= 'z') ==> UpperText([c]) == [c]
  {
    assert "\U{C4}\U{B1}"[2..] == "" && "\U{C5}\U{BF}"[2..] == "";
    assert [c][1..] == "" && [Upper(c)] + "" == [Upper(c)];
  }

  // ----- the loops compute this number -----

  lemma LetterIsTwoDigits(s: string, n: int)
    requires 10 <= n <= 35
    ensures IsDigit(DigitChar(n / 10)) && IsDigit(DigitChar(n % 10))
    ensures Spelled(s + [DigitChar(n / 10)] + [DigitChar(n % 10)]) == Spelled(s) * 100 + n
  {
    SpelledDigit(s, n / 10);
    SpelledDigit(s + [DigitChar(n / 10)], n % 10);
  }

  lemma RemainderStep(x: int, d: int)
    ensures ((x % 97) * 10 + d) % 97 == (x * 10 + d) % 97
  {
    var q := x / 97;
    assert x == 97 * q + x % 97;
    assert x * 10 + d == 97 * (10 * q) + ((x % 97) * 10 + d);
    MultipleDropsOut(10 * q, (x % 97) * 10 + d);
  }

  lemma MultipleDropsOut(q: int, r: int)
    ensures (97 * q + r) % 97 == r % 97
  {
  }

  lemma PrefixSnoc(u: string, i: nat)
    requires i < |u|
    ensures u[..i + 1] == u[..i] + [u[i]]
  {
  }

  lemma SpelledPrefix(s: string, i: nat)
    requires i < |s|
    ensures Spelled(s[..i + 1]) % 97 == ((Spelled(s[..i]) % 97) * 10 + (s[i] as int - '0' as int)) % 97
  {
    PrefixSnoc(s, i);
    SpelledSnoc(s[..i], s[i]);
    RemainderStep(Spelled(s[..i]), s[i] as int - '0' as int);
  }

  lemma WrittenOutPrefix(u: string, i: nat)
    requires i < |u| && (IsDigit(u[i]) || IsLetter(u[i]))
    ensures IsDigit(u[i]) ==> WrittenOut(u[..i + 1]) == WrittenOut(u[..i]) + [u[i]]
    ensures IsLetter(u[i]) ==>
      var n := u[i] as int - 'A' as int + 10;
      WrittenOut(u[..i + 1]) == WrittenOut(u[..i]) + [DigitChar(n / 10)] + [DigitChar(n % 10)]
  {
    PrefixSnoc(u, i);
    WrittenOutSnoc(u[..i], u[i]);
  }

  /** The digits with letters written out, or nothing if another character occurs. */
  method Expand(u: string) returns (ok: bool, numeric: string)
    ensures ok <==> Plain(u)
    ensures ok ==> numeric == WrittenOut(u)
  {
    ok, numeric := true, "";
    for i := 0 to |u|
      invariant forall k :: 0 <= k < i ==> IsDigit(u[k]) || IsLetter(u[k])
      invariant numeric == WrittenOut(u[..i])
    {
      var r := u[i];
      if '0' <= r <= '9' {
        WrittenOutPrefix(u, i);
        numeric := numeric + [r];
      } else if 'A' <= r <= 'Z' {
        var n := r as int - 'A' as int + 10;
        WrittenOutPrefix(u, i);
        numeric := numeric + [DigitChar(n / 10)];
        numeric := numeric + [DigitChar(n % 10)];
      } else {
        return false, "";
      }
    }
    assert u[..|u|] == u;
  }

  lemma RemainderDecides(iban: string, u: string, s: string, rem: int)
    requires |iban| >= 5 && u == UpperText(Rearranged(iban)) && Plain(u) && s == WrittenOut(u) && rem == Spelled(s) % 97
    ensures rem == 1 <==> IbanValid(iban)
  {
    NumeralIsWrittenOut(u);
  }

  method IbanCheckDigit(iban: string) returns (ok: bool)
    ensures ok <==> IbanValid(iban)
  {
    if |iban| < 5 {
      return false;
    }
    var rearranged := iban[4..] + iban[..4];
    var fine, s := Expand(UpperText(rearranged));
    if !fine {
      return false;
    }
    var rem := 0;
    for i := 0 to |s|
      invariant rem == Spelled(s[..i]) % 97
    {
      SpelledPrefix(s, i);
      rem := (rem * 10 + (s[i] as int - '0' as int)) % 97;
    }
    assert s[..|s|] == s;
    RemainderDecides(iban, UpperText(rearranged), s, rem);
    ok := rem == 1;
  }

  // ----- upper case, piece by piece -----

  lemma Associate(a: string, b: string, c: string)
    ensures (a + b) + c == a + (b + c)
  {
  }

  lemma {:induction false} UpperConcat(s: string, t: string)
    requires t == "" || IsAscii(t[0])
    ensures UpperText(s + t) == UpperText(s) + UpperText(t)
  {
    if s == "" {
      assert s + t == t;
    } else if StartsWithDotlessI(s) {
      assert (s + t)[2..] == s[2..] + t;
      UpperConcat(s[2..], t);
      Associate("I", UpperText(s[2..]), UpperText(t));
    } else if StartsWithLongS(s) {
      assert (s + t)[2..] == s[2..] + t;
      UpperConcat(s[2..], t);
      Associate("S", UpperText(s[2..]), UpperText(t));
    } else {
      assert (s + t)[1..] == s[1..] + t;
      UpperConcat(s[1..], t);
      Associate([Upper(s[0])], UpperText(s[1..]), UpperText(t));
    }
  }

  /** How many characters stand before the one at `j`. */
  function Place(s: string, j: nat): nat
    requires j <= |s|
  {
    |UpperText(s[..j])|
  }

  lemma UpperHead(c: char, rest: string)
    requires IsAscii(c)
    ensures UpperText([c] + rest) == [Upper(c)] + UpperText(rest)
  {
    assert ([c] + rest)[1..] == rest;
  }

  lemma AroundPlace(s: string, j: nat)
    requires j < |s|
    ensures s == s[..j] + ([s[j]] + s[j + 1..]) && s[..j + 1] == s[..j] + ([s[j]] + "")
  {
  }

  /** An ASCII character keeps its place, whatever stands around it. */
  lemma UpperAt(s: string, j: nat)
    requires j < |s| && IsAscii(s[j])
    ensures UpperText(s) == UpperText(s[..j]) + ([Upper(s[j])] + UpperText(s[j + 1..]))
    ensures UpperText(s[..j + 1]) == UpperText(s[..j]) + ([Upper(s[j])] + "")
  {
    AroundPlace(s, j);
    UpperConcat(s[..j], [s[j]] + s[j + 1..]);
    UpperHead(s[j], s[j + 1..]);
    UpperConcat(s[..j], [s[j]] + "");
    UpperHead(s[j], "");
  }

  lemma UpdateMiddle(a: string, b: char, c: string, d: char)
    ensures (a + ([b] + c))[|a|] == b
    ensures (a + ([b] + c))[|a| := d] == a + ([d] + c)
  {
  }

  lemma UpperUpdate(s: string, j: nat, c: char)
    requires j < |s| && IsAscii(s[j]) && IsAscii(c)
    ensures Place(s, j) < |UpperText(s)| && UpperText(s)[Place(s, j)] == Upper(s[j])
    ensures UpperText(s[j := c]) == UpperText(s)[Place(s, j) := Upper(c)]
  {
    UpperAt(s, j);
    UpperAt(s[j := c], j);
    assert s[j := c][..j] == s[..j] && s[j := c][j + 1..] == s[j + 1..];
    UpdateMiddle(UpperText(s[..j]), Upper(s[j]), UpperText(s[j + 1..]), Upper(c));
  }

  // ----- exactly one pair of check digits -----

  lemma NumeralSnoc(u: string, c: char)
    ensures Numeral(u + [c]) == Scaled(Numeral(u), c) + Value(c)
  {
    assert (u + [c])[..|u|] == u;
  }

  function Pair(c: int): string
    requires 0 <= c <= 99
  {
    [DigitChar(c / 10), DigitChar(c % 10)]
  }

  lemma UpperOfPair(s: string, c: int)
    requires 0 <= c <= 99
    ensures UpperText(s + Pair(c)) == UpperText(s) + [DigitChar(c / 10)] + [DigitChar(c % 10)]
  {
    var a, b := DigitChar(c / 10), DigitChar(c % 10);
    UpperConcat(s, [a, b]);
    assert [a, b][1..] == [b] && [b][1..] == "";
    assert UpperText([b]) == [b] + "" && UpperText([a, b]) == [a] + UpperText([b]);
  }

  lemma PlainSnoc(u: string, c: char)
    requires IsDigit(c)
    ensures Plain(u + [c]) <==> Plain(u)
  {
    assert Plain(u + [c]) ==> forall i :: 0 <= i < |u| ==> (u + [c])[i] == u[i];
  }

  /** For a country and an account number exactly one check value from 02 to 98 is accepted. The values 00, 01
      and 99 are accepted too, where that one is 97, 98 and 02. */
  lemma {:induction false} OneCheckPair(country: string, bban: string, c: int)
    requires |country| == 2 && bban != "" && 0 <= c <= 99
    ensures var u := UpperText(bban + country);
      && (IbanValid(country + Pair(c) + bban) <==> Plain(u) && (c - (98 - Numeral(u) * 100 % 97)) % 97 == 0)
      && (2 <= c <= 98 ==> (IbanValid(country + Pair(c) + bban) <==> Plain(u) && c == 98 - Numeral(u) * 100 % 97))
  {
    var iban, u := country + Pair(c) + bban, UpperText(bban + country);
    assert iban[4..] == bban && iban[..4] == country + Pair(c);
    assert Rearranged(iban) == (bban + country) + Pair(c);
    UpperOfPair(bban + country, c);
    PairPasses(u, c);
    CheckValue(Numeral(u) * 100, c);
  }

  lemma PairPasses(u: string, c: int)
    requires 0 <= c <= 99
    ensures Passes(u + [DigitChar(c / 10)] + [DigitChar(c % 10)]) <==> Plain(u) && (Numeral(u) * 100 + c) % 97 == 1
  {
    var a, b := DigitChar(c / 10), DigitChar(c % 10);
    PlainSnoc(u, a);
    PlainSnoc(u + [a], b);
    NumeralSnoc(u, a);
    NumeralSnoc(u + [a], b);
  }

  lemma CheckValue(x: int, c: int)
    requires 0 <= c <= 99
    ensures (x + c) % 97 == 1 <==> (c - (98 - x % 97)) % 97 == 0
    ensures 2 <= c <= 98 ==> ((x + c) % 97 == 1 <==> c == 98 - x % 97)
  {
    MultipleDropsOut(x / 97, x % 97 + c);
  }

  // ----- what a place weighs -----

  /** What a change by `d` at place `k` makes in the whole number. */
  function Effect(u: string, k: nat, d: int): int
    requires k < |u|
  {
    if k == |u| - 1 then d else Scaled(Effect(u[..|u| - 1], k, d), u[|u| - 1])
  }

  /** The power of ten that counts the digits behind place `k`. */
  function Weight(u: string, k: nat): int
    requires k < |u|
  {
    Effect(u, k, 1)
  }

  predicate SameKind(c: char, d: char) {
    (IsDigit(c) && IsDigit(d)) || (IsLetter(c) && IsLetter(d))
  }

  lemma {:induction false} NumeralUpdate(u: string, k: nat, c: char)
    requires k < |u| && SameKind(u[k], c)
    ensures Numeral(u[k := c]) == Numeral(u) + Effect(u, k, Value(c) - Value(u[k]))
  {
    var front := u[..|u| - 1];
    if k == |front| {
      assert u[k := c][..|u| - 1] == front;
    } else {
      assert u[k := c][..|u| - 1] == front[k := c];
      NumeralUpdate(front, k, c);
    }
  }

  lemma {:induction false} EffectUpdate(u: string, j: nat, c: char, k: nat, d: int)
    requires j < |u| && k < |u| && SameKind(u[j], c)
    ensures Effect(u[j := c], k, d) == Effect(u, k, d)
  {
    if k < |u| - 1 {
      var front := u[..|u| - 1];
      if j < |front| {
        assert u[j := c][..|u| - 1] == front[j := c];
        EffectUpdate(front, j, c, k, d);
      } else {
        assert u[j := c][..|u| - 1] == front;
      }
    }
  }

  lemma {:induction false} EffectIsProduct(u: string, k: nat, d: int)
    requires k < |u|
    ensures Effect(u, k, d) == d * Weight(u, k)
  {
    if k < |u| - 1 {
      var front := u[..|u| - 1];
      EffectIsProduct(front, k, d);
      ScaledProduct(d, Weight(front, k), u[|u| - 1]);
    }
  }

  lemma ScaledProduct(d: int, w: int, c: char)
    ensures Scaled(d * w, c) == d * Scaled(w, c)
  {
    assert (d * w) * 10 == d * (w * 10) && (d * w) * 100 == d * (w * 100);
  }

  lemma {:induction false} NeighbourWeight(u: string, k: nat)
    requires k + 1 < |u|
    ensures Weight(u, k) == Scaled(Weight(u, k + 1), u[k + 1])
  {
    var front := u[..|u| - 1];
    if k + 1 < |front| {
      NeighbourWeight(front, k);
    } else {
      assert Weight(front, k) == 1;
    }
  }

  // ----- 97 is a prime -----

  lemma TimesTen(x: int)
    requires x % 97 != 0
    ensures (x * 10) % 97 != 0
  {
    if (x * 10) % 97 == 0 {
      var q := x * 10 / 97;
      assert x * 10 == 97 * q;
      assert x == 97 * (68 * q - 7 * x);
      MultipleDropsOut(68 * q - 7 * x, 0);
    }
  }

  lemma TimesHundred(x: int)
    requires x % 97 != 0
    ensures (x * 100) % 97 != 0
  {
    TimesTen(x);
    TimesTen(x * 10);
  }

  lemma {:induction false} EffectIsUnit(u: string, k: nat, d: int)
    requires k < |u| && d % 97 != 0
    ensures Effect(u, k, d) % 97 != 0
  {
    if k < |u| - 1 {
      EffectIsUnit(u[..|u| - 1], k, d);
      TimesTen(Effect(u[..|u| - 1], k, d));
      TimesHundred(Effect(u[..|u| - 1], k, d));
    }
  }

  lemma SmallIsUnit(d: int)
    requires -97 < d < 97 && d != 0
    ensures d % 97 != 0
  {
  }

  lemma DifferentModulo97(x: int, d: int)
    requires x % 97 == 1
    ensures (x + d) % 97 == 1 <==> d % 97 == 0
  {
  }

  lemma EuclidStep(d: int, x: int, q: int, r: int)
    requires 97 == q * d + r && (d * x) % 97 == 0
    ensures (r * x) % 97 == 0
  {
    var m := d * x / 97;
    assert d * x == 97 * m;
    assert r * x == 97 * x - q * (d * x);
    assert r * x == 97 * (x - q * m);
    MultipleDropsOut(x - q * m, 0);
  }

  lemma RemainderOf97(d: int)
    requires 2 <= d <= 25
    ensures 1 <= 97 % d < d
  {
    if d <= 9 {
    } else if d <= 17 {
    } else {
    }
  }

  /** A small number times another is divisible by 97 only if the other is. */
  lemma {:induction false} SmallDropsOut(d: int, x: int)
    requires 1 <= d <= 25 && (d * x) % 97 == 0
    ensures x % 97 == 0
    decreases d
  {
    if d > 1 {
      RemainderOf97(d);
      EuclidStep(d, x, 97 / d, 97 % d);
      SmallDropsOut(97 % d, x);
    }
  }

  lemma NegatedMultiple(d: int, x: int)
    requires (d * x) % 97 == 0
    ensures (-d * x) % 97 == 0
  {
    var m := d * x / 97;
    assert -d * x == 97 * (-m);
    MultipleDropsOut(-m, 0);
  }

  lemma DifferenceDropsOut(d: int, x: int)
    requires -25 <= d <= 25 && d != 0
    ensures (d * x) % 97 == 0 <==> x % 97 == 0
  {
    if (d * x) % 97 == 0 {
      if d < 0 {
        NegatedMultiple(d, x);
        SmallDropsOut(-d, x);
      } else {
        SmallDropsOut(d, x);
      }
    }
    if x % 97 == 0 {
      assert d * x == 97 * (d * (x / 97));
      MultipleDropsOut(d * (x / 97), 0);
    }
  }

  // ----- single substitutions -----

  /** Both digits, or both ASCII letters of either case. */
  predicate SameClass(c: char, d: char) {
    IsAscii(c) && IsAscii(d) && SameKind(Upper(c), Upper(d))
  }

  lemma ValueDifference(c: char, d: char)
    requires SameKind(c, d) && c != d
    ensures -25 <= Value(d) - Value(c) <= 25 && Value(d) != Value(c)
  {
  }

  /** Where place `k` of an IBAN of length `n` stands once the first four have moved to the end. */
  function MovedTo(n: nat, k: nat): nat
    requires 4 <= n && k < n
  {
    if k < 4 then n - 4 + k else k - 4
  }

  lemma RearrangedUpdate(s: string, k: nat, c: char)
    requires |s| >= 4 && k < |s|
    ensures Rearranged(s)[MovedTo(|s|, k)] == s[k]
    ensures Rearranged(s[k := c]) == Rearranged(s)[MovedTo(|s|, k) := c]
  {
  }

  /** Replacing one digit by another, or one letter by another, is always caught. */
  lemma IbanCatchesSubstitutions(iban: string, k: nat, c: char)
    requires IbanValid(iban) && k < |iban| && SameClass(iban[k], c) && Upper(c) != Upper(iban[k])
    ensures !IbanValid(iban[k := c])
  {
    var s, j := Rearranged(iban), MovedTo(|iban|, k);
    var u, p := UpperText(s), Place(s, j);
    RearrangedUpdate(iban, k, c);
    UpperUpdate(s, j, c);
    var d := Value(Upper(c)) - Value(u[p]);
    ValueDifference(u[p], Upper(c));
    SmallIsUnit(d);
    NumeralUpdate(u, p, Upper(c));
    EffectIsUnit(u, p, d);
    DifferentModulo97(Numeral(u), Effect(u, p, d));
  }

  // ----- swaps -----

  function Swap(s: string, i: nat, j: nat): string
    requires i < |s| && j < |s|
  {
    s[i := s[j]][j := s[i]]
  }

  lemma PlaceGrows(s: string, i: nat, j: nat)
    requires i < j <= |s| && IsAscii(s[i])
    ensures Place(s, i) < Place(s, j)
  {
    UpperAt(s[..j], i);
    assert s[..j][..i] == s[..i];
  }

  lemma UpperSwap(s: string, i: nat, j: nat)
    requires i < j < |s| && IsAscii(s[i]) && IsAscii(s[j])
    ensures var u, p, q := UpperText(s), Place(s, i), Place(s, j);
      && p < q < |u| && u[p] == Upper(s[i]) && u[q] == Upper(s[j])
      && UpperText(Swap(s, i, j)) == Swap(u, p, q)
  {
    var s' := s[i := s[j]];
    UpperUpdate(s, i, s[j]);
    UpperUpdate(s, j, s[i]);
    UpperUpdate(s', j, s[i]);
    UpperUpdate(s[..j], i, s[j]);
    assert s[..j][..i] == s[..i] && s'[..j] == s[..j][i := s[j]];
    PlaceGrows(s, i, j);
  }

  lemma NumeralChange(u: string, k: nat, c: char, d: int)
    requires k < |u| && SameKind(u[k], c) && d == Value(c) - Value(u[k])
    ensures Numeral(u[k := c]) == Numeral(u) + Effect(u, k, d)
  {
    NumeralUpdate(u, k, c);
  }

  lemma NumeralSwap(u: string, v: string, p: nat, q: nat, d: int)
    requires p < q < |u| && SameKind(u[p], u[q]) && d == Value(u[q]) - Value(u[p]) && v == Swap(u, p, q)
    ensures Numeral(v) == Numeral(u) + Effect(u, p, d) + Effect(u, q, -d)
  {
    var u' := u[p := u[q]];
    NumeralChange(u, p, u[q], d);
    NumeralChange(u', q, u[p], -d);
    EffectUpdate(u, p, u[q], q, -d);
  }

  lemma EffectOfSwap(u: string, p: nat, q: nat, d: int)
    requires p < q < |u| && -25 <= d <= 25 && d != 0
    ensures (Effect(u, p, d) + Effect(u, q, -d)) % 97 == 0 <==> (Weight(u, p) - Weight(u, q)) % 97 == 0
  {
    EffectIsProduct(u, p, d);
    EffectIsProduct(u, q, -d);
    OppositeProducts(d, Weight(u, p), Weight(u, q));
    DifferenceDropsOut(d, Weight(u, p) - Weight(u, q));
  }

  lemma OppositeProducts(d: int, v: int, w: int)
    ensures d * v + -d * w == d * (v - w)
  {
  }

  lemma {:induction false} PlainSwap(u: string, p: nat, q: nat)
    requires p < q < |u|
    ensures Plain(Swap(u, p, q)) <==> Plain(u)
  {
    if Plain(Swap(u, p, q)) {
      forall i | 0 <= i < |u|
        ensures IsDigit(u[i]) || IsLetter(u[i])
      {
        assert u[i] == Swap(u, p, q)[if i == p then q else if i == q then p else i];
      }
    }
  }

  lemma SwapInNumeral(u: string, v: string, p: nat, q: nat)
    requires p < q < |u| && SameKind(u[p], u[q]) && u[p] != u[q] && v == Swap(u, p, q)
    ensures Numeral(u) % 97 == 1 ==> (Numeral(v) % 97 == 1 <==> (Weight(u, p) - Weight(u, q)) % 97 == 0)
  {
    var a, b := SwapEffects(u, v, p, q);
    SwapRemainder(Numeral(u), Numeral(v), a, b, Weight(u, p) - Weight(u, q));
  }

  lemma SwapEffects(u: string, v: string, p: nat, q: nat) returns (a: int, b: int)
    requires p < q < |u| && SameKind(u[p], u[q]) && u[p] != u[q] && v == Swap(u, p, q)
    ensures Numeral(v) == Numeral(u) + a + b
    ensures (a + b) % 97 == 0 <==> (Weight(u, p) - Weight(u, q)) % 97 == 0
  {
    var d := Value(u[q]) - Value(u[p]);
    NumeralSwap(u, v, p, q, d);
    a, b := Effect(u, p, d), Effect(u, q, -d);
    ValueDifference(u[p], u[q]);
    EffectOfSwap(u, p, q, d);
  }

  lemma SwapRemainder(n: int, n': int, a: int, b: int, x: int)
    requires n' == n + a + b && ((a + b) % 97 == 0 <==> x % 97 == 0)
    ensures n % 97 == 1 ==> (n' % 97 == 1 <==> x % 97 == 0)
  {
    if n % 97 == 1 {
      DifferentModulo97(n, a + b);
    }
  }

  lemma RearrangedSwap(s: string, j: nat, k: nat)
    requires |s| >= 4 && j < k < |s|
    ensures var i, m := MovedTo(|s|, j), MovedTo(|s|, k);
      Rearranged(Swap(s, j, k)) == Swap(Rearranged(s), if i < m then i else m, if i < m then m else i)
  {
    RearrangedUpdate(s, j, s[k]);
    RearrangedUpdate(s[j := s[k]], k, s[j]);
    RearrangedUpdate(s, k, s[j]);
  }

  lemma SwapVerdict(u: string, v: string, p: nat, q: nat)
    requires p < q < |u| && SameKind(u[p], u[q]) && u[p] != u[q] && v == Swap(u, p, q)
    ensures Passes(u) ==> (Passes(v) <==> (Weight(u, p) - Weight(u, q)) % 97 == 0)
  {
    PlainSwap(u, p, q);
    SwapInNumeral(u, v, p, q);
  }

  /** What a step at place `k` of the IBAN weighs in the rearranged number. */
  function IbanWeight(iban: string, k: nat): int
    requires |iban| >= 4 && k < |iban| && IsAscii(iban[k])
  {
    var s, j := Rearranged(iban), MovedTo(|iban|, k);
    UpperUpdate(s, j, s[j]);
    Weight(UpperText(s), Place(s, j))
  }

  /** Swapping two digits, or two letters, at any distance is missed exactly if their places weigh the same
      modulo 97. */
  lemma IbanSwapExactly(iban: string, j: nat, k: nat)
    requires IbanValid(iban) && j < k < |iban| && SameClass(iban[j], iban[k]) && Upper(iban[j]) != Upper(iban[k])
    ensures IbanValid(Swap(iban, j, k)) <==> (IbanWeight(iban, j) - IbanWeight(iban, k)) % 97 == 0
  {
    var s, i, m := Rearranged(iban), MovedTo(|iban|, j), MovedTo(|iban|, k);
    RearrangedUpdate(iban, j, iban[j]);
    RearrangedUpdate(iban, k, iban[k]);
    RearrangedSwap(iban, j, k);
    if i < m {
      UpperSwap(s, i, m);
      SwapVerdict(UpperText(s), UpperText(Swap(s, i, m)), Place(s, i), Place(s, m));
    } else {
      UpperSwap(s, m, i);
      SwapVerdict(UpperText(s), UpperText(Swap(s, m, i)), Place(s, m), Place(s, i));
      SameSignless(IbanWeight(iban, j), IbanWeight(iban, k));
    }
  }

  lemma SameSignless(v: int, w: int)
    ensures (v - w) % 97 == 0 <==> (w - v) % 97 == 0
  {
  }

  lemma NeighbourPlaces(s: string, i: nat)
    requires i + 1 < |s| && IsAscii(s[i]) && IsAscii(s[i + 1])
    ensures Place(s, i + 1) == Place(s, i) + 1 && Place(s, i) + 1 < |UpperText(s)|
    ensures UpperText(s)[Place(s, i + 1)] == Upper(s[i + 1])
  {
    UpperAt(s, i);
    UpperUpdate(s, i + 1, s[i + 1]);
  }

  /** Swapping two different neighbouring digits, or letters, is always caught, except perhaps the last check
      digit with the first character of the account number, which are no neighbours once rearranged. */
  lemma IbanCatchesNeighbourSwaps(iban: string, k: nat)
    requires IbanValid(iban) && k + 1 < |iban| && k != 3
    requires SameClass(iban[k], iban[k + 1]) && Upper(iban[k]) != Upper(iban[k + 1])
    ensures !IbanValid(Swap(iban, k, k + 1))
  {
    var s, i := Rearranged(iban), MovedTo(|iban|, k);
    var u, p := UpperText(s), Place(s, i);
    RearrangedUpdate(iban, k, iban[k]);
    RearrangedUpdate(iban, k + 1, iban[k + 1]);
    NeighbourPlaces(s, i);
    NeighbourWeightsDiffer(u, p);
    IbanSwapExactly(iban, k, k + 1);
  }

  lemma NeighbourWeightsDiffer(u: string, p: nat)
    requires p + 1 < |u|
    ensures (Weight(u, p) - Weight(u, p + 1)) % 97 != 0
  {
    var w := Weight(u, p + 1);
    NeighbourWeight(u, p);
    EffectIsUnit(u, p + 1, 1);
    NeighbourDifference(w, u[p + 1]);
  }

  lemma NeighbourDifference(w: int, c: char)
    requires w % 97 != 0
    ensures (Scaled(w, c) - w) % 97 != 0
  {
    if IsDigit(c) {
      DifferenceDropsOut(9, w);
      assert Scaled(w, c) - w == 9 * w;
    } else {
      assert Scaled(w, c) - w == 97 * w + 2 * w;
      MultipleDropsOut(w, 2 * w);
      DifferenceDropsOut(2, w);
    }
  }
}
