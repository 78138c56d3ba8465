/** The Luhn check that decides whether a long number is masked as a payment card
    (Annex B of ISO/IEC 7812-1). */
module Luhn {
  import opened Text

  type Digit = d: nat | d < 10

  /** Doubling a digit and adding the digits of the product. */
  function Doubled(d: Digit): Digit {
    if 2 * d > 9 then 2 * d - 9 else 2 * d
  }

  /** What the digit at distance `i` from the right contributes. */
  function Weighted(i: nat, d: Digit): Digit {
    if i % 2 == 1 then Doubled(d) else d
  }

  /** The checksum: the rightmost digit is at distance 0. */
  function Checksum(digits: seq<Digit>): nat {
    ChecksumFrom(digits, 0)
  }

  /** The sum of contributions when `i` digits stand to the right of `digits`. */
  function ChecksumFrom(digits: seq<Digit>, i: nat): nat {
    if digits == [] then 0
    else Weighted(i, digits[|digits| - 1]) + ChecksumFrom(digits[..|digits| - 1], i + 1)
  }

  predicate Checks(digits: seq<Digit>) {
    Checksum(digits) % 10 == 0
  }

  /** The digits of a string, everything else dropped. */
  function DigitsOf(s: string): seq<Digit> {
    if s == "" then [] else DigitIn(s[0]) + DigitsOf(s[1..])
  }

  function DigitIn(c: char): seq<Digit> {
    if IsDigit(c) then [DigitValue(c) as Digit] else []
  }

  /** `_luhn_valid`. */
  method LuhnValid(number: string) returns (valid: bool)
    ensures valid <==> 13 <= |DigitsOf(number)| <= 19 && Checks(DigitsOf(number))
  {
    var digits := DigitsOf(number);
    if !(13 <= |digits| <= 19) {
      return false;
    }
    var checksum := 0;
    assert digits[..|digits|] == digits;
    for i := 0 to |digits|
      invariant checksum + ChecksumFrom(digits[..|digits| - i], i) == Checksum(digits)
    {
      ghost var rest := digits[..|digits| - i];
      assert rest[..|rest| - 1] == digits[..|digits| - (i + 1)];
      var digit: nat := digits[|digits| - 1 - i];
      if i % 2 == 1 {
        digit := digit * 2;
        if digit > 9 {
          digit := digit - 9;
        }
      }
      checksum := checksum + digit;
    }
    return checksum % 10 == 0;
  }

  // ------------------------------------------------------------ splitting the sum

  lemma {:induction false} ChecksumSplit(a: seq<Digit>, b: seq<Digit>, i: nat)
    ensures ChecksumFrom(a + b, i) == ChecksumFrom(a, i + |b|) + ChecksumFrom(b, i)
  {
    if b == [] {
      assert a + b == a;
    } else {
      var init := b[..|b| - 1];
      assert (a + b)[..|a + b| - 1] == a + init;
      ChecksumSplit(a, init, i + 1);
    }
  }

  lemma ChecksumOne(d: Digit, i: nat)
    ensures ChecksumFrom([d], i) == Weighted(i, d)
  {
    assert [d][..0] == [];
  }

  lemma {:induction false} ChecksumAround(a: seq<Digit>, d: Digit, b: seq<Digit>)
    ensures Checksum(a + [d] + b) == ChecksumFrom(a, |b| + 1) + Weighted(|b|, d) + Checksum(b)
  {
    hide ChecksumFrom, Weighted;
    ChecksumSplit(a + [d], b, 0);
    ChecksumSplit(a, [d], |b|);
    ChecksumOne(d, |b|);
  }

  // ------------------------------------------------------------ what it detects

  /** Every single-digit change of a valid number is detected, at any length. */
  lemma SingleErrorDetected(a: seq<Digit>, d: Digit, e: Digit, b: seq<Digit>)
    requires Checks(a + [d] + b) && d != e
    ensures !Checks(a + [e] + b)
  {
    hide ChecksumFrom, Checksum;
    ChecksumAround(a, d, b);
    ChecksumAround(a, e, b);
  }

  /** Swapping two neighbours goes unnoticed exactly for equal digits and for 09 / 90. */
  lemma TranspositionDetected(a: seq<Digit>, d: Digit, e: Digit, b: seq<Digit>)
    requires Checks(a + [d, e] + b)
    ensures Checks(a + [e, d] + b) <==> d == e || (d == 0 && e == 9) || (d == 9 && e == 0)
  {
    hide ChecksumFrom, Checksum, Weighted;
    TwoAround(a, d, e, b);
    TwoAround(a, e, d, b);
    SwapChangesSum(|b|, d, e);
  }

  /** The two contributions of a pair and of the swapped pair differ by less than ten. */
  lemma SwapChangesSum(i: nat, d: Digit, e: Digit)
    ensures var change := Weighted(i + 1, d) + Weighted(i, e) - Weighted(i + 1, e) - Weighted(i, d);
            && -10 < change < 10
            && (change == 0 <==> d == e || (d == 0 && e == 9) || (d == 9 && e == 0))
  {
    assert Weighted(i, d) - d == 0 || Weighted(i + 1, d) - d == 0;
  }

  lemma {:induction false} TwoAround(a: seq<Digit>, d: Digit, e: Digit, b: seq<Digit>)
    ensures Checksum(a + [d, e] + b)
         == ChecksumFrom(a, |b| + 2) + Weighted(|b| + 1, d) + Weighted(|b|, e) + Checksum(b)
  {
    hide ChecksumFrom, Weighted, Checksum;
    ChecksumAround(a + [d], e, b);
    assert a + [d] + [e] + b == a + [d, e] + b;
    ChecksumSplit(a, [d], |b| + 1);
    ChecksumOne(d, |b| + 1);
  }

  function CheckDigit(payload: seq<Digit>): Digit {
    (10 - ChecksumFrom(payload, 1) % 10) % 10
  }

  /** Each payload has exactly one valid check digit. */
  lemma CheckDigitUnique(payload: seq<Digit>, d: Digit)
    ensures Checks(payload + [d]) <==> d == CheckDigit(payload)
  {
    assert Checksum([]) == 0;
    hide ChecksumFrom;
    ChecksumAround(payload, d, []);
    assert payload + [d] + [] == payload + [d];
    OnlyOneComplement(ChecksumFrom(payload, 1), d);
  }

  lemma OnlyOneComplement(sum: nat, d: Digit)
    ensures (sum + d) % 10 == 0 <==> d == (10 - sum % 10) % 10
  {
  }

  // ------------------------------------------------------------ separators

  lemma {:induction false} DigitsOfConcat(s: string, t: string)
    ensures DigitsOf(s + t) == DigitsOf(s) + DigitsOf(t)
  {
    if s == "" {
      assert s + t == t;
    } else {
      hide DigitIn, DigitsOf;
      assert (s + t)[1..] == s[1..] + t && (s + t)[0] == s[0];
      DigitsOfHead(s);
      DigitsOfHead(s + t);
      DigitsOfConcat(s[1..], t);
    }
  }

  lemma DigitsOfHead(s: string)
    requires s != ""
    ensures DigitsOf(s) == DigitIn(s[0]) + DigitsOf(s[1..])
  {
  }

  /** A separator inserted anywhere never affects the verdict. */
  lemma SeparatorIrrelevant(s: string, c: char, t: string)
    requires !IsDigit(c)
    ensures DigitsOf(s + [c] + t) == DigitsOf(s + t)
  {
    hide DigitsOf, DigitIn, IsDigit;
    DigitsOfConcat(s, [c] + t);
    DigitsOfConcat(s, t);
    DigitsOfHead([c] + t);
    NoDigitIn(c);
    assert s + [c] + t == s + ([c] + t) && ([c] + t)[1..] == t;
  }

  lemma NoDigitIn(c: char)
    requires !IsDigit(c)
    ensures DigitIn(c) == []
  {
  }

  // ------------------------------------------------------------ the digits and their weights

  /** Each digit character yields its value, in order. */
  lemma {:induction false} DigitsExact(s: string)
    requires AllDigits(s)
    ensures |DigitsOf(s)| == |s|
    ensures forall i :: 0 <= i < |s| ==> DigitsOf(s)[i] == s[i] as int - '0' as int
  {
    if s != "" {
      DigitsExact(s[1..]);
    }
  }

  /** Nothing but digits is taken, in order. */
  lemma DigitsLaws(c: char, s: string)
    ensures DigitsOf("") == []
    ensures DigitsOf([c] + s) == (if '0' <= c <= '9' then [c as int - '0' as int] else []) + DigitsOf(s)
  {
    assert ([c] + s)[1..] == s;
  }

  /** From the right, every second digit is doubled and the digits of the product are added. */
  lemma ChecksumLaws(a: seq<Digit>, x: Digit, y: Digit)
    ensures Checksum([]) == 0 && Checksum([y]) == y
    ensures Checksum(a + [x, y]) == Checksum(a) + 2 * x / 10 + 2 * x % 10 + y
  {
    hide Doubled;
    ChecksumOne(y, 0);
    DoubledIsDigitSum(x);
    var s, t := a + [x, y], a + [x];
    assert s[|s| - 1] == y && s[..|s| - 1] == t && t[|t| - 1] == x && t[..|t| - 1] == a;
    assert ChecksumFrom(t, 1) == Doubled(x) + ChecksumFrom(a, 2);
    ChecksumShift(a, 2);
  }

  lemma DoubledIsDigitSum(x: Digit)
    ensures Doubled(x) == 2 * x / 10 + 2 * x % 10
  {
  }

  /** An even distance changes no weight. */
  lemma {:induction false} ChecksumShift(a: seq<Digit>, i: nat)
    requires i % 2 == 0
    ensures ChecksumFrom(a, i) == Checksum(a)
  {
    ChecksumEven(a, i, 0);
  }

  lemma {:induction false} ChecksumEven(a: seq<Digit>, i: nat, j: nat)
    requires i % 2 == j % 2
    ensures ChecksumFrom(a, i) == ChecksumFrom(a, j)
  {
    if a != [] {
      ChecksumEven(a[..|a| - 1], i + 1, j + 1);
    }
  }
}
