/** Numbers as text: the digits that `printnum` emits and the value that `strtol` gives
    to a run of digits. */
module Numerals {
  import opened Arithmetic
  import opened CStrings

  const DIGITS := "0123456789abcdef"

  /** The digits of n, most significant first, without leading zeros. */
  function Digits(n: nat, base: nat): (s: string)
    requires 2 <= base <= 16
    ensures |s| >= 1
  {
    if n < base then [DIGITS[n]]
    else
      QuotientIsLess(n, base);
      Recompose(n, base);
      Digits(n / base, base) + [DIGITS[n % base]]
  }

  /** The digit that c stands for in bases up to 36, or -1. */
  function DigitValue(c: char): int {
    if '0' <= c <= '9' then c as int - '0' as int
    else if 'a' <= c <= 'z' then c as int - 'a' as int + 10
    else if 'A' <= c <= 'Z' then c as int - 'A' as int + 10
    else -1
  }

  predicate IsDigit(c: char, base: int) {
    0 <= DigitValue(c) < base
  }

  ghost predicate AllDigits(s: string, base: int) {
    forall i | 0 <= i < |s| :: IsDigit(s[i], base)
  }

  /** Positional value. */
  function Value(s: string, base: int): int {
    if s == [] then 0 else Value(s[..|s| - 1], base) * base + DigitValue(s[|s| - 1])
  }

  const LOWER := "0123456789abcdefghijklmnopqrstuvwxyz"
  const UPPER := "0123456789ABCDEFGHIJKLMNOPQRSTUVWXYZ"

  /** The digits are the characters of two alphabets, and stand for their places there. */
  lemma DigitAlphabets(c: char, d: nat)
    requires d < 36
    ensures DigitValue(c) == d <==> c == LOWER[d] || c == UPPER[d]
    ensures IsDigit(c, 36) <==> c in LOWER || c in UPPER
  {
    forall i: nat | i < 36 ensures IsPlace(LOWER, UPPER, i) {
      AlphabetAt(i);
    }
    InAlphabets(c, LOWER, UPPER);
    assert IsPlace(LOWER, UPPER, d);
  }

  ghost predicate IsPlace(lower: string, upper: string, d: nat) {
    && d < |lower| && d < |upper|
    && lower[d] as int == (if d < 10 then '0' as int + d else 'a' as int + (d - 10))
    && upper[d] as int == (if d < 10 then '0' as int + d else 'A' as int + (d - 10))
  }

  lemma InAlphabets(c: char, lower: string, upper: string)
    requires |lower| == |upper| == 36 && forall i: nat | i < 36 :: IsPlace(lower, upper, i)
    ensures IsDigit(c, 36) <==> c in lower || c in upper
    ensures forall d: nat | d < 36 :: DigitValue(c) == d <==> c == lower[d] || c == upper[d]
  {
    forall i: nat | i < 36 && (c == lower[i] || c == upper[i]) ensures DigitValue(c) == i {
      assert IsPlace(lower, upper, i);
    }
    if IsDigit(c, 36) {
      assert IsPlace(lower, upper, DigitValue(c));
    }
  }

  lemma AlphabetAt(d: nat)
    requires d < 36
    ensures IsPlace(LOWER, UPPER, d)
  {
  }

  lemma DigitOf(d: nat, base: nat)
    requires d < base <= 16
    ensures DigitValue(DIGITS[d]) == d && IsDigit(DIGITS[d], base)
    ensures DIGITS[d] != 'x' && (DIGITS[d] == '0' <==> d == 0)
  {
  }

  lemma DecimalDigit(c: char)
    requires '0' <= c <= '9'
    ensures 0 <= DigitValue(c) < 10 && DIGITS[DigitValue(c)] == c
  {
  }

  lemma ValueConcat(s: string, c: char, base: int)
    ensures Value(s + [c], base) == Value(s, base) * base + DigitValue(c)
  {
    assert (s + [c])[..|s|] == s;
  }

  /** The digits denote the number. */
  lemma {:induction false} DigitsValue(n: nat, base: nat)
    requires 2 <= base <= 16
    ensures Value(Digits(n, base), base) == n
  {
    if n < base {
      DigitOf(n, base);
      ValueConcat([], DIGITS[n], base);
      assert [] + [DIGITS[n]] == [DIGITS[n]];
    } else {
      QuotientIsLess(n, base);
      Recompose(n, base);
      DigitsValue(n / base, base);
      DigitOf(n % base, base);
      ValueConcat(Digits(n / base, base), DIGITS[n % base], base);
    }
  }

  /** They are digits of the base, with no needless leading zero. */
  lemma {:induction false} DigitsShape(n: nat, base: nat)
    requires 2 <= base <= 16
    ensures AllDigits(Digits(n, base), base) && 'x' !in Digits(n, base)
    ensures forall c | c in Digits(n, base) :: '0' <= c <= '9' || 'a' <= c <= 'f'
    ensures Digits(n, base)[0] == '0' ==> n == 0
    ensures n == 0 ==> |Digits(n, base)| == 1
  {
    if n < base {
      DigitOf(n, base);
    } else {
      QuotientIsLess(n, base);
      Recompose(n, base);
      DigitsShape(n / base, base);
      DigitOf(n % base, base);
    }
  }

  lemma {:induction false} LeadingZeros(k: int, s: string, base: int)
    ensures Value(Repeat('0', k) + s, base) == Value(s, base)
  {
    if s != [] {
      LeadingZeros(k, s[..|s| - 1], base);
      var t := Repeat('0', k) + s;
      assert t[..|t| - 1] == Repeat('0', k) + s[..|s| - 1];
    } else {
      assert Repeat('0', k) + [] == Repeat('0', k);
      ZerosValue(k, base);
    }
  }

  lemma {:induction false} ZerosValue(k: int, base: int)
    ensures Value(Repeat('0', k), base) == 0
  {
    if k <= 0 {
    } else {
      var s := Repeat('0', k);
      assert s[..|s| - 1] == Repeat('0', k - 1);
      ZerosValue(k - 1, base);
    }
  }

  lemma ValueStep(s: string, base: int, i: nat)
    requires i < |s|
    ensures Value(s[..i + 1], base) == Value(s[..i], base) * base + DigitValue(s[i])
  {
    assert s[..i + 1] == s[..i] + [s[i]];
    ValueConcat(s[..i], s[i], base);
  }

  lemma Grows(v: int, base: int, d: int)
    requires v >= 0 && base >= 1 && d >= 0
    ensures v <= v * base + d
  {
  }

  lemma {:induction false} ValueNonNegative(s: string, base: int, i: nat)
    requires base >= 1 && AllDigits(s, base) && i <= |s|
    ensures Value(s[..i], base) >= 0
  {
    if i == 0 {
    } else {
      ValueNonNegative(s, base, i - 1);
      ValueStep(s, base, i - 1);
      assert IsDigit(s[i - 1], base);
      Grows(Value(s[..i - 1], base), base, DigitValue(s[i - 1]));
    }
  }

  /** While a run of digits is accumulated, no partial value exceeds the final one: if that
      fits in a long, nothing has overflowed on the way. */
  lemma {:induction false} PartialValues(s: string, base: int, i: nat)
    requires base >= 1 && AllDigits(s, base) && i <= |s|
    ensures 0 <= Value(s[..i], base) <= Value(s, base)
    decreases |s| - i
  {
    ValueNonNegative(s, base, i);
    if i == |s| {
      assert s[..i] == s;
    } else {
      PartialValues(s, base, i + 1);
      ValueStep(s, base, i);
      assert IsDigit(s[i], base);
      Grows(Value(s[..i], base), base, DigitValue(s[i]));
    }
  }

  lemma OneDigit(c: char)
    requires '0' < c <= '9'
    ensures Value([], 10) == 0 && DigitValue(c) >= 1 && Digits(DigitValue(c), 10) == [c]
  {
    DecimalDigit(c);
  }

  lemma AppendDigit(v: nat, d: nat)
    requires v >= 1 && d < 10
    ensures Digits(v * 10 + d, 10) == Digits(v, 10) + [DIGITS[d]]
  {
    DivModUnique(v * 10 + d, v, d, 10);
  }

  /** A run of decimal digits that does not start with 0. */
  ghost predicate Canonical(s: string) {
    |s| >= 1 && s[0] != '0' && forall i | 0 <= i < |s| :: '0' <= s[i] <= '9'
  }

  lemma {:induction false} CanonicalStep(init: string, last: char)
    requires Value(init, 10) >= 1 && Digits(Value(init, 10), 10) == init && '0' <= last <= '9'
    ensures Value(init + [last], 10) >= 1 && Digits(Value(init + [last], 10), 10) == init + [last]
  {
    DecimalDigit(last);
    ValueConcat(init, last, 10);
    AppendDigit(Value(init, 10), DigitValue(last));
  }

  /** Such a run is what its value prints as. */
  lemma {:induction false} DecimalCanonical(s: string)
    requires Canonical(s)
    ensures Value(s, 10) >= 1 && Digits(Value(s, 10), 10) == s
  {
    var init, last := s[..|s| - 1], s[|s| - 1];
    assert s == init + [last];
    if |s| == 1 {
      OneDigit(last);
      ValueConcat([], last, 10);
      assert [] + [last] == s;
    } else {
      DecimalCanonical(init);
      CanonicalStep(init, last);
    }
  }
}
