/** `strtol`. */
module StrTol {
  import opened CStrings
  import opened Numerals

  const LONG_MAX := 0x7fff_ffff_ffff_ffff

  type long = x: int | -LONG_MAX - 1 <= x <= LONG_MAX

  /** What stands before the digits: whether it negates, the base it leaves in force, and
      where the digits start. */
  datatype Lead = Lead(neg: bool, base: int, start: nat)

  /** What strtol returns and the `endptr` it sets.  Overflow is a digit run on which the
      accumulation in a long leaves the range of long: C does not define the rest. */
  datatype Parsed = Parsed(value: long, end: nat) | Overflow

  predicate Blank(c: char) { c == ' ' || c == '\t' }

  function SkipBlanks(m: CString, i: nat): (k: nat)
    requires i < |m|
    ensures i <= k < |m| && !Blank(m[k]) && forall j | i <= j < k :: Blank(m[j])
    decreases |m| - i
  {
    if Blank(m[i]) then SkipBlanks(m, i + 1) else i
  }

  /** Blanks, then at most one sign, then the prefix that the base admits.  Only lowercase
      0x is one, and it is taken even if no hexadecimal digit follows. */
  function LeadOf(m: CString, base: int): (l: Lead)
    ensures l.start < |m|
  {
    var i := SkipBlanks(m, 0);
    var neg := m[i] == '-';
    var k := if m[i] == '+' || neg then i + 1 else i;
    if (base == 0 || base == 16) && m[k] == '0' && m[k + 1] == 'x' then Lead(neg, 16, k + 2)
    else if base == 0 && m[k] == '0' then Lead(neg, 8, k + 1)
    else if base == 0 then Lead(neg, 10, k)
    else Lead(neg, base, k)
  }

  function DigitsEnd(m: CString, i: nat, base: int): (e: nat)
    requires i < |m|
    ensures i <= e < |m|
    decreases |m| - i
  {
    if IsDigit(m[i], base) then DigitsEnd(m, i + 1, base) else i
  }

  function Signed(neg: bool, n: int): int {
    if neg then -n else n
  }

  /** The outcome for a lead and a run of digits that ends at e. */
  function ReadAs(m: CString, l: Lead, e: nat): Parsed
    requires l.start <= e < |m| && AllDigits(m[l.start..e], l.base)
  {
    RunValue(m[l.start..e], l.base);
    var v := Value(m[l.start..e], l.base);
    if v > LONG_MAX then Overflow else Parsed(Signed(l.neg, v), e)
  }

  function Result(m: CString, base: int): Parsed {
    var l := LeadOf(m, base);
    DigitsEndRun(m, l.start, l.base);
    ReadAs(m, l, DigitsEnd(m, l.start, l.base))
  }

  lemma RunValue(run: string, base: int)
    requires AllDigits(run, base)
    ensures Value(run, base) >= 0
  {
    if run == [] {
    } else {
      assert IsDigit(run[0], base);
      PartialValues(run, base, 0);
    }
  }

  /** strtol, with `endptr` as an index into s. */
  method StrToL(s: CString, base: int) returns (r: Parsed)
    ensures r == Result(s, base)
  {
    var i, neg, b := 0, false, base;
    while s[i] == ' ' || s[i] == '\t'
      invariant i < |s| && SkipBlanks(s, i) == SkipBlanks(s, 0)
      decreases |s| - i
    {
      i := i + 1;
    }
    if s[i] == '+' {
      i := i + 1;
    } else if s[i] == '-' {
      i, neg := i + 1, true;
    }
    if (b == 0 || b == 16) && s[i] == '0' && s[i + 1] == 'x' {
      i, b := i + 2, 16;
    } else if b == 0 && s[i] == '0' {
      i, b := i + 1, 8;
    } else if b == 0 {
      b := 10;
    }
    assert LeadOf(s, base) == Lead(neg, b, i);
    var val, end, inLong := Accumulate(s, i, b);
    ReadingOf(s, base, Lead(neg, b, i), end);
    if !inLong { return Overflow; }
    return Parsed(if neg then -val else val, end);
  }

  /** Every value that the loop accumulates on m[start..e] fits in a long. */
  ghost predicate StaysInLong(m: CString, start: nat, e: nat, base: int)
    requires start <= e < |m|
  {
    forall j {:trigger m[start..j]} | start <= j <= e :: Value(m[start..j], base) <= LONG_MAX
  }

  lemma {:induction false} OneMoreDigit(m: CString, start: nat, i: nat, base: int)
    requires start <= i && i + 1 < |m|
    ensures Value(m[start..i + 1], base) == Value(m[start..i], base) * base + DigitValue(m[i])
    ensures StaysInLong(m, start, i + 1, base)
       <==> StaysInLong(m, start, i, base) && Value(m[start..i + 1], base) <= LONG_MAX
  {
    ValueConcat(m[start..i], m[i], base);
    assert m[start..i + 1] == m[start..i] + [m[i]];
  }

  /** The digit loop.  C defines its steps while val stays in long: inLong says whether it
      always has. */
  method Accumulate(s: CString, start: nat, base: int) returns (val: int, i: nat, inLong: bool)
    requires start < |s|
    ensures i == DigitsEnd(s, start, base) && val == Value(s[start..i], base)
    ensures inLong <==> StaysInLong(s, start, i, base)
  {
    i, val, inLong := start, 0, true;
    while true
      invariant start <= i < |s| && DigitsEnd(s, i, base) == DigitsEnd(s, start, base)
      invariant val == Value(s[start..i], base)
      invariant inLong <==> StaysInLong(s, start, i, base)
      decreases |s| - i
    {
      var dig;
      if '0' <= s[i] <= '9' {
        dig := s[i] as int - '0' as int;
      } else if 'a' <= s[i] <= 'z' {
        dig := s[i] as int - 'a' as int + 10;
      } else if 'A' <= s[i] <= 'Z' {
        dig := s[i] as int - 'A' as int + 10;
      } else {
        break;
      }
      if dig >= base { break; }
      OneMoreDigit(s, start, i, base);
      i, val := i + 1, val * base + dig;
      inLong := inLong && val <= LONG_MAX;
    }
  }

  /** The accumulated values grow, so they stay in long just when the last one does. */
  lemma {:induction false} InLong(m: CString, start: nat, e: nat, base: int)
    requires start <= e < |m| && AllDigits(m[start..e], base)
    ensures StaysInLong(m, start, e, base) <==> Value(m[start..e], base) <= LONG_MAX
  {
    var run := m[start..e];
    if run != [] {
      assert IsDigit(run[0], base);
      forall j | start <= j <= e ensures Value(m[start..j], base) <= Value(run, base) {
        assert run[..j - start] == m[start..j];
        PartialValues(run, base, j - start);
      }
    }
  }

  /** The result in terms of the loop's last value and of whether it stayed in long. */
  lemma {:induction false} ReadingOf(m: CString, base: int, l: Lead, e: nat)
    requires l == LeadOf(m, base) && e == DigitsEnd(m, l.start, l.base)
    ensures var v := Value(m[l.start..e], l.base);
      && v >= 0 && (StaysInLong(m, l.start, e, l.base) <==> v <= LONG_MAX)
      && Result(m, base) == if v <= LONG_MAX then Parsed(Signed(l.neg, v), e) else Overflow
  {
    DigitsEndRun(m, l.start, l.base);
    RunValue(m[l.start..e], l.base);
    InLong(m, l.start, e, l.base);
  }

  lemma {:induction false} DigitsEndIs(m: CString, i: nat, e: nat, base: int)
    requires i <= e < |m|
    requires forall j | i <= j < e :: IsDigit(m[j], base)
    requires !IsDigit(m[e], base)
    ensures DigitsEnd(m, i, base) == e
    decreases e - i
  {
    if i == e {
    } else {
      DigitsEndIs(m, i + 1, e, base);
    }
  }

  lemma {:induction false} DigitsEndRun(m: CString, i: nat, base: int)
    requires i < |m|
    ensures var e := DigitsEnd(m, i, base);
      AllDigits(m[i..e], base) && !IsDigit(m[e], base)
    decreases |m| - i
  {
    if !IsDigit(m[i], base) {
    } else {
      DigitsEndRun(m, i + 1, base);
      var e := DigitsEnd(m, i, base);
      assert m[i..e] == [m[i]] + m[i + 1..e];
    }
  }

  // ---------- maximal munch ----------

  /** Whose syntax: that of the code, or that of its comment, which has 0X as well. */
  datatype Syntax = AsCoded | AsDocumented

  /** The prefixes that a base admits, with the base they leave in force. */
  ghost predicate Admits(syntax: Syntax, asked: int, p: string, inForce: int) {
    || (p == "" && inForce == if asked == 0 then 10 else asked)
    || (p == "0" && asked == 0 && inForce == 8)
    || (p == "0x" && (asked == 0 || asked == 16) && inForce == 16)
    || (p == "0X" && syntax.AsDocumented? && asked == 16 && inForce == 16)
  }

  /** p is the longest admitted prefix of the text. */
  ghost predicate IsPrefix(syntax: Syntax, text: string, asked: int, p: string, inForce: int) {
    && p <= text && Admits(syntax, asked, p, inForce)
    && forall q, b :: q <= text && Admits(syntax, asked, q, b) ==> |q| <= |p|
  }

  /** The text before the digits: blanks up to i, at most one sign up to k, a prefix. */
  ghost predicate IsLead(syntax: Syntax, m: CString, asked: int, l: Lead, i: nat, k: nat) {
    && i <= k <= l.start < |m|
    && (forall j | 0 <= j < i :: m[j] == ' ' || m[j] == '\t') && m[i] != ' ' && m[i] != '\t'
    && m[i..k] == (if m[i] == '+' then "+" else if m[i] == '-' then "-" else "")
    && (l.neg <==> m[i] == '-')
    && IsPrefix(syntax, m[k..], asked, m[k..l.start], l.base)
  }

  /** A lead and after it a run of digits, up to e, that cannot be longer. */
  ghost predicate IsParse(syntax: Syntax, m: CString, asked: int, l: Lead, e: nat) {
    && (exists i, k :: IsLead(syntax, m, asked, l, i, k))
    && l.start <= e < |m|
    && AllDigits(m[l.start..e], l.base) && !IsDigit(m[e], l.base)
  }

  /** The place after the blanks and the sign. */
  function AfterSign(m: CString): (k: nat)
    ensures k < |m|
  {
    var i := SkipBlanks(m, 0);
    if m[i] == '+' || m[i] == '-' then i + 1 else i
  }

  /** "0X" stands after the blanks and the sign, and the base is 16. */
  predicate UpperPrefix(m: CString, base: int) {
    var k := AfterSign(m);
    base == 16 && m[k] == '0' && m[k + 1] == 'X'
  }

  /** The lead by the comment's syntax. */
  function DocumentedLead(m: CString, base: int): (l: Lead)
    ensures l.start < |m|
  {
    if UpperPrefix(m, base) then LeadOf(m, base).(start := AfterSign(m) + 2) else LeadOf(m, base)
  }

  function LeadBy(syntax: Syntax, m: CString, base: int): (l: Lead)
    ensures l.start < |m|
  {
    if syntax.AsCoded? then LeadOf(m, base) else DocumentedLead(m, base)
  }

  lemma {:induction false} LongestPrefix(syntax: Syntax, m: CString, k: nat, asked: int, p: string, b: int)
    requires k < |m|
    ensures IsPrefix(syntax, m[k..], asked, p, b) <==>
      if (asked == 0 || asked == 16) && m[k] == '0' && m[k + 1] == 'x' then p == "0x" && b == 16
      else if syntax.AsDocumented? && asked == 16 && m[k] == '0' && m[k + 1] == 'X' then p == "0X" && b == 16
      else if asked == 0 && m[k] == '0' then p == "0" && b == 8
      else p == "" && b == if asked == 0 then 10 else asked
  {
    var t := m[k..];
    var plain := if asked == 0 then 10 else asked;
    assert "" <= t && Admits(syntax, asked, "", plain);
    assert "0" <= t <==> m[k] == '0';
    assert "0x" <= t <==> m[k] == '0' && m[k + 1] == 'x';
    assert "0X" <= t <==> m[k] == '0' && m[k + 1] == 'X';
    assert asked == 0 ==> Admits(syntax, asked, "0", 8);
    assert asked == 0 || asked == 16 ==> Admits(syntax, asked, "0x", 16);
    assert asked == 16 && syntax.AsDocumented? ==> Admits(syntax, asked, "0X", 16);
  }

  lemma {:induction false} LeadShape(syntax: Syntax, m: CString, base: int)
    ensures IsLead(syntax, m, base, LeadBy(syntax, m, base), SkipBlanks(m, 0), AfterSign(m))
  {
    var k, l := AfterSign(m), LeadBy(syntax, m, base);
    LongestPrefix(syntax, m, k, base, m[k..l.start], l.base);
  }

  lemma {:induction false} LeadUnique(syntax: Syntax, m: CString, base: int, l: Lead, i: nat, k: nat)
    requires IsLead(syntax, m, base, l, i, k)
    ensures l == LeadBy(syntax, m, base)
  {
    var i0 := SkipBlanks(m, 0);
    assert i == i0;
    assert k == AfterSign(m);
    LongestPrefix(syntax, m, k, base, m[k..l.start], l.base);
    assert |m[k..l.start]| == l.start - k;
  }

  /** Maximal munch.  By either syntax every text parses in exactly one way as blanks, at most
      one sign, the longest prefix that the base admits, and a run of digits that cannot be
      longer.  By that of the code it is the parse that strtol finds. */
  lemma {:induction false} MaximalMunch(syntax: Syntax, m: CString, base: int, l: Lead, e: nat)
    ensures IsParse(syntax, m, base, l, e) <==> l == LeadBy(syntax, m, base) && e == DigitsEnd(m, l.start, l.base)
    ensures syntax.AsCoded? ==> LeadBy(syntax, m, base) == LeadOf(m, base)
  {
    if IsParse(syntax, m, base, l, e) {
      var i, k :| IsLead(syntax, m, base, l, i, k);
      LeadUnique(syntax, m, base, l, i, k);
      forall j | l.start <= j < e ensures IsDigit(m[j], l.base) {
        assert m[j] == m[l.start..e][j - l.start];
      }
      DigitsEndIs(m, l.start, e, l.base);
    }
    if l == LeadBy(syntax, m, base) && e == DigitsEnd(m, l.start, l.base) {
      LeadShape(syntax, m, base);
      DigitsEndRun(m, l.start, l.base);
    }
  }

  // ---------- the comment ----------

  /** What the comment promises.  It does not say whether a digit must follow a prefix; here, as
      in the code, the sequence of digits may be empty. */
  function Documented(m: CString, base: int): Parsed {
    var l := DocumentedLead(m, base);
    DigitsEndRun(m, l.start, l.base);
    ReadAs(m, l, DigitsEnd(m, l.start, l.base))
  }

  /** strtol keeps to its comment, in the value and in the end, exactly when the base is not
      16 or the number does not start with 0X.  Otherwise it reads the 0 alone. */
  lemma {:induction false} KeepsToComment(m: CString, base: int)
    ensures Result(m, base) == Documented(m, base) <==> !UpperPrefix(m, base)
    ensures UpperPrefix(m, base) ==> Result(m, base) == Parsed(0, AfterSign(m) + 1)
  {
    if UpperPrefix(m, base) {
      var k, l := AfterSign(m), DocumentedLead(m, base);
      assert IsDigit('0', 16) && !IsDigit('X', 16);
      assert LeadOf(m, base) == Lead(l.neg, 16, k);
      DigitsEndIs(m, k, k + 1, 16);
      assert m[k..k + 1] == "0" && Value("0", 16) == 0;
      ReadingOf(m, base, LeadOf(m, base), k + 1);
      DigitsEndRun(m, l.start, l.base);
    }
  }

  /** "0X1f" in base 16 yields 0 and ends after the 0; by the comment it is 31. */
  lemma {:induction false} UpperHex()
    ensures Result("0X1f" + [NUL], 16) == Parsed(0, 1)
    ensures Documented("0X1f" + [NUL], 16) == Parsed(31, 4)
  {
    var m: CString := "0X1f" + [NUL];
    assert m[0] == '0' && m[1] == 'X' && m[2] == '1' && m[3] == 'f' && m[4] == NUL;
    assert AfterSign(m) == 0 && UpperPrefix(m, 16);
    KeepsToComment(m, 16);
    DigitsEndIs(m, 2, 4, 16);
    assert m[2..4] == "1" + ['f'];
    ValueConcat("1", 'f', 16);
    assert Value("1", 16) == 1;
  }

  /** The prefix 0x is taken even if no hexadecimal digit follows: the value is 0, and the end
      is after the x. */
  lemma {:induction false} PrefixAlone(m: CString, base: int)
    requires base == 0 || base == 16
    requires var k := AfterSign(m); m[k] == '0' && m[k + 1] == 'x' && !IsDigit(m[k + 2], 16)
    ensures Result(m, base) == Documented(m, base) == Parsed(0, AfterSign(m) + 2)
  {
    var k := AfterSign(m);
    DigitsEndIs(m, k + 2, k + 2, 16);
    ReadingOf(m, base, LeadOf(m, base), k + 2);
  }

  // ---------- upper case ----------

  function Upper(c: char): char {
    if 'a' <= c <= 'z' then (c as int - 'a' as int + 'A' as int) as char else c
  }

  ghost predicate IsUpper(m: CString, u: CString) {
    |u| == |m| && forall j | 0 <= j < |m| :: u[j] == Upper(m[j])
  }

  /** The lower-case prefix, which is taken. */
  predicate LowerPrefix(m: CString, base: int) {
    var k := AfterSign(m);
    (base == 0 || base == 16) && m[k] == '0' && m[k + 1] == 'x'
  }

  lemma UpperDigit(c: char)
    ensures DigitValue(Upper(c)) == DigitValue(c)
  {
  }

  lemma {:induction false} UpperBlanks(m: CString, u: CString, i: nat)
    requires IsUpper(m, u) && i < |m|
    ensures SkipBlanks(u, i) == SkipBlanks(m, i)
    decreases |m| - i
  {
    if !Blank(m[i]) {
    } else {
      UpperBlanks(m, u, i + 1);
    }
  }

  lemma {:induction false} UpperRun(m: CString, u: CString, i: nat, base: int)
    requires IsUpper(m, u) && i < |m|
    ensures DigitsEnd(u, i, base) == DigitsEnd(m, i, base)
    decreases |m| - i
  {
    UpperDigit(m[i]);
    if !IsDigit(m[i], base) {
    } else {
      UpperRun(m, u, i + 1, base);
    }
  }

  lemma {:induction false} UpperValue(s: string, t: string, base: int)
    requires |t| == |s| && forall j | 0 <= j < |s| :: t[j] == Upper(s[j])
    ensures Value(t, base) == Value(s, base)
  {
    if s == [] {
    } else {
      UpperValue(s[..|s| - 1], t[..|t| - 1], base);
      UpperDigit(s[|s| - 1]);
    }
  }

  /** The case of letters does not matter, in any base, but for the prefix 0x: a text and its
      upper-case form have the same value and end exactly when that is not taken. */
  lemma {:induction false} CaseMatters(m: CString, u: CString, base: int)
    requires IsUpper(m, u)
    ensures Result(u, base) == Result(m, base) <==> !LowerPrefix(m, base)
  {
    UpperBlanks(m, u, 0);
    var k := AfterSign(m);
    assert AfterSign(u) == k;
    if LowerPrefix(m, base) {
      assert u[k] == '0' && u[k + 1] == 'X';
      UpperPrefixEnds(u, base);
      DigitsEndRun(m, k + 2, 16);
    } else {
      UpperReading(m, u, base);
    }
  }

  lemma {:induction false} UpperReading(m: CString, u: CString, base: int)
    requires IsUpper(m, u) && LeadOf(u, base) == LeadOf(m, base)
    ensures Result(u, base) == Result(m, base)
  {
    var l := LeadOf(m, base);
    UpperRun(m, u, l.start, l.base);
    var e := DigitsEnd(m, l.start, l.base);
    UpperValue(m[l.start..e], u[l.start..e], l.base);
    ReadingOf(m, base, l, e);
    ReadingOf(u, base, l, e);
  }

  lemma {:induction false} UpperPrefixEnds(u: CString, base: int)
    requires base == 0 || base == 16
    requires var k := AfterSign(u); u[k] == '0' && u[k + 1] == 'X'
    ensures Result(u, base) == Parsed(0, AfterSign(u) + 1)
  {
    var k, l := AfterSign(u), LeadOf(u, base);
    assert IsDigit('0', 16) && !IsDigit('X', 16) && !IsDigit('X', 8);
    if base == 16 {
      DigitsEndIs(u, k, k + 1, 16);
      assert u[k..k + 1] == "0" && Value("0", 16) == 0;
    } else {
      DigitsEndIs(u, k + 1, k + 1, 8);
    }
    ReadingOf(u, base, l, k + 1);
  }

  /** "1F" in base 16. */
  lemma {:induction false} UpperDigits()
    ensures Result("1F" + [NUL], 16) == Parsed(31, 2)
  {
    var m: CString := "1F" + [NUL];
    assert m[0] == '1' && m[1] == 'F' && m[2] == NUL;
    DigitsEndIs(m, 0, 2, 16);
    assert m[0..2] == "1" + ['F'];
    ValueConcat("1", 'F', 16);
    assert Value("1", 16) == 1;
    ReadingOf(m, 16, Lead(false, 16, 0), 2);
  }

  // ---------- the result ----------

  /** The result is the signed value of that run, and the end its end, if the value can be
      accumulated in a long. */
  lemma {:induction false} ResultIsParse(m: CString, base: int, l: Lead, e: nat)
    requires IsParse(AsCoded, m, base, l, e)
    ensures var v := Value(m[l.start..e], l.base);
      v >= 0 && Result(m, base) == if v <= LONG_MAX then Parsed(Signed(l.neg, v), e) else Overflow
  {
    MaximalMunch(AsCoded, m, base, l, e);
    RunValue(m[l.start..e], l.base);
  }

  /** The accumulation stays in long just when the run's signed value lies between -LONG_MAX
      and LONG_MAX. */
  lemma {:induction false} OverflowIff(m: CString, base: int, l: Lead, e: nat)
    requires IsParse(AsCoded, m, base, l, e)
    ensures StaysInLong(m, l.start, e, l.base) <==> Result(m, base).Parsed?
    ensures Result(m, base).Parsed? <==>
      -LONG_MAX <= Signed(l.neg, Value(m[l.start..e], l.base)) <= LONG_MAX
  {
    ResultIsParse(m, base, l, e);
    RunValue(m[l.start..e], l.base);
    InLong(m, l.start, e, l.base);
  }
}
