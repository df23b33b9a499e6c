/** Printing a number and parsing it back. */
module RoundTrip {
  import opened Arithmetic
  import opened CStrings
  import opened Numerals
  import opened StrTol
  import opened Format
  import Printf

  /** A printed number: perhaps a sign, then pads, then digits. */
  function Printed(neg: bool, n: nat, base: nat, width: int, padc: char): string
    requires 2 <= base <= 16
  {
    (if neg then "-" else "") + NumField(n, base, width, padc)
  }

  /** How many pads there are. */
  function Pads(n: nat, base: nat, width: int): int
    requires 2 <= base <= 16
  {
    Max(width - |Digits(n, base)|, 0)
  }

  /** strtol returns v and consumes all of the text. */
  ghost predicate Reads(m: CString, base: int, v: int) {
    var r := Result(m, base);
    r.Parsed? && r.value == v && r.end == |m| - 1
  }

  /** strtol, in the base it was printed in, returns the number printed. */
  ghost predicate ReadsBack(neg: bool, n: nat, base: nat, width: int, padc: char)
    requires 2 <= base <= 16 && padc != NUL
  {
    PrintedHasNoNul(neg, n, base, width, padc);
    Reads(Terminate(Printed(neg, n, base, width, padc)), base, Signed(neg, n))
  }

  /** The magnitude is at most LONG_MAX, and nothing was padded, or the pads are zeros, or
      they are blanks and there is no sign; a pad '-' is harmless before 0 only. */
  predicate Survives(neg: bool, n: nat, base: nat, width: int, padc: char)
    requires 2 <= base <= 16
  {
    && n <= LONG_MAX
    && (|| Pads(n, base, width) == 0
        || padc == '0'
        || (padc == ' ' && !neg)
        || (padc == '-' && n == 0 && Pads(n, base, width) == 1))
  }

  lemma {:induction false} NumFieldShape(n: nat, base: nat, width: int, padc: char)
    requires 2 <= base <= 16
    ensures var s, k := NumField(n, base, width, padc), Pads(n, base, width);
      && |s| == k + |Digits(n, base)|
      && (forall i | 0 <= i < k :: s[i] == padc)
      && (forall i | k <= i < |s| :: IsDigit(s[i], base) && s[i] != 'x')
      && s[k..] == Digits(n, base)
  {
    DigitsShape(n, base);
  }

  lemma PrintedHasNoNul(neg: bool, n: nat, base: nat, width: int, padc: char)
    requires 2 <= base <= 16 && padc != NUL
    ensures NUL !in Printed(neg, n, base, width, padc)
  {
    NumFieldShape(n, base, width, padc);
    assert !IsDigit(NUL, base);
  }

  /** Where the parse of a text starts, when its first characters are blanks, then perhaps
      a sign, and what follows cannot be taken for a prefix. */
  lemma {:induction false} LeadIs(m: CString, base: int, i: nat, neg: bool)
    requires i < |m| && base != 0
    requires forall j | 0 <= j < i :: Blank(m[j])
    requires !Blank(m[i]) && m[i] != '+' && (neg <==> m[i] == '-')
    requires forall j | i <= j < |m| :: m[j] != 'x'
    ensures LeadOf(m, base) == Lead(neg, base, if neg then i + 1 else i)
  {
    SkipBlanksIs(m, 0, i);
  }

  lemma {:induction false} SkipBlanksIs(m: CString, i: nat, k: nat)
    requires i <= k < |m| && !Blank(m[k])
    requires forall j | i <= j < k :: Blank(m[j])
    ensures SkipBlanks(m, i) == k
    decreases k - i
  {
    if i == k {
    } else {
      SkipBlanksIs(m, i + 1, k);
    }
  }

  /** A text that is a run of digits of the base after perhaps a sign. */
  lemma {:induction false} SignedRun(m: CString, base: int, neg: bool, field: string)
    requires base != 0 && m == (if neg then "-" else "") + field + [NUL] && field != []
    requires forall j | 0 <= j < |field| :: IsDigit(field[j], base) && field[j] != 'x'
    ensures Reads(m, base, Signed(neg, Value(field, base))) <==> Value(field, base) <= LONG_MAX
    ensures Value(field, base) > LONG_MAX ==> Result(m, base) == Overflow
  {
    var start := if neg then 1 else 0;
    assert |m| == start + |field| + 1;
    assert m[start..|m| - 1] == field;
    forall j | start <= j < |m| - 1 ensures IsDigit(m[j], base) && m[j] != 'x' && m[j] != '-' {
      assert m[j] == field[j - start];
    }
    assert m[start] == field[0];
    LeadIs(m, base, 0, neg);
    DigitsEndIs(m, start, |m| - 1, base);
    ReadingOf(m, base, Lead(neg, base, start), |m| - 1);
  }

  /** No pads, or pads that are zeros. */
  lemma ZerosReadBack(neg: bool, n: nat, base: nat, width: int, padc: char)
    requires 2 <= base <= 16 && padc != NUL
    requires padc == '0' || Pads(n, base, width) == 0
    ensures ReadsBack(neg, n, base, width, padc) <==> n <= LONG_MAX
  {
    var field := NumField(n, base, width, padc);
    PrintedHasNoNul(neg, n, base, width, padc);
    NumFieldShape(n, base, width, padc);
    assert IsDigit('0', base);
    FieldValue(n, base, width, padc);
    SignedRun(Terminate(Printed(neg, n, base, width, padc)), base, neg, field);
  }

  /** A text that is a run of digits of the base after blanks. */
  lemma {:induction false} BlankRun(m: CString, base: int, blanks: string, field: string)
    requires base != 0 && m == blanks + field + [NUL] && field != []
    requires forall j | 0 <= j < |blanks| :: blanks[j] == ' '
    requires forall j | 0 <= j < |field| :: IsDigit(field[j], base) && field[j] != 'x'
    ensures Reads(m, base, Value(field, base)) <==> Value(field, base) <= LONG_MAX
  {
    var k := |blanks|;
    assert m[k..|m| - 1] == field && m[k] == field[0];
    forall j | k <= j < |m| - 1 ensures IsDigit(m[j], base) && m[j] != 'x' && m[j] != '-' {
      assert m[j] == field[j - k];
    }
    LeadIs(m, base, k, false);
    DigitsEndIs(m, k, |m| - 1, base);
    ReadingOf(m, base, Lead(false, base, k), |m| - 1);
  }

  /** Blanks before a number without a sign. */
  lemma BlanksReadBack(n: nat, base: nat, width: int)
    requires 2 <= base <= 16
    ensures ReadsBack(false, n, base, width, ' ') <==> n <= LONG_MAX
  {
    var digits, blanks := Digits(n, base), Repeat(' ', width - |Digits(n, base)|);
    PrintedHasNoNul(false, n, base, width, ' ');
    DigitsShape(n, base);
    DigitsValue(n, base);
    var m := Terminate(Printed(false, n, base, width, ' '));
    assert m == blanks + digits + [NUL];
    BlankRun(m, base, blanks, digits);
  }

  /** A sign with a pad after it that is no digit: the parse stops there. */
  lemma StopsAfterSign(neg: bool, n: nat, base: nat, width: int, padc: char)
    requires 2 <= base <= 16 && (padc == ' ' || padc == '-')
    requires var k := Pads(n, base, width); (neg && k >= 1) || (padc == '-' && k >= 2)
    ensures !ReadsBack(neg, n, base, width, padc)
  {
    var s := Printed(neg, n, base, width, padc);
    PrintedHasNoNul(neg, n, base, width, padc);
    NumFieldShape(n, base, width, padc);
    var m := Terminate(s);
    var field := NumField(n, base, width, padc);
    assert neg ==> s[1] == field[0];
    assert !neg ==> s == field;
    assert m[0] == '-' && m[1] == padc && |s| >= 2;
    forall j | 0 <= j < |m| ensures m[j] != 'x' {
      if j < |s| { assert m[j] == (if !neg then field[j] else if j == 0 then '-' else field[j - 1]); }
    }
    LeadIs(m, base, 0, true);
    DigitsEndIs(m, 1, 1, base);
    ReadingOf(m, base, Lead(true, base, 1), 1);
  }

  /** One pad '-' in front of an unsigned number reads as its sign. */
  lemma PadIsSign(n: nat, base: nat, width: int)
    requires 2 <= base <= 16 && Pads(n, base, width) == 1
    ensures ReadsBack(false, n, base, width, '-') <==> n == 0
  {
    var s := Printed(false, n, base, width, '-');
    PrintedHasNoNul(false, n, base, width, '-');
    NumFieldShape(n, base, width, '-');
    var m := Terminate(s);
    assert s == NumField(n, base, width, '-');
    assert forall j | 0 <= j < |s| :: m[j] == s[j];
    LeadIs(m, base, 0, true);
    DigitsEndIs(m, 1, |s|, base);
    assert m[1..|s|] == Digits(n, base);
    DigitsValue(n, base);
    ReadingOf(m, base, Lead(true, base, 1), |s|);
  }

  /** The round trip, exactly: a number printed in a base up to 16, with a '-' in front if
      it is negative, reads back in that base just when it survives. */
  lemma PrintParse(neg: bool, n: nat, base: nat, width: int, padc: char)
    requires 2 <= base <= 16 && (neg ==> n > 0)
    requires padc == ' ' || padc == '0' || padc == '-'
    ensures ReadsBack(neg, n, base, width, padc) <==> Survives(neg, n, base, width, padc)
  {
    var k := Pads(n, base, width);
    if k == 0 || padc == '0' {
      ZerosReadBack(neg, n, base, width, padc);
    } else if padc == ' ' && !neg {
      BlanksReadBack(n, base, width);
    } else if neg || k >= 2 {
      StopsAfterSign(neg, n, base, width, padc);
    } else {
      PadIsSign(n, base, width);
    }
  }

  // ---------- directives ----------

  predicate IsNumberConv(conv: char) {
    conv == 'd' || conv == 'u' || conv == 'o' || conv == 'x'
  }

  function ConvBase(conv: char): nat {
    if conv == 'o' then 8 else if conv == 'x' then 16 else 10
  }

  /** The number that a conversion takes from the next argument: the low 32 bits of its slot,
      or all 64 after an l, for %d in two's complement. */
  function ConvValue(fl: Fields, conv: char, args: seq<Arg>): int {
    var w, range := WordArg(args), if fl.lflag == 0 then 0x1_0000_0000 else 0x1_0000_0000_0000_0000;
    if conv == 'd' then (w + range / 2) % range - range / 2 else w % range
  }

  /** The pad characters a format can ask for. */
  lemma {:induction false} PadCharacters(fl: Fields, ms: seq<Mod>, args: seq<Arg>)
    requires fl.padc == ' ' || fl.padc == '0' || fl.padc == '-'
    ensures var fl' := ApplyMods(fl, ms, args).0; fl'.padc == ' ' || fl'.padc == '0' || fl'.padc == '-'
    decreases |ms|
  {
    if |ms| == 0 {
    } else {
      var (fl', args') := ApplyMod(fl, ms[0], args);
      PadCharacters(fl', ms[1..], args');
    }
  }

  lemma {:induction false} ValueIs(fl: Fields, conv: char, args: seq<Arg>)
    ensures ConvValue(fl, conv, args) == if conv == 'd' then GetInt(args, fl.lflag) else GetUInt(args, fl.lflag)
  {
  }

  lemma {:induction false} NumberIsPrinted(fl: Fields, conv: char, args: seq<Arg>)
    requires IsNumberConv(conv)
    ensures var v := ConvValue(fl, conv, args);
      Convert(fl, conv, args).0 == Printed(v < 0, Magnitude(v), ConvBase(conv), fl.width, fl.padc)
  {
    ValueIs(fl, conv, args);
    PrintedIs(fl, conv, args, if conv == 'd' then GetInt(args, fl.lflag) else GetUInt(args, fl.lflag));
  }

  lemma {:induction false} PrintedIs(fl: Fields, conv: char, args: seq<Arg>, v: int)
    requires IsNumberConv(conv) && v == if conv == 'd' then GetInt(args, fl.lflag) else GetUInt(args, fl.lflag)
    ensures NumberText(fl, conv, args) == Printed(v < 0, Magnitude(v), ConvBase(conv), fl.width, fl.padc)
  {
    var s := NumField(Magnitude(v), ConvBase(conv), fl.width, fl.padc);
    assert "" + s == s;
  }

  /** The round trip for %d, %u, %o and %x with any modifiers: strtol in base 10, 10, 8 or 16
      returns the argument and consumes all the text just when the argument survives. */
  lemma DirectiveReadsBack(mods: seq<Mod>, conv: char, args: seq<Arg>)
    requires IsNumberConv(conv)
    ensures var (fl, rest) := ApplyMods(PLAIN, mods, args);
      var v, base := ConvValue(fl, conv, rest), ConvBase(conv);
      var text := RenderItem(Directive(mods, conv), args).0;
      NUL !in text &&
      (Reads(Terminate(text), base, v) <==> Survives(v < 0, Magnitude(v), base, fl.width, fl.padc))
  {
    PadCharacters(PLAIN, mods, args);
    var (fl, rest) := ApplyMods(PLAIN, mods, args);
    var v, base := ConvValue(fl, conv, rest), ConvBase(conv);
    NumberIsPrinted(fl, conv, rest);
    PrintedHasNoNul(v < 0, Magnitude(v), base, fl.width, fl.padc);
    PrintParse(v < 0, Magnitude(v), base, fl.width, fl.padc);
  }

  /** Formatting a number with vsnprintf into a buffer with room for it, and then strtol on
      the buffer: the number comes back just when it survives. */
  lemma {:induction false} FormatThenParse(before: seq<char>, after: seq<char>, str: nat, size: nat,
                                           f: CString, mods: seq<Mod>, conv: char, args: seq<Arg>)
    requires IsNumberConv(conv) && Parse(f, 0) == [Directive(mods, conv)]
    requires |Output(f, args)| < size && str + size <= |before|
    requires Printf.Formatted(before, after, str, size, Output(f, args))
    ensures var (fl, rest) := ApplyMods(PLAIN, mods, args);
      var v, base := ConvValue(fl, conv, rest), ConvBase(conv);
      var m := after[str..str + |Output(f, args)| + 1];
      IsCString(m) && (Reads(m, base, v) <==> Survives(v < 0, Magnitude(v), base, fl.width, fl.padc))
  {
    DirectiveReadsBack(mods, conv, args);
    OneDirective(f, mods, conv, args);
    BufferHolds(before, after, str, size, Output(f, args));
  }

  lemma {:induction false} OneDirective(f: CString, mods: seq<Mod>, conv: char, args: seq<Arg>)
    requires Parse(f, 0) == [Directive(mods, conv)]
    ensures Output(f, args) == RenderItem(Directive(mods, conv), args).0
  {
    assert Render([], RenderItem(Directive(mods, conv), args).1) == [];
  }

  /** A buffer with room for the output and its NUL holds it as a string. */
  lemma BufferHolds(before: seq<char>, after: seq<char>, str: nat, size: nat, out: string)
    requires |out| < size && str + size <= |before| && NUL !in out
    requires Printf.Formatted(before, after, str, size, out)
    ensures str + |out| + 1 <= |after| && after[str..str + |out| + 1] == Terminate(out)
  {
    assert Printf.Truncated(out, size) == out;
    assert after[str..str + |out| + 1] == after[str..str + |out|] + [NUL];
  }

  // ---------- pointers ----------

  /** A text after 0x, in base 16 or 0: the digits start after the prefix. */
  lemma {:induction false} AfterPrefix(m: CString, field: string, base: int)
    requires (base == 0 || base == 16) && m == "0x" + field + [NUL]
    ensures LeadOf(m, base) == Lead(false, 16, 2)
    ensures |m| == |field| + 3 && m[2..|m| - 1] == field && (field != [] ==> m[2] == field[0])
  {
    assert m[0] == '0' && m[1] == 'x';
  }

  /** A run of hexadecimal digits after 0x, up to the end ... */
  lemma {:induction false} HexAfterPrefix(m: CString, field: string, base: int)
    requires (base == 0 || base == 16) && m == "0x" + field + [NUL] && AllDigits(field, 16)
    ensures Reads(m, base, Value(field, 16)) <==> Value(field, 16) <= LONG_MAX
    ensures Value(field, 16) > LONG_MAX ==> Result(m, base) == Overflow
  {
    AfterPrefix(m, field, base);
    RunToEnd(m, 2, 16);
    ReadingOf(m, base, Lead(false, 16, 2), |m| - 1);
  }

  /** ... or something else there. */
  lemma {:induction false} NoHexAfterPrefix(m: CString, field: string, base: int)
    requires (base == 0 || base == 16) && m == "0x" + field + [NUL]
    requires field != [] && !IsDigit(field[0], 16)
    ensures Result(m, base) == Parsed(0, 2)
  {
    AfterPrefix(m, field, base);
    DigitsEndIs(m, 2, 2, 16);
    ReadingOf(m, base, Lead(false, 16, 2), 2);
  }

  lemma {:induction false} PointerField(m: CString, n: nat, width: int, padc: char, base: int)
    requires (padc == ' ' || padc == '0' || padc == '-') && (base == 0 || base == 16)
    requires m == "0x" + NumField(n, 16, width, padc) + [NUL]
    ensures Reads(m, base, n) <==> n <= LONG_MAX && (Pads(n, 16, width) == 0 || padc == '0')
    ensures n > LONG_MAX && Pads(n, 16, width) == 0 ==> Result(m, base) == Overflow
  {
    var field := NumField(n, 16, width, padc);
    NumFieldShape(n, 16, width, padc);
    if Pads(n, 16, width) == 0 || padc == '0' {
      FieldValue(n, 16, width, padc);
      HexAfterPrefix(m, field, base);
    } else {
      NoHexAfterPrefix(m, field, base);
    }
  }

  /** A pointer reads back, with its 0x and in base 16 or 0, just when it is at most LONG_MAX
      and was not padded, or with zeros: any other pad ends the parse after the prefix. */
  lemma PointerReadsBack(mods: seq<Mod>, args: seq<Arg>, base: int)
    requires base == 0 || base == 16
    ensures var (fl, rest) := ApplyMods(PLAIN, mods, args);
      var text, n := RenderItem(Directive(mods, 'p'), args).0, WordArg(rest);
      NUL !in text &&
      (Reads(Terminate(text), base, n) <==> n <= LONG_MAX && (Pads(n, 16, fl.width) == 0 || fl.padc == '0')) &&
      (n > LONG_MAX && Pads(n, 16, fl.width) == 0 ==> Result(Terminate(text), base) == Overflow)
  {
    PadCharacters(PLAIN, mods, args);
    var (fl, rest) := ApplyMods(PLAIN, mods, args);
    var n := WordArg(rest);
    var field := NumField(n, 16, fl.width, fl.padc);
    PrintedHasNoNul(false, n, 16, fl.width, fl.padc);
    assert Printed(false, n, 16, fl.width, fl.padc) == field;
    assert RenderItem(Directive(mods, 'p'), args).0 == "0x" + field;
    PointerField(Terminate("0x" + field), n, fl.width, fl.padc, base);
  }

  lemma {:induction false} RunToEnd(m: CString, i: nat, base: int)
    requires i < |m| && AllDigits(m[i..|m| - 1], base)
    ensures DigitsEnd(m, i, base) == |m| - 1
  {
    forall j | i <= j < |m| - 1 ensures IsDigit(m[j], base) {
      assert m[j] == m[i..|m| - 1][j - i];
    }
    DigitsEndIs(m, i, |m| - 1, base);
  }

  /** Zeros in front do not change the value. */
  lemma FieldValue(n: nat, base: nat, width: int, padc: char)
    requires 2 <= base <= 16 && (padc == '0' || Pads(n, base, width) == 0)
    ensures Value(NumField(n, base, width, padc), base) == n
  {
    DigitsValue(n, base);
    if Pads(n, base, width) == 0 {
      assert NumField(n, base, width, padc) == Digits(n, base);
    } else {
      LeadingZeros(width - |Digits(n, base)|, Digits(n, base), base);
    }
  }

  // ---------- inputs that do not read back ----------

  /** %3d of -1 prints "-  1", which reads as 0 and ends after the sign. */
  lemma PaddedNegative()
    ensures RenderItem(Directive([Number(3)], 'd'), [Word(0xffff_ffff)]).0 == "-  1"
    ensures Result(Terminate("-  1"), 10) == Parsed(0, 1)
  {
    var args: seq<Arg> := [Word(0xffff_ffff)];
    assert ApplyMods(PLAIN, [Number(3)], args) == (PLAIN.(width := 3), args);
    assert IntArg(args) == -1;
    assert Digits(1, 10) == "1";
    assert Repeat(' ', 2) == " " + Repeat(' ', 1) == " " + (" " + Repeat(' ', 0));
    assert NumField(1, 10, 3, ' ') == "  1";
    var m := Terminate("-  1");
    assert SkipBlanks(m, 0) == 0;
    ReadingOf(m, 10, Lead(true, 10, 1), 1);
  }

  /** %ld of the least long prints a text on which strtol overflows ... */
  lemma LeastLong()
    ensures var text := RenderItem(Directive([Long], 'd'), [Word(0x8000_0000_0000_0000)]).0;
      text == "-" + Digits(0x8000_0000_0000_0000, 10) && NUL !in text && Result(Terminate(text), 10) == Overflow
  {
    var n, args := LONG_MAX + 1, [Word(0x8000_0000_0000_0000)];
    assert ApplyMods(PLAIN, [Long], args) == (PLAIN.(lflag := 1), args);
    assert GetInt(args, 1) == -n;
    PlainOverflows(true, n, 10);
  }

  /** One less does not ... */
  lemma {:induction false} GreatestLong(args: seq<Arg>)
    requires args == [Word(0x7fff_ffff_ffff_ffff)]
    ensures var text := RenderItem(Directive([Long], 'd'), args).0;
      NUL !in text && Reads(Terminate(text), 10, 0x7fff_ffff_ffff_ffff)
  {
    var fl := PLAIN.(lflag := 1);
    assert ApplyMods(PLAIN, [Long], args) == (fl, args);
    assert ConvValue(fl, 'd', args) == LONG_MAX;
    assert Survives(false, LONG_MAX, 10, -1, ' ');
    DirectiveReadsBack([Long], 'd', args);
  }

  /** ... and %p of the kernel's base address overflows. */
  lemma KernelBase()
    ensures var text := RenderItem(Directive([], 'p'), [Word(0xffff_ffff_c020_0000)]).0;
      NUL !in text && Result(Terminate(text), 16) == Overflow
  {
    var args: seq<Arg> := [Word(0xffff_ffff_c020_0000)];
    assert ApplyMods(PLAIN, [], args) == (PLAIN, args);
    PointerReadsBack([], args, 16);
  }

  /** A magnitude above LONG_MAX, printed without pads, overflows. */
  lemma PlainOverflows(neg: bool, n: nat, base: nat)
    requires 2 <= base <= 16 && n > LONG_MAX
    ensures var s := Printed(neg, n, base, -1, ' ');
      s == (if neg then "-" else "") + Digits(n, base) && NUL !in s && Result(Terminate(s), base) == Overflow
  {
    var field := Digits(n, base);
    assert NumField(n, base, -1, ' ') == field;
    PrintedHasNoNul(neg, n, base, -1, ' ');
    NumFieldShape(n, base, -1, ' ');
    DigitsValue(n, base);
    SignedRun(Terminate(Printed(neg, n, base, -1, ' ')), base, neg, field);
  }
}
