/** `printfmt.c`: the bounded buffer, the recursive digit printer and the directive machine
    of `vprintfmt`, which walks the format with one moving index that it may set back. */
module Printf {
  import opened Arithmetic
  import opened CStrings
  import opened Numerals
  import opened Format

  const E_INVAL := 3

  /** struct sprintbuf, over the memory that `buf` and `ebuf` point into. */
  class SprintBuf {
    const mem: array<char>
    const str: nat   // where the buffer starts
    const ebuf: nat  // its last place
    var buf: nat     // the first unused place
    var cnt: nat

    ghost const origin: seq<char>  // the memory when the buffer was set up
    ghost var trace: string        // everything ever put

    /** The buffer holds as much of the trace as fits; nothing else has been written. */
    ghost predicate Valid()
      reads this, mem
    {
      && str <= buf <= ebuf < mem.Length == |origin|
      && cnt == |trace|
      && buf - str == Min(|trace|, ebuf - str)
      && (forall i | 0 <= i < |origin| && !(str <= i < buf) :: mem[i] == origin[i])
      && mem[str..buf] == trace[..buf - str]
    }

    constructor (mem: array<char>, str: nat, ebuf: nat)
      requires str <= ebuf < mem.Length
      ensures Valid() && trace == [] && origin == mem[..]
      ensures this.mem == mem && this.str == str && this.ebuf == ebuf
    {
      this.mem, this.str, this.ebuf := mem, str, ebuf;
      buf, cnt := str, 0;
      origin, trace := mem[..], [];
    }

    /** sprintputch */
    method Put(ch: char)
      requires Valid()
      modifies this, mem
      ensures Valid() && trace == old(trace) + [ch]
    {
      cnt := cnt + 1;
      if buf < ebuf {
        mem[buf] := ch;
        buf := buf + 1;
      }
      trace := trace + [ch];
    }

    /** A constant text. */
    method PutText(s: string)
      requires Valid()
      modifies this, mem
      ensures Valid() && trace == old(trace) + s
    {
      for i := 0 to |s|
        invariant Valid() && trace == old(trace) + s[..i]
      {
        Put(s[i]);
      }
    }

    /** for (; n > 0; n --) putch(c) */
    method PutPads(c: char, n: int)
      requires Valid()
      modifies this, mem
      ensures Valid() && trace == old(trace) + Repeat(c, n)
    {
      var left := n;
      while left > 0
        invariant left <= Max(n, 0) && (n < 0 ==> left == n) && (n >= 0 ==> left >= 0)
        invariant Valid() && trace == old(trace) + Repeat(c, n - left)
      {
        RepeatSnoc(c, n - left);
        Put(c);
        left := left - 1;
      }
      if n < 0 { assert Repeat(c, n) == []; }
    }
  }

  lemma RepeatSnoc(c: char, n: int)
    requires n >= 0
    ensures Repeat(c, n) + [c] == Repeat(c, n + 1)
  {
  }

  lemma NumFieldLast(num: nat, base: nat, width: int, padc: char)
    requires 2 <= base <= 16 && num < base
    ensures num % base == num && NumField(num, base, width, padc) == Repeat(padc, width - 1) + [DIGITS[num]]
  {
    assert Digits(num, base) == [DIGITS[num]];
  }

  lemma NumFieldStep(num: nat, base: nat, width: int, padc: char)
    requires 2 <= base <= 16 && num >= base
    ensures NumField(num, base, width, padc) == NumField(num / base, base, width - 1, padc) + [DIGITS[num % base]]
  {
    var d, c := Digits(num / base, base), DIGITS[num % base];
    assert Digits(num, base) == d + [c];
    var pads := Repeat(padc, width - 1 - |d|);
    assert pads + (d + [c]) == (pads + d) + [c];
  }

  /** printnum */
  method PrintNum(b: SprintBuf, num: nat, base: nat, width: int, padc: char)
    requires b.Valid() && 2 <= base <= 16
    modifies b, b.mem
    ensures b.Valid() && b.trace == old(b.trace) + NumField(num, base, width, padc)
    decreases num
  {
    var result, mod := num / base, num % base;
    if num >= base {
      NumFieldStep(num, base, width, padc);
      QuotientIsLess(num, base);
      PrintNum(b, result, base, width - 1, padc);
    } else {
      NumFieldLast(num, base, width, padc);
      b.PutPads(padc, width - 1);
    }
    b.Put(DIGITS[mod]);
  }

  /** The test of the loop at place k: it goes on while there are characters to print. */
  lemma KeptGoesOn(p: seq<char>, precision: int, k: nat)
    requires Readable(p, precision) && k <= Kept(UpToNul(p), precision)
    ensures k < |p|
    ensures k < Kept(UpToNul(p), precision) <==> p[k] != NUL && (precision < 0 || k < precision)
    ensures k < Kept(UpToNul(p), precision) ==> UpToNul(p)[k] == p[k]
  {
    var t := UpToNul(p);
    ReadableIff(p, precision);
    if k < |t| {
      assert t[k] == p[k] && t[k] in t;
    }
  }

  lemma ShownSnoc(s: string, k: nat, alt: bool)
    requires k < |s|
    ensures ShownText(s[..k + 1], alt) == ShownText(s[..k], alt) + [Shown(s[k], alt)]
  {
    assert s[..k + 1][..k] == s[..k];
  }

  /** The characters of a string that the precision lets through.  Each test of the loop reads
      p[k], the last one too. */
  method PutKept(b: SprintBuf, p: seq<char>, precision: int, alt: bool) returns (k: nat)
    requires b.Valid() && Readable(p, precision)
    modifies b, b.mem
    ensures k == Kept(UpToNul(p), precision)
    ensures b.Valid() && b.trace == old(b.trace) + ShownText(UpToNul(p)[..k], alt)
  {
    ghost var text := UpToNul(p);
    k := 0;
    KeptGoesOn(p, precision, 0);
    var left := precision;
    while p[k] != NUL && (left < 0 || left - 1 >= 0)
      invariant k <= Kept(text, precision) && k < |p|
      invariant if precision < 0 then left == precision else left == precision - k
      invariant b.Valid() && b.trace == old(b.trace) + ShownText(text[..k], alt)
      decreases |p| - k
    {
      KeptGoesOn(p, precision, k);
      ShownSnoc(text, k, alt);
      Associate(old(b.trace), ShownText(text[..k], alt), [Shown(p[k], alt)]);
      if left >= 0 { left := left - 1; }
      b.Put(if alt && (p[k] < ' ' || p[k] > '~') then '?' else p[k]);
      k := k + 1;
      KeptGoesOn(p, precision, k);
    }
  }

  function LeftPads(s: string, fl: Fields): string {
    if fl.padc == '-' then [] else Repeat(fl.padc, fl.width - Kept(s, fl.precision))
  }

  /** A string field in the three parts that the three loops print. */
  lemma FieldParts(s: string, fl: Fields, width: int)
    requires fl.padc == '-' ==> width == fl.width
    requires fl.padc != '-' ==> width <= Kept(s, fl.precision)
    ensures var n := Kept(s, fl.precision);
      StrField(s, fl) == LeftPads(s, fl) + ShownText(s[..n], fl.alt) + Repeat(' ', width - n)
  {
  }

  /** The first loop of the case 's': pads on the left, unless padc asks for the right. */
  method PutLeftPads(b: SprintBuf, p: seq<char>, fl: Fields) returns (width: int)
    requires b.Valid() && Readable(p, fl.precision)
    modifies b, b.mem
    ensures b.Valid()
    ensures b.trace == old(b.trace) + LeftPads(UpToNul(p), fl)
    ensures fl.padc == '-' ==> width == fl.width
    ensures fl.padc != '-' ==> width <= Kept(UpToNul(p), fl.precision)
  {
    width := fl.width;
    if width > 0 && fl.padc != '-' {
      var n;
      if fl.precision < 0 {
        n := StrLen(p);  // strnlen with a size_t larger than any string
      } else {
        n := StrNLen(p, fl.precision);
      }
      b.PutPads(fl.padc, width - n);
      width := Min(width - n, 0);
    }
  }

  /** The case 's' of vprintfmt. */
  method PutString(b: SprintBuf, p: seq<char>, fl: Fields)
    requires b.Valid() && Readable(p, fl.precision)
    modifies b, b.mem
    ensures b.Valid() && b.trace == old(b.trace) + StrField(UpToNul(p), fl)
  {
    ghost var text := UpToNul(p);
    var width := PutLeftPads(b, p, fl);
    var k := PutKept(b, p, fl.precision, fl.alt);
    ghost var pads, body := LeftPads(text, fl), ShownText(text[..k], fl.alt);
    b.PutPads(' ', width - k);
    FieldParts(text, fl, width);
    Associate(old(b.trace), pads, body);
    Associate(old(b.trace), pads + body, Repeat(' ', width - k));
  }

  // ---------- the rendering of what is left of a format ----------

  function RenderFrom(f: CString, i: nat, args: seq<Arg>): string
    requires i < |f|
  {
    Render(Parse(f, i), args)
  }

  ghost predicate ReadableFrom(f: CString, i: nat, args: seq<Arg>)
    requires i < |f|
  {
    AllReadable(Parse(f, i), args)
  }

  lemma {:induction false} RenderStep(f: CString, i: nat, args: seq<Arg>)
    requires i < |f| && f[i] != NUL
    ensures var (item, j) := ItemAt(f, i);
      var (s, rest) := RenderItem(item, args);
      && RenderFrom(f, i, args) == s + RenderFrom(f, j, rest)
      && (ReadableFrom(f, i, args) <==> ItemReadable(item, args) && ReadableFrom(f, j, rest))
  {
    var (item, j) := ItemAt(f, i);
    assert ([item] + Parse(f, j))[1..] == Parse(f, j);
  }

  lemma Associate(a: string, b: string, c: string)
    ensures (a + b) + c == a + (b + c)
  {
  }

  lemma {:induction false} RenderLiteral(f: CString, i: nat, args: seq<Arg>)
    requires i < |f| && f[i] != NUL && f[i] != '%'
    ensures RenderFrom(f, i, args) == [f[i]] + RenderFrom(f, i + 1, args)
    ensures ReadableFrom(f, i, args) <==> ReadableFrom(f, i + 1, args)
  {
    RenderStep(f, i, args);
  }

  lemma {:induction false} LiteralRun(f: CString, i: nat, e: nat, args: seq<Arg>)
    requires i <= e < |f|
    requires forall k | i <= k < e :: f[k] != NUL && f[k] != '%'
    ensures RenderFrom(f, i, args) == f[i..e] + RenderFrom(f, e, args)
    ensures ReadableFrom(f, i, args) <==> ReadableFrom(f, e, args)
    decreases e - i
  {
    if i == e {
    } else {
      RenderLiteral(f, i, args);
      LiteralRun(f, i + 1, e, args);
      assert f[i..e] == [f[i]] + f[i + 1..e];
      Associate([f[i]], f[i + 1..e], RenderFrom(f, e, args));
    }
  }

  lemma {:induction false} DirectiveItem(f: CString, i: nat, args: seq<Arg>)
    requires i + 1 < |f| && f[i] == '%' && IsConv(f[ParseMods(f, i + 1).1])
    ensures var (mods, j) := ParseMods(f, i + 1);
      var (fl, rest) := ApplyMods(PLAIN, mods, args);
      var (item, k) := ItemAt(f, i);
      && k == j + 1 && RenderItem(item, args) == Convert(fl, f[j], rest)
      && (ItemReadable(item, args) <==> (f[j] == 's' ==> Readable(StrArg(rest), fl.precision)))
  {
  }

  lemma {:induction false} RenderDirective(f: CString, i: nat, args: seq<Arg>)
    requires i + 1 < |f| && f[i] == '%' && IsConv(f[ParseMods(f, i + 1).1])
    ensures var (mods, j) := ParseMods(f, i + 1);
      var (fl, rest) := ApplyMods(PLAIN, mods, args);
      var (s, rest') := Convert(fl, f[j], rest);
      && j + 1 < |f| && RenderFrom(f, i, args) == s + RenderFrom(f, j + 1, rest')
      && (ReadableFrom(f, i, args) <==>
            (f[j] == 's' ==> Readable(StrArg(rest), fl.precision)) && ReadableFrom(f, j + 1, rest'))
  {
    DirectiveItem(f, i, args);
    RenderStep(f, i, args);
  }

  /** Modifiers are never '%' or NUL. */
  lemma {:induction false} ModsAreMods(f: CString, i: nat)
    requires i < |f|
    ensures forall k | i <= k < ParseMods(f, i).1 :: IsMod(f[k])
    decreases |f| - i
  {
    if !IsMod(f[i]) {
    } else {
      ModsAreMods(f, ModAt(f, i).1);
    }
  }

  lemma {:induction false} RenderUnknownItem(f: CString, i: nat, args: seq<Arg>)
    requires i + 1 < |f| && f[i] == '%' && !IsConv(f[ParseMods(f, i + 1).1])
    ensures var (item, j) := ItemAt(f, i);
      && RenderItem(item, args) == ("%" + f[i + 1..j], ApplyMods(PLAIN, ParseMods(f, i + 1).0, args).1)
      && forall k | i + 1 <= k < j :: f[k] != NUL && f[k] != '%'
  {
    ModsAreMods(f, i + 1);
  }

  /** Going back to just after the '%' of an unknown directive and reading on from there is
      what the rendering of the directive as text comes to. */
  lemma {:induction false} RenderUnknown(f: CString, i: nat, args: seq<Arg>)
    requires i + 1 < |f| && f[i] == '%' && !IsConv(f[ParseMods(f, i + 1).1])
    ensures RenderFrom(f, i, args)
         == "%" + RenderFrom(f, i + 1, ApplyMods(PLAIN, ParseMods(f, i + 1).0, args).1)
    ensures ReadableFrom(f, i, args) <==> ReadableFrom(f, i + 1, ApplyMods(PLAIN, ParseMods(f, i + 1).0, args).1)
  {
    var rest := ApplyMods(PLAIN, ParseMods(f, i + 1).0, args).1;
    var j := ItemAt(f, i).1;
    RenderUnknownItem(f, i, args);
    RenderStep(f, i, args);
    LiteralRun(f, i + 1, j, rest);
    Associate("%", f[i + 1..j], RenderFrom(f, j, rest));
  }

  // ---------- vprintfmt ----------

  lemma RunStep(f: seq<char>, start: nat, fmt: nat)
    requires start <= fmt < |f| && IsDecimal(f[fmt])
    ensures Value(f[start..fmt + 1], 10) == Value(f[start..fmt], 10) * 10 + (f[fmt] as int - '0' as int)
    ensures start == fmt ==> Value(f[start..fmt], 10) == 0
  {
    assert f[start..fmt + 1] == f[start..fmt] + [f[fmt]];
    ValueConcat(f[start..fmt], f[fmt], 10);
  }

  /** The case '1' ... '9': fmt is one past the first digit, ch. */
  method ReadNumber(f: CString, start: nat) returns (precision: nat, fmt: nat)
    requires start < |f| && IsDecimal(f[start])
    ensures fmt == DecimalsEnd(f, start) && precision == Value(f[start..fmt], 10)
  {
    var ch := f[start];
    fmt, precision := start + 1, 0;
    RunStep(f, start, start);
    precision := precision * 10 + (ch as int - '0' as int);
    ch := f[fmt];
    while IsDecimal(ch)
      invariant start < fmt < |f| && ch == f[fmt]
      invariant DecimalsEnd(f, fmt) == DecimalsEnd(f, start)
      invariant precision == Value(f[start..fmt], 10)
      decreases |f| - fmt
    {
      RunStep(f, start, fmt);
      fmt, precision := fmt + 1, precision * 10 + (ch as int - '0' as int);
      ch := f[fmt];
    }
  }

  /** One case of the switch that goes back to the label reswitch: padc, width, precision,
      lflag and altflag change as the modifier at `at` says, and fmt moves past it. */
  method ReadMod(f: CString, at: nat, fl: Fields, args: seq<Arg>) returns (fl': Fields, fmt: nat, ap: seq<Arg>)
    requires at < |f| && IsMod(f[at])
    ensures fmt == ModAt(f, at).1 && (fl', ap) == ApplyMod(fl, ModAt(f, at).0, args)
  {
    var ch := f[at];
    fl', fmt, ap := fl, at + 1, args;
    if ch == '-' {
      fl' := fl.(padc := '-');
    } else if ch == '0' {
      fl' := fl.(padc := '0');
    } else if ch == '.' {
      if fl.width < 0 { fl' := fl.(width := 0); }
    } else if ch == '#' {
      fl' := fl.(alt := true);
    } else if ch == 'l' {
      fl' := fl.(lflag := fl.lflag + 1);
    } else {
      var precision;
      if ch == '*' {
        precision, ap := IntArg(args), Rest(args);
      } else {
        precision, fmt := ReadNumber(f, at);
      }
      fl' := if fl.width < 0 then fl.(width := precision, precision := -1) else fl.(precision := precision);
    }
  }

  /** From the label reswitch on: the modifiers after a '%', up to the character ch that is
      none, which fmt has passed. */
  method ReadMods(f: CString, start: nat, args: seq<Arg>) returns (fl: Fields, ch: char, fmt: nat, ap: seq<Arg>)
    requires start < |f|
    ensures var (mods, j) := ParseMods(f, start);
      fmt == j + 1 && ch == f[j] && (fl, ap) == ApplyMods(PLAIN, mods, args)
  {
    fl, ap, fmt := PLAIN, args, start;
    while IsMod(f[fmt])
      invariant start <= fmt < |f|
      invariant ParseMods(f, fmt).1 == ParseMods(f, start).1
      invariant ApplyMods(fl, ParseMods(f, fmt).0, ap) == ApplyMods(PLAIN, ParseMods(f, start).0, args)
      decreases |f| - fmt
    {
      ghost var (m, j) := ModAt(f, fmt);
      assert ([m] + ParseMods(f, j).0)[1..] == ParseMods(f, j).0;
      fl, fmt, ap := ReadMod(f, fmt, fl, ap);
    }
    ch, fmt := f[fmt], fmt + 1;
  }

  /** The cases 'd', 'u', 'o', 'p' and 'x', which meet at the label number. */
  method PutNumber(b: SprintBuf, fl: Fields, ch: char, args: seq<Arg>)
    requires b.Valid() && (ch == 'd' || ch == 'u' || ch == 'o' || ch == 'p' || ch == 'x')
    modifies b, b.mem
    ensures b.Valid() && b.trace == old(b.trace) + NumberText(fl, ch, args)
  {
    var num, base;
    ghost var sign := "";
    if ch == 'd' {
      var v := GetInt(args, fl.lflag);
      if v < 0 {
        b.Put('-');
        sign := "-";
        v := -v;
      }
      num, base := v, 10;
    } else if ch == 'p' {
      b.PutText("0x");
      sign := "0x";
      num, base := WordArg(args), 16;
    } else {
      num, base := GetUInt(args, fl.lflag), if ch == 'u' then 10 else if ch == 'o' then 8 else 16;
    }
    assert NumberText(fl, ch, args) == sign + NumField(num, base, fl.width, fl.padc);
    Associate(old(b.trace), sign, NumField(num, base, fl.width, fl.padc));
    PrintNum(b, num, base, fl.width, fl.padc);
  }

  lemma PlainNumber(n: nat)
    ensures NumField(n, 10, -1, ' ') == Digits(n, 10)
  {
  }

  method PutErrorNumber(b: SprintBuf, err: nat)
    requires b.Valid()
    modifies b, b.mem
    ensures b.Valid() && b.trace == old(b.trace) + ("error " + Digits(err, 10))
  {
    b.PutText("error ");
    PlainNumber(err);
    PrintNum(b, err, 10, -1, ' ');
    Associate(old(b.trace), "error ", Digits(err, 10));
  }

  /** The case 'e'. */
  method PutError(b: SprintBuf, err: nat)
    requires b.Valid()
    modifies b, b.mem
    ensures b.Valid() && b.trace == old(b.trace) + ErrorText(err)
  {
    if err > MAXERROR || !HasText(err) {
      PutErrorNumber(b, err);
    } else {
      var p := ErrorString(err);
      assert p == ErrorText(err);
      b.PutText(p);
    }
  }

  /** The cases of the switch that print. */
  method PutConversion(b: SprintBuf, fl: Fields, ch: char, args: seq<Arg>) returns (ap: seq<Arg>)
    requires b.Valid() && IsConv(ch) && (ch == 's' ==> Readable(StrArg(args), fl.precision))
    modifies b, b.mem
    ensures b.Valid() && b.trace == old(b.trace) + Convert(fl, ch, args).0 && ap == Convert(fl, ch, args).1
  {
    if ch == '%' {
      b.Put(ch);
      return args;
    }
    ap := Rest(args);
    if ch == 'c' {
      b.Put((WordArg(args) % 256) as char);
    } else if ch == 'e' {
      var err := IntArg(args);
      PutError(b, if err < 0 then -err else err);
    } else if ch == 's' {
      PutString(b, StrArg(args), fl);
    } else {
      PutNumber(b, fl, ch, args);
    }
  }

  /** The loop up to the next '%' or the NUL. */
  method PutLiterals(b: SprintBuf, f: CString, start: nat) returns (fmt: nat)
    requires b.Valid() && start < |f|
    modifies b, b.mem
    ensures start <= fmt < |f| && (f[fmt] == '%' || f[fmt] == NUL)
    ensures forall k | start <= k < fmt :: f[k] != NUL && f[k] != '%'
    ensures b.Valid() && b.trace == old(b.trace) + f[start..fmt]
  {
    fmt := start;
    while f[fmt] != '%' && f[fmt] != NUL
      invariant start <= fmt < |f|
      invariant forall k | start <= k < fmt :: f[k] != NUL && f[k] != '%'
      invariant b.Valid() && b.trace == old(b.trace) + f[start..fmt]
      decreases |f| - fmt
    {
      assert f[start..fmt + 1] == f[start..fmt] + [f[fmt]];
      b.Put(f[fmt]);
      fmt := fmt + 1;
    }
  }

  /** The default case: fmt, one past the character that is no conversion, goes back to just
      after the '%' of its directive. */
  method Rewind(f: CString, percent: nat, end: nat) returns (fmt: nat)
    requires percent + 1 < |f| && f[percent] == '%' && end == ParseMods(f, percent + 1).1 + 1
    ensures fmt == percent + 1
  {
    ModsAreMods(f, percent + 1);
    fmt := end - 1;
    while f[fmt - 1] != '%'
      invariant percent < fmt < end
      decreases fmt
    {
      fmt := fmt - 1;
    }
  }

  /** One round of the outer loop, from a '%' on.  An unknown directive sets fmt back to
      just after its own '%'; a round still ends further on than it began. */
  method Round(b: SprintBuf, f: CString, percent: nat, args: seq<Arg>) returns (fmt: nat, ap: seq<Arg>)
    requires b.Valid() && percent + 1 < |f| && f[percent] == '%' && ReadableFrom(f, percent, args)
    modifies b, b.mem
    ensures percent < fmt < |f| && ReadableFrom(f, fmt, ap)
    ensures b.Valid() && b.trace + RenderFrom(f, fmt, ap) == old(b.trace) + RenderFrom(f, percent, args)
  {
    var fl, ch;
    fl, ch, fmt, ap := ReadMods(f, percent + 1, args);
    if IsConv(ch) {
      RenderDirective(f, percent, args);
      ghost var (s, rest) := Convert(fl, ch, ap);
      ap := PutConversion(b, fl, ch, ap);
      assert b.trace == old(b.trace) + s && ap == rest;
      Associate(old(b.trace), s, RenderFrom(f, fmt, rest));
    } else {
      RenderUnknown(f, percent, args);
      b.Put('%');
      fmt := Rewind(f, percent, fmt);
      Associate(old(b.trace), "%", RenderFrom(f, fmt, ap));
    }
  }

  /** vprintfmt, as long as widths, precisions and the count stay within int.  Every index into
      f is checked to be in bounds, so nothing after the NUL is read; of a string argument only
      what the precision admits need be readable, and one character more. */
  method VPrintFmt(b: SprintBuf, f: CString, args: seq<Arg>)
    requires b.Valid() && ReadableFrom(f, 0, args)
    modifies b, b.mem
    ensures b.Valid() && b.trace == old(b.trace) + Output(f, args)
  {
    var fmt, ap := 0, args;
    while true
      invariant fmt < |f| && ReadableFrom(f, fmt, ap)
      invariant b.Valid() && b.trace + RenderFrom(f, fmt, ap) == old(b.trace) + RenderFrom(f, 0, args)
      decreases |f| - fmt
    {
      ghost var sofar := b.trace;
      var percent := PutLiterals(b, f, fmt);
      LiteralRun(f, fmt, percent, ap);
      Associate(sofar, f[fmt..percent], RenderFrom(f, percent, ap));
      if f[percent] == NUL {
        return;
      }
      fmt, ap := Round(b, f, percent, ap);
    }
  }

  /** A format without conversions is printed as it stands, unknown directives included. */
  lemma {:induction false} WithoutDirectives(items: seq<Item>, args: seq<Arg>)
    requires forall i | 0 <= i < |items| :: !items[i].Directive?
    ensures Render(items, args) == Show(items)
    decreases |items|
  {
    if items == [] {
    } else {
      WithoutDirectives(items[1..], RenderItem(items[0], args).1);
    }
  }

  // ---------- the formats that the case 'e' prints with ----------

  lemma {:induction false} ShownPlain(s: string)
    ensures ShownText(s, false) == s
  {
    if s == [] {
    } else {
      ShownPlain(s[..|s| - 1]);
    }
  }

  lemma PlainString(s: string)
    ensures StrField(s, PLAIN) == s
  {
    ShownPlain(s);
    assert s[..|s|] == s;
    assert Repeat(' ', -1 - |s|) == [];
  }

  const ERROR_NUMBER: CString := "error %d" + [NUL]
  const ERROR_STRING: CString := "%s" + [NUL]

  lemma SmallInt(n: nat)
    requires n < 0x8000_0000
    ensures IntArg([Word(n)]) == n
  {
  }

  lemma ErrorNumberOutput(err: nat)
    requires err < 0x8000_0000
    ensures Output(ERROR_NUMBER, [Word(err)]) == "error " + Digits(err, 10)
  {
    var f, args := ERROR_NUMBER, [Word(err)];
    assert f[0] == 'e' && f[1] == 'r' && f[2] == 'r' && f[3] == 'o' && f[4] == 'r' && f[5] == ' ';
    assert f[6] == '%' && f[7] == 'd' && f[8] == NUL && |f| == 9;
    LiteralRun(f, 0, 6, args);
    assert ParseMods(f, 7) == ([], 7);
    RenderDirective(f, 6, args);
    SmallInt(err);
    PlainNumber(err);
    assert RenderFrom(f, 8, Rest(args)) == [];
    assert f[0..6] == "error ";
  }

  lemma {:induction false} ErrorStringOutput(at: pointer, p: CString)
    ensures Output(ERROR_STRING, [Str(at, p)]) == Text(p)
  {
    var f, args := ERROR_STRING, [Str(at, p)];
    UpToNulIsText(p);
    assert ParseMods(f, 1) == ([], 1);
    RenderDirective(f, 0, args);
    PlainString(Text(p));
    assert RenderFrom(f, 2, Rest(args)) == [];
  }

  lemma ErrorStringHasNoNul(err: nat)
    requires HasText(err)
    ensures NUL !in ErrorString(err)
  {
  }

  /** %e prints what the source's own calls of printfmt with these formats print. */
  lemma ErrorTextIsFormatted(err: nat, at: pointer)
    requires err < 0x8000_0000
    ensures err > MAXERROR || !HasText(err) ==> ErrorText(err) == Output(ERROR_NUMBER, [Word(err)])
    ensures HasText(err) ==>
              NUL !in ErrorString(err) && ErrorText(err) == Output(ERROR_STRING, [Str(at, Terminate(ErrorString(err)))])
  {
    ErrorNumberOutput(err);
    if HasText(err) {
      ErrorStringHasNoNul(err);
      ErrorStringOutput(at, Terminate(ErrorString(err)));
    }
  }

  // ---------- a precision of 0 ----------

  /** %.0s or %.*s */
  ghost predicate IsDotString(f: CString) {
    && |f| == 5 && f[0] == '%' && f[1] == '.' && f[3] == 's'
    && (f[2] == '0' || f[2] == '*')
  }

  /** A precision written as 0 is none, since the 0 is taken for a flag: the whole text is
      printed.  A '*' with the argument 0 cuts the text to nothing. */
  lemma {:induction false} PrecisionZero(f: CString, args: seq<Arg>)
    requires IsDotString(f)
    ensures f[2] == '0' ==> Output(f, args) == UpToNul(StrArg(args))
    ensures f[2] == '*' && IntArg(args) == 0 ==> Output(f, args) == []
  {
    var plain := PLAIN.(width := 0);
    DotStringOutput(f, args);
    if f[2] == '0' {
      assert ApplyMod(plain, Zero, args) == (plain.(padc := '0'), args);
      FieldsOf(UpToNul(StrArg(args)));
    } else if IntArg(args) == 0 {
      assert ApplyMod(plain, Star, args) == (plain.(precision := 0), Rest(args));
      FieldsOf(UpToNul(StrArg(Rest(args))));
    }
  }

  lemma {:induction false} DotThen(f: CString, args: seq<Arg>)
    requires IsDotString(f)
    ensures var m := if f[2] == '0' then Zero else Star;
      && ParseMods(f, 1) == ([Dot, m], 3)
      && ApplyMods(PLAIN, [Dot, m], args) == ApplyMod(PLAIN.(width := 0), m, args)
  {
    var m := if f[2] == '0' then Zero else Star;
    assert ModAt(f, 1) == (Dot, 2) && ModAt(f, 2) == (m, 3);
    assert ParseMods(f, 3) == ([], 3);
    assert ParseMods(f, 2) == ([m] + [], 3);
    assert [m] + [] == [m] && [Dot] + [m] == [Dot, m];
    ApplyConcat(PLAIN, [Dot], [m], args);
  }

  lemma {:induction false} RenderEnd(f: CString, i: nat, args: seq<Arg>)
    requires i < |f| && f[i] == NUL
    ensures RenderFrom(f, i, args) == []
  {
  }

  lemma {:induction false} DotStringOutput(f: CString, args: seq<Arg>)
    requires IsDotString(f)
    ensures var (fl, rest) := ApplyMod(PLAIN.(width := 0), if f[2] == '0' then Zero else Star, args);
      Output(f, args) == StrField(UpToNul(StrArg(rest)), fl)
  {
    var (fl, rest) := ApplyMod(PLAIN.(width := 0), if f[2] == '0' then Zero else Star, args);
    DotThen(f, args);
    RenderDirective(f, 0, args);
    RenderEnd(f, 4, Rest(rest));
  }

  lemma FieldsOf(s: string)
    ensures StrField(s, PLAIN.(width := 0, padc := '0')) == s
    ensures StrField(s, PLAIN.(width := 0, precision := 0)) == []
  {
    ShownPlain(s);
    assert s[..|s|] == s && s[..0] == [];
  }

  // ---------- vsnprintf ----------

  /** What a buffer of the given size keeps of the full output. */
  function Truncated(out: string, size: nat): string
    requires size >= 1
  {
    out[..Min(|out|, size - 1)]
  }

  /** The memory after out was formatted into the size bytes from str on. */
  ghost predicate Formatted(before: seq<char>, after: seq<char>, str: nat, size: nat, out: string)
    requires size >= 1 && str + size <= |before|
  {
    var kept := Truncated(out, size);
    && |after| == |before|
    && after[str..str + |kept|] == kept && after[str + |kept|] == NUL
    && forall i | 0 <= i < |after| && !(str <= i <= str + |kept|) :: after[i] == before[i]
  }

  /** vsnprintf on the bytes of mem from str on; a null str is a null mem. */
  method VSNPrintf(mem: array?<char>, str: nat, size: nat, f: CString, args: seq<Arg>) returns (r: int)
    requires mem != null ==> str + size <= mem.Length
    requires mem != null && size >= 1 ==> ReadableFrom(f, 0, args)
    modifies if mem != null then {mem} else {}
    ensures mem == null || size == 0 ==> r == -E_INVAL
    ensures mem != null && size == 0 ==> mem[..] == old(mem[..])
    ensures mem != null && size >= 1 ==>
              r == |Output(f, args)| && Formatted(old(mem[..]), mem[..], str, size, Output(f, args))
  {
    if mem == null || str > str + size - 1 {
      return -E_INVAL;
    }
    r := Fill(mem, str, size, f, args);
  }

  method Fill(mem: array<char>, str: nat, size: nat, f: CString, args: seq<Arg>) returns (r: int)
    requires size >= 1 && str + size <= mem.Length && ReadableFrom(f, 0, args)
    modifies mem
    ensures r == |Output(f, args)| && Formatted(old(mem[..]), mem[..], str, size, Output(f, args))
  {
    var b := new SprintBuf(mem, str, str + size - 1);
    ghost var out, before := Output(f, args), mem[..];
    VPrintFmt(b, f, args);
    assert [] + out == out;
    ghost var k := |Truncated(out, size)|;
    assert b.trace == out && b.buf == str + k;
    assert mem[str..str + k] == Truncated(out, size);
    assert forall i | 0 <= i < mem.Length && !(str <= i < str + k) :: mem[i] == before[i];
    mem[b.buf] := NUL;
    r := b.cnt;
  }

  /** The string that a reader finds in the buffer: the output, up to a NUL that it may hold
      itself, cut to size - 1 characters. */
  lemma BufferString(before: seq<char>, after: seq<char>, str: nat, size: nat, out: string)
    requires size >= 1 && str + size <= |before| && Formatted(before, after, str, size, out)
    ensures var s := UpToNul(out);
      str <= |after| && UpToNul(after[str..]) == s[..Min(|s|, size - 1)]
  {
    var kept, s := Truncated(out, size), UpToNul(out);
    var k := Min(|s|, size - 1);
    assert after[str..str + |kept|] == kept;
    assert forall i | 0 <= i < k :: after[str..][i] == kept[i] == out[i] == s[i];
    assert k < |kept| ==> after[str + k] == kept[k] == out[k];
    UpToNulIs(after[str..], k);
  }

  /** Two buffers of different sizes, anywhere, with the same output: the string in the
      smaller one is a prefix of that in the larger one, and the same if its size exceeds the
      count returned. */
  lemma SmallerIsPrefix(out: string,
                        before: seq<char>, after: seq<char>, str: nat, small: nat,
                        before': seq<char>, after': seq<char>, str': nat, large: nat)
    requires 1 <= small <= large && str + small <= |before| && str' + large <= |before'|
    requires Formatted(before, after, str, small, out) && Formatted(before', after', str', large, out)
    ensures str <= |after| && str' <= |after'|
    ensures UpToNul(after[str..]) <= UpToNul(after'[str'..]) <= UpToNul(out)
    ensures |out| < small ==> UpToNul(after[str..]) == UpToNul(after'[str'..]) == UpToNul(out)
  {
    BufferString(before, after, str, small, out);
    BufferString(before', after', str', large, out);
  }
}
