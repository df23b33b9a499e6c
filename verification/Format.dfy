/** The formats of `vprintfmt` in two phases: a format string is parsed into items, and
    the items are rendered in order, each consuming the arguments it needs. */
module Format {
  import opened Arithmetic
  import opened CStrings
  import opened Numerals

  // ---------- phase one: the items of a format ----------

  datatype Mod = Minus | Zero | Number(n: nat) | Star | Dot | Alt | Long

  datatype Item =
    | Literal(c: char)
    | Directive(mods: seq<Mod>, conv: char)
    | Unknown(mods: seq<Mod>, text: string)  // no conversion follows the modifiers

  predicate IsConv(c: char) {
    || c == 'c' || c == 'e' || c == 's' || c == 'd' || c == 'u'
    || c == 'o' || c == 'p' || c == 'x' || c == '%'
  }

  predicate IsDecimal(c: char) { '0' <= c <= '9' }

  function DecimalsEnd(f: CString, i: nat): (e: nat)
    requires i < |f|
    ensures i <= e < |f| && !IsDecimal(f[e]) && forall j | i <= j < e :: IsDecimal(f[j])
    decreases |f| - i
  {
    if IsDecimal(f[i]) then DecimalsEnd(f, i + 1) else i
  }

  predicate IsMod(c: char) {
    c == '-' || c == '.' || c == '*' || c == '#' || c == 'l' || IsDecimal(c)
  }

  /** The modifier at place i, and where it ends. */
  function ModAt(f: CString, i: nat): (r: (Mod, nat))
    requires i < |f| && IsMod(f[i])
    ensures i < r.1 < |f|
  {
    var c := f[i];
    if c == '-' then (Minus, i + 1)
    else if c == '0' then (Zero, i + 1)
    else if c == '*' then (Star, i + 1)
    else if c == '.' then (Dot, i + 1)
    else if c == '#' then (Alt, i + 1)
    else if c == 'l' then (Long, i + 1)
    else
      var e := DecimalsEnd(f, i);
      DigitsAreNatural(f[i..e]);
      (Number(Value(f[i..e], 10)), e)
  }

  lemma DigitsAreNatural(s: string)
    requires forall i | 0 <= i < |s| :: IsDecimal(s[i])
    ensures Value(s, 10) >= 0
  {
    ValueNonNegative(s, 10, |s|);
    assert s[..|s|] == s;
  }

  function ParseMods(f: CString, i: nat): (r: (seq<Mod>, nat))
    requires i < |f|
    ensures i <= r.1 < |f| && !IsMod(f[r.1])
    decreases |f| - i
  {
    if !IsMod(f[i]) then ([], i)
    else
      var (m, j) := ModAt(f, i);
      var (ms, k) := ParseMods(f, j);
      ([m] + ms, k)
  }

  /** The item at place i, and where it ends.  A directive that the NUL cuts off is unknown. */
  function ItemAt(f: CString, i: nat): (r: (Item, nat))
    requires i < |f| && f[i] != NUL
    ensures i < r.1 < |f|
  {
    if f[i] != '%' then (Literal(f[i]), i + 1)
    else
      var (mods, j) := ParseMods(f, i + 1);
      if f[j] == NUL then (Unknown(mods, f[i + 1..j]), j)
      else if IsConv(f[j]) then (Directive(mods, f[j]), j + 1)
      else (Unknown(mods, f[i + 1..j + 1]), j + 1)
  }

  function Parse(f: CString, i: nat): seq<Item>
    requires i < |f|
    decreases |f| - i
  {
    if f[i] == NUL then []
    else
      var (item, j) := ItemAt(f, i);
      [item] + Parse(f, j)
  }

  // ---------- the text of items ----------

  function ShowMod(m: Mod): string {
    match m
    case Minus => "-"
    case Zero => "0"
    case Number(n) => Digits(n, 10)
    case Star => "*"
    case Dot => "."
    case Alt => "#"
    case Long => "l"
  }

  function ShowMods(ms: seq<Mod>): string {
    if ms == [] then [] else ShowMod(ms[0]) + ShowMods(ms[1..])
  }

  function ShowItem(item: Item): string {
    match item
    case Literal(c) => [c]
    case Directive(mods, conv) => "%" + ShowMods(mods) + [conv]
    case Unknown(_, text) => "%" + text
  }

  function Show(items: seq<Item>): string {
    if items == [] then [] else ShowItem(items[0]) + Show(items[1..])
  }

  lemma {:induction false} ShowModAt(f: CString, i: nat)
    requires i < |f| && IsMod(f[i])
    ensures ShowMod(ModAt(f, i).0) == f[i..ModAt(f, i).1]
  {
    if IsDecimal(f[i]) && f[i] != '0' {
      var e := DecimalsEnd(f, i);
      var run := f[i..e];
      assert run[0] == f[i];
      forall k | 0 <= k < |run| ensures '0' <= run[k] <= '9' {
        assert IsDecimal(f[i + k]);
      }
      DecimalCanonical(run);
      assert ModAt(f, i) == (Number(Value(run, 10)), e);
    } else {
      assert f[i..i + 1] == [f[i]];
      assert ModAt(f, i).1 == i + 1;
    }
  }

  lemma {:induction false} ShowParseMods(f: CString, i: nat)
    requires i < |f|
    ensures ShowMods(ParseMods(f, i).0) == f[i..ParseMods(f, i).1]
    decreases |f| - i
  {
    if !IsMod(f[i]) {
    } else {
      var (m, j) := ModAt(f, i);
      var (ms, k) := ParseMods(f, j);
      ShowModAt(f, i);
      ShowParseMods(f, j);
      assert ([m] + ms)[1..] == ms;
      assert f[i..k] == f[i..j] + f[j..k];
    }
  }

  lemma SplitDirective(f: seq<char>, i: nat, k: nat)
    requires i < k < |f| && f[i] == '%'
    ensures f[i..k] == "%" + f[i + 1..k]
    ensures f[i..k + 1] == "%" + f[i + 1..k + 1] == "%" + f[i + 1..k] + [f[k]]
  {
  }

  lemma {:induction false} ShowItemAt(f: CString, i: nat)
    requires i < |f| && f[i] != NUL
    ensures ShowItem(ItemAt(f, i).0) == f[i..ItemAt(f, i).1]
  {
    if f[i] != '%' {
      assert ItemAt(f, i) == (Literal(f[i]), i + 1);
    } else {
      var (mods, j) := ParseMods(f, i + 1);
      ShowParseMods(f, i + 1);
      SplitDirective(f, i, j);
      if f[j] == NUL {
        assert ItemAt(f, i) == (Unknown(mods, f[i + 1..j]), j);
      } else if IsConv(f[j]) {
        assert ItemAt(f, i) == (Directive(mods, f[j]), j + 1);
      } else {
        assert ItemAt(f, i) == (Unknown(mods, f[i + 1..j + 1]), j + 1);
      }
    }
  }

  lemma Slices(f: seq<char>, i: nat, j: nat)
    requires i <= j < |f|
    ensures f[i..j] + f[j..|f| - 1] == f[i..|f| - 1]
  {
  }

  /** Parsing loses nothing: the items spell the format they come from. */
  lemma {:induction false} ShowParse(f: CString, i: nat)
    requires i < |f|
    ensures Show(Parse(f, i)) == f[i..|f| - 1]
    decreases |f| - i
  {
    if f[i] == NUL {
      assert i == |f| - 1;
    } else {
      var (item, j) := ItemAt(f, i);
      ShowItemAt(f, i);
      ShowParse(f, j);
      Slices(f, i, j);
      assert ([item] + Parse(f, j))[1..] == Parse(f, j);
    }
  }

  // ---------- arguments ----------

  type pointer = x: uint64 | x != 0 witness 1

  /** One slot of a va_list: a 64-bit word, or a pointer to characters in memory, which as a
      word is its address.  C does not define reading a missing argument, or a word as a
      pointer to characters; here that reads 0 or a null pointer. */
  datatype Arg = Word(bits: uint64) | Str(addr: pointer, s: seq<char>) | Null

  function Rest(args: seq<Arg>): seq<Arg> {
    if args == [] then [] else args[1..]
  }

  function WordArg(args: seq<Arg>): uint64 {
    if args == [] || args[0].Null? then 0 else if args[0].Word? then args[0].bits else args[0].addr
  }

  function StrArg(args: seq<Arg>): seq<char> {
    if args != [] && args[0].Str? then args[0].s else "(null)" + [NUL]
  }

  function SignExtend(bits: nat, range: nat): int {
    if 2 * bits >= range then bits - range else bits
  }

  /** va_arg(ap, int) */
  function IntArg(args: seq<Arg>): int {
    SignExtend(WordArg(args) % WORD32, WORD32)
  }

  /** getint */
  function GetInt(args: seq<Arg>, lflag: nat): int {
    if lflag >= 1 then SignExtend(WordArg(args), WORD64) else IntArg(args)
  }

  /** getuint */
  function GetUInt(args: seq<Arg>, lflag: nat): uint64 {
    if lflag >= 1 then WordArg(args) else WordArg(args) % WORD32
  }

  // ---------- phase two: rendering ----------

  datatype Fields = Fields(padc: char, width: int, precision: int, lflag: nat, alt: bool)

  const PLAIN := Fields(' ', -1, -1, 0, false)

  /** process_precision: the first number is the width, later ones the precision. */
  function WithNumber(fl: Fields, n: int): Fields {
    if fl.width < 0 then fl.(width := n, precision := -1) else fl.(precision := n)
  }

  function ApplyMod(fl: Fields, m: Mod, args: seq<Arg>): (Fields, seq<Arg>) {
    match m
    case Minus => (fl.(padc := '-'), args)
    case Zero => (fl.(padc := '0'), args)
    case Number(n) => (WithNumber(fl, n), args)
    case Star => (WithNumber(fl, IntArg(args)), Rest(args))
    case Dot => (if fl.width < 0 then fl.(width := 0) else fl, args)
    case Alt => (fl.(alt := true), args)
    case Long => (fl.(lflag := fl.lflag + 1), args)
  }

  function ApplyMods(fl: Fields, ms: seq<Mod>, args: seq<Arg>): (Fields, seq<Arg>)
    decreases |ms|
  {
    if |ms| == 0 then (fl, args)
    else
      var (fl', args') := ApplyMod(fl, ms[0], args);
      ApplyMods(fl', ms[1..], args')
  }

  /** A number: pads, then the digits. */
  function NumField(n: nat, base: nat, width: int, padc: char): string
    requires 2 <= base <= 16
  {
    Repeat(padc, width - |Digits(n, base)|) + Digits(n, base)
  }

  /** A signed number: the sign goes before the pads. */
  function SignedField(v: int, width: int, padc: char): string {
    if v < 0 then "-" + NumField(-v, 10, width, padc) else NumField(v, 10, width, padc)
  }

  function Shown(c: char, alt: bool): char {
    if alt && (c < ' ' || c > '~') then '?' else c
  }

  function ShownText(s: string, alt: bool): (r: string)
    ensures |r| == |s|
  {
    if s == [] then [] else ShownText(s[..|s| - 1], alt) + [Shown(s[|s| - 1], alt)]
  }

  /** The characters of s that a precision lets through: strnlen(s, precision). */
  function Kept(s: string, precision: int): (n: nat)
    ensures n <= |s|
  {
    if precision < 0 then |s| else Min(|s|, precision)
  }

  /** A string: padded on the left with padc, or on the right with blanks if padc is '-'. */
  function StrField(s: string, fl: Fields): string {
    var n := Kept(s, fl.precision);
    var body := ShownText(s[..n], fl.alt);
    if fl.padc != '-' then Repeat(fl.padc, fl.width - n) + body
    else body + Repeat(' ', fl.width - n)
  }

  const MAXERROR := 24

  /** error_string has texts for some codes and null pointers for the rest. */
  predicate HasText(err: nat) {
    1 <= err <= 6 || 8 <= err <= 10
  }

  function ErrorString(err: nat): string
    requires HasText(err)
  {
    if err == 1 then "unspecified error"
    else if err == 2 then "bad process"
    else if err == 3 then "invalid parameter"
    else if err == 4 then "out of memory"
    else if err == 5 then "out of processes"
    else if err == 6 then "segmentation fault"
    else if err == 8 then "invalid elf file"
    else if err == 9 then "process is killed"
    else "panic failure"
  }

  function Magnitude(v: int): nat {
    if v < 0 then -v else v
  }

  function ErrorText(err: nat): string {
    if err > MAXERROR || !HasText(err) then "error " + Digits(err, 10) else ErrorString(err)
  }

  /** What a conversion of a number prints. */
  function NumberText(fl: Fields, conv: char, args: seq<Arg>): string {
    if conv == 'd' then SignedField(GetInt(args, fl.lflag), fl.width, fl.padc)
    else if conv == 'p' then "0x" + NumField(WordArg(args), 16, fl.width, fl.padc)
    else
      var base := if conv == 'u' then 10 else if conv == 'o' then 8 else 16;
      NumField(GetUInt(args, fl.lflag), base, fl.width, fl.padc)
  }

  /** What a conversion prints, and the arguments it leaves. */
  function Convert(fl: Fields, conv: char, args: seq<Arg>): (string, seq<Arg>) {
    if conv == '%' then ("%", args)
    else if conv == 'c' then ([(WordArg(args) % 256) as char], Rest(args))
    else if conv == 'e' then (ErrorText(Magnitude(IntArg(args))), Rest(args))
    else if conv == 's' then (StrField(UpToNul(StrArg(args)), fl), Rest(args))
    else (NumberText(fl, conv, args), Rest(args))
  }

  /** What modifiers and then a conversion print. */
  function Converted(fl: Fields, ms: seq<Mod>, conv: char, args: seq<Arg>): (string, seq<Arg>) {
    var (fl', rest) := ApplyMods(fl, ms, args);
    Convert(fl', conv, rest)
  }

  function RenderItem(item: Item, args: seq<Arg>): (string, seq<Arg>) {
    match item
    case Literal(c) => ([c], args)
    case Directive(mods, conv) => Converted(PLAIN, mods, conv, args)
    case Unknown(mods, text) => ("%" + text, ApplyMods(PLAIN, mods, args).1)
  }

  function Render(items: seq<Item>, args: seq<Arg>): string {
    if items == [] then []
    else
      var (s, rest) := RenderItem(items[0], args);
      s + Render(items[1..], rest)
  }

  /** The output of a format. */
  function Output(f: CString, args: seq<Arg>): string {
    Render(Parse(f, 0), args)
  }

  // ---------- what must be readable ----------

  /** The loop of %s looks at a character before it looks at the precision: memory without a
      NUL must reach one place further than the precision. */
  predicate Readable(p: seq<char>, precision: int) {
    NUL in p || 0 <= precision < |p|
  }

  /** That is exactly what the loop needs: it reads the characters that it prints, and one
      place more. */
  lemma ReadableIff(p: seq<char>, precision: int)
    ensures Readable(p, precision) <==> Kept(UpToNul(p), precision) < |p|
  {
    var t := UpToNul(p);
    if |t| == |p| {
      assert t == p;
    }
  }

  predicate ItemReadable(item: Item, args: seq<Arg>) {
    item.Directive? && item.conv == 's' ==>
      var (fl, rest) := ApplyMods(PLAIN, item.mods, args);
      Readable(StrArg(rest), fl.precision)
  }

  /** Every %s finds an argument with enough to read. */
  predicate AllReadable(items: seq<Item>, args: seq<Arg>) {
    items != [] ==> ItemReadable(items[0], args) && AllReadable(items[1..], RenderItem(items[0], args).1)
  }

  predicate Terminated(args: seq<Arg>) {
    forall i | 0 <= i < |args| && args[i].Str? :: NUL in args[i].s
  }

  lemma {:induction false} ModsKeepTerminated(fl: Fields, ms: seq<Mod>, args: seq<Arg>)
    requires Terminated(args)
    ensures Terminated(ApplyMods(fl, ms, args).1)
    decreases |ms|
  {
    if |ms| == 0 {
    } else {
      var (fl', args') := ApplyMod(fl, ms[0], args);
      ModsKeepTerminated(fl', ms[1..], args');
    }
  }

  /** C strings always suffice. */
  lemma {:induction false} TerminatedIsReadable(items: seq<Item>, args: seq<Arg>)
    requires Terminated(args)
    ensures AllReadable(items, args)
    decreases |items|
  {
    if items == [] {
    } else {
      if !items[0].Literal? {
        ModsKeepTerminated(PLAIN, items[0].mods, args);
      }
      TerminatedIsReadable(items[1..], RenderItem(items[0], args).1);
    }
  }

  // ---------- what the modifiers amount to ----------

  lemma {:induction false} ApplyConcat(fl: Fields, a: seq<Mod>, b: seq<Mod>, args: seq<Arg>)
    ensures var (fl', args') := ApplyMods(fl, a, args);
      ApplyMods(fl, a + b, args) == ApplyMods(fl', b, args')
    decreases |a|
  {
    if |a| == 0 {
      assert a + b == b;
    } else {
      var (fl', args') := ApplyMod(fl, a[0], args);
      ApplyConcat(fl', a[1..], b, args');
      assert (a + b)[1..] == a[1..] + b;
    }
  }

  predicate IsFlag(m: Mod) {
    m.Minus? || m.Zero? || m.Alt?
  }

  /** The last '-' or '0' among flags decides; c is what was there before. */
  function PadOf(flags: seq<Mod>, c: char): char {
    if flags == [] then c
    else
      var last := flags[|flags| - 1];
      if last.Minus? then '-' else if last.Zero? then '0' else PadOf(flags[..|flags| - 1], c)
  }

  lemma {:induction false} ApplyFlags(fl: Fields, flags: seq<Mod>, args: seq<Arg>)
    requires forall i | 0 <= i < |flags| :: IsFlag(flags[i])
    ensures ApplyMods(fl, flags, args)
         == (fl.(padc := PadOf(flags, fl.padc), alt := fl.alt || Alt in flags), args)
    decreases |flags|
  {
    if flags == [] {
    } else {
      var init, last := flags[..|flags| - 1], flags[|flags| - 1];
      assert flags == init + [last];
      ApplyFlags(fl, init, args);
      ApplyConcat(fl, init, [last], args);
      assert Alt in flags <==> Alt in init || last == Alt;
    }
  }

  lemma {:induction false} ApplyLongs(fl: Fields, n: nat, args: seq<Arg>)
    ensures ApplyMods(fl, seq(n, _ => Long), args) == (fl.(lflag := fl.lflag + n), args)
    decreases n
  {
    if n == 0 {
    } else {
      ApplyLongs(fl.(lflag := fl.lflag + 1), n - 1, args);
      assert seq(n, _ => Long)[1..] == seq(n - 1, _ => Long);
    }
  }

  /** A width or precision: digits, or '*' and the next argument. */
  predicate IsAmount(m: Mod) {
    m.Number? || m.Star?
  }

  function Amount(m: Mod, args: seq<Arg>): (int, seq<Arg>)
    requires IsAmount(m)
  {
    if m.Star? then (IntArg(args), Rest(args)) else (m.n, args)
  }

  predicate IsWidth(ms: seq<Mod>) {
    ms == [] || (|ms| == 1 && IsAmount(ms[0]))
  }

  predicate IsPrecision(ms: seq<Mod>) {
    ms == [] || ms == [Dot] || (|ms| == 2 && ms[0] == Dot && IsAmount(ms[1]))
  }

  lemma ApplyWidth(fl: Fields, ms: seq<Mod>, args: seq<Arg>)
    requires fl.width == fl.precision == -1 && IsWidth(ms)
    ensures ApplyMods(fl, ms, args) ==
      if ms == [] then (fl, args)
      else (fl.(width := Amount(ms[0], args).0), Amount(ms[0], args).1)
  {
  }

  lemma ApplyPrecision(fl: Fields, ms: seq<Mod>, args: seq<Arg>)
    requires fl.precision == -1 && IsPrecision(ms)
    ensures var dotted := fl.(width := Max(fl.width, 0));
      ApplyMods(fl, ms, args) ==
        if ms == [] then (fl, args)
        else if |ms| == 1 then (dotted, args)
        else (dotted.(precision := Amount(ms[1], args).0), Amount(ms[1], args).1)
  {
    if |ms| == 2 {
      assert ms == [Dot] + [ms[1]];
      ApplyConcat(fl, [Dot], [ms[1]], args);
    }
  }

  /** A directive in the order the C standard gives: flags, a width, a precision, a length.
      The last '-' or '0' decides the padding; a precision makes the width at least 0, a '.'
      alone is no precision, and each '*' takes an argument, the width's first. */
  lemma StandardOrder(flags: seq<Mod>, width: seq<Mod>, precision: seq<Mod>, longs: nat, args: seq<Arg>)
    requires forall i | 0 <= i < |flags| :: IsFlag(flags[i])
    requires IsWidth(width) && IsPrecision(precision)
    ensures
      var (w, args') := if width == [] then (-1, args) else Amount(width[0], args);
      var (p, args'') := if |precision| < 2 then (-1, args') else Amount(precision[1], args');
      ApplyMods(PLAIN, flags + width + precision + seq(longs, _ => Long), args) ==
        (Fields(PadOf(flags, ' '), if precision == [] then w else Max(w, 0), p, longs, Alt in flags), args'')
  {
    var ls := seq(longs, _ => Long);
    ApplyConcat(PLAIN, flags + width + precision, ls, args);
    ApplyConcat(PLAIN, flags + width, precision, args);
    ApplyConcat(PLAIN, flags, width, args);
    ApplyFlags(PLAIN, flags, args);
    var (fl, rest) := ApplyMods(PLAIN, flags, args);
    ApplyWidth(fl, width, rest);
    var (fl', rest') := ApplyMods(PLAIN, flags + width, args);
    ApplyPrecision(fl', precision, rest');
    var (fl'', rest'') := ApplyMods(PLAIN, flags + width + precision, args);
    ApplyLongs(fl'', longs, rest'');
  }

  /** Any negative width or precision is as good as none. */
  predicate Alike(fl: Fields, fl': Fields) {
    && fl.padc == fl'.padc && fl.lflag == fl'.lflag && fl.alt == fl'.alt
    && (fl.width == fl'.width || (fl.width < 0 && fl'.width < 0))
    && (fl.precision == fl'.precision || (fl.precision < 0 && fl'.precision < 0))
  }

  lemma {:induction false} ModsKeepAlike(fl: Fields, fl': Fields, ms: seq<Mod>, args: seq<Arg>)
    requires Alike(fl, fl')
    ensures Alike(ApplyMods(fl, ms, args).0, ApplyMods(fl', ms, args).0)
    ensures ApplyMods(fl, ms, args).1 == ApplyMods(fl', ms, args).1
    decreases |ms|
  {
    if |ms| == 0 {
    } else {
      var next, next' := ApplyMod(fl, ms[0], args), ApplyMod(fl', ms[0], args);
      ModsKeepAlike(next.0, next'.0, ms[1..], next.1);
    }
  }

  lemma AlikeNumbers(n: nat, base: nat, width: int, width': int, padc: char)
    requires 2 <= base <= 16
    requires width == width' || (width < 0 && width' < 0)
    ensures NumField(n, base, width, padc) == NumField(n, base, width', padc)
  {
  }

  lemma AlikeTexts(s: string, fl: Fields, fl': Fields)
    requires Alike(fl, fl')
    ensures StrField(s, fl) == StrField(s, fl')
  {
    var n := Kept(s, fl.precision);
    assert Kept(s, fl'.precision) == n;
    assert Repeat(fl.padc, fl.width - n) == Repeat(fl.padc, fl'.width - n);
    assert Repeat(' ', fl.width - n) == Repeat(' ', fl'.width - n);
  }

  lemma AlikeConverts(fl: Fields, fl': Fields, conv: char, args: seq<Arg>)
    requires Alike(fl, fl')
    ensures Convert(fl, conv, args) == Convert(fl', conv, args)
  {
    if conv == '%' || conv == 'c' || conv == 'e' {
    } else if conv == 's' {
      AlikeTexts(UpToNul(StrArg(args)), fl, fl');
    } else if conv == 'd' {
      AlikeNumbers(Magnitude(GetInt(args, fl.lflag)), 10, fl.width, fl'.width, fl.padc);
    } else if conv == 'p' {
      AlikeNumbers(WordArg(args), 16, fl.width, fl'.width, fl.padc);
    } else {
      AlikeNumbers(GetUInt(args, fl.lflag), if conv == 'u' then 10 else if conv == 'o' then 8 else 16,
                   fl.width, fl'.width, fl.padc);
    }
  }

  /** '*' does what the digits of its argument would; with a negative argument, it is as if
      neither the '*' nor any precision before it had been written. */
  lemma StarIsNumber(fl: Fields, ms: seq<Mod>, conv: char, args: seq<Arg>)
    ensures var n := IntArg(args);
      Converted(fl, [Star] + ms, conv, args) ==
        if n >= 0 then Converted(fl, [Number(n)] + ms, conv, Rest(args))
        else Converted(fl.(precision := -1), ms, conv, Rest(args))
  {
    var n, rest := IntArg(args), Rest(args);
    assert ([Star] + ms)[1..] == ms;
    if n >= 0 {
      assert ([Number(n)] + ms)[1..] == ms;
    } else {
      ModsKeepAlike(WithNumber(fl, n), fl.(precision := -1), ms, rest);
      AlikeConverts(ApplyMods(WithNumber(fl, n), ms, rest).0, ApplyMods(fl.(precision := -1), ms, rest).0,
                    conv, ApplyMods(WithNumber(fl, n), ms, rest).1);
    }
  }

  // ---------- field widths ----------

  /** A number field is as long as the wider of width and digits, pads before digits. */
  lemma NumFieldWidth(n: nat, base: nat, width: int, padc: char)
    requires 2 <= base <= 16
    ensures var s, d := NumField(n, base, width, padc), |Digits(n, base)|;
      && |s| == Max(width, d)
      && s[|s| - d..] == Digits(n, base)
      && forall i | 0 <= i < |s| - d :: s[i] == padc
  {
  }

  /** A string field is as long as the wider of width and the text kept, on both sides. */
  lemma StrFieldWidth(s: string, fl: Fields)
    ensures var r, n := StrField(s, fl), Kept(s, fl.precision);
      && |r| == Max(fl.width, if fl.precision < 0 then |s| else Min(|s|, fl.precision))
      && |r| == Max(fl.width, n)
      && (fl.padc == '-' ==> r[..n] == ShownText(s[..n], fl.alt) && forall i | n <= i < |r| :: r[i] == ' ')
      && (fl.padc != '-' ==>
            r[|r| - n..] == ShownText(s[..n], fl.alt) && forall i | 0 <= i < |r| - n :: r[i] == fl.padc)
  {
  }

  /** With the flag # every character of the text that is not printable comes out as '?', and
      printable text unchanged. */
  lemma {:induction false} ShownIsPrintable(s: string)
    ensures forall i | 0 <= i < |s| ::
              ShownText(s, true)[i] == if ' ' <= s[i] <= '~' then s[i] else '?'
  {
    if s == [] {
    } else {
      ShownIsPrintable(s[..|s| - 1]);
    }
  }
}
