/** What the formats of `vprintfmt` mean in terms of their text and of the slots of the
    argument list, with the letters, the ranges and the counts written out. */
module FormatLaws {
  import opened Arithmetic
  import opened CStrings
  import opened Numerals
  import opened Format
  import Printf

  // ---------- from items to text and back ----------

  const CONVERSIONS := "cesduopx%"
  const MODIFIERS := "-.*#l0123456789"

  lemma {:induction false} Letters(c: char)
    ensures IsConv(c) <==> c in CONVERSIONS
    ensures IsMod(c) <==> c in MODIFIERS
  {
  }

  /** Modifiers that a text can be read as: no number is 0 or runs into further digits. */
  ghost predicate WellMods(ms: seq<Mod>) {
    ms != [] ==>
      && (ms[0].Number? ==> ms[0].n >= 1 && (|ms| > 1 ==> !ms[1].Number? && !ms[1].Zero?))
      && WellMods(ms[1..])
  }

  ghost predicate WellItem(item: Item, last: bool) {
    match item
    case Literal(c) => c != '%' && c != NUL
    case Directive(mods, conv) => WellMods(mods) && conv in CONVERSIONS
    case Unknown(mods, text) =>
      && WellMods(mods)
      && ((last && text == ShowMods(mods))
          || (text != [] && EndsUnknown(mods, text, text[|text| - 1])))
  }

  /** A character that is neither modifier nor conversion ends the text. */
  ghost predicate EndsUnknown(mods: seq<Mod>, text: string, c: char) {
    text == ShowMods(mods) + [c] && c != NUL && c !in CONVERSIONS && c !in MODIFIERS
  }

  ghost predicate WellFormed(items: seq<Item>) {
    items != [] ==> WellItem(items[0], |items| == 1) && WellFormed(items[1..])
  }

  lemma {:induction false} NumberShape(n: nat)
    requires n >= 1
    ensures var s := Digits(n, 10);
      s[0] != '0' && (forall k | 0 <= k < |s| :: IsDecimal(s[k])) && Value(s, 10) == n
  {
    DigitsShape(n, 10);
    DigitsValue(n, 10);
    forall k | 0 <= k < |Digits(n, 10)| ensures IsDecimal(Digits(n, 10)[k]) {
      assert IsDigit(Digits(n, 10)[k], 10);
    }
  }

  /** s stands in f at place i, before the NUL. */
  ghost predicate Stands(f: seq<char>, i: nat, s: string) {
    i + |s| < |f| && f[i..i + |s|] == s
  }

  lemma {:induction false} StandsApart(f: seq<char>, i: nat, a: string, b: string)
    requires Stands(f, i, a + b)
    ensures Stands(f, i, a) && Stands(f, i + |a|, b)
  {
    var whole := f[i..i + |a + b|];
    assert f[i..i + |a|] == whole[..|a|] == (a + b)[..|a|] == a;
    assert f[i + |a|..i + |a| + |b|] == whole[|a|..] == (a + b)[|a|..] == b;
  }

  lemma {:induction false} StandsIs(f: seq<char>, i: nat, s: string)
    requires Stands(f, i, s)
    ensures s != [] ==> f[i] == s[0]
  {
    if s != [] { assert f[i..i + |s|][0] == s[0]; }
  }

  lemma {:induction false} DecimalsEndIs(f: CString, i: nat, e: nat)
    requires i <= e < |f| && !IsDecimal(f[e]) && forall k | i <= k < e :: IsDecimal(f[k])
    ensures DecimalsEnd(f, i) == e
    decreases e - i
  {
    if i == e {
    } else {
      DecimalsEndIs(f, i + 1, e);
    }
  }

  lemma {:induction false} ParseShowMod(f: CString, i: nat, m: Mod)
    requires Stands(f, i, ShowMod(m))
    requires m.Number? ==> m.n >= 1 && !IsDecimal(f[i + |ShowMod(m)|])
    ensures IsMod(f[i]) && ModAt(f, i) == (m, i + |ShowMod(m)|)
  {
    var s := ShowMod(m);
    StandsIs(f, i, s);
    if m.Number? {
      NumberShape(m.n);
      forall k | i <= k < i + |s| ensures IsDecimal(f[k]) {
        assert f[i..i + |s|][k - i] == s[k - i];
      }
      DecimalsEndIs(f, i, i + |s|);
    }
  }

  lemma {:induction false} FirstMod(f: CString, i: nat, m: Mod, rest: string) returns (j: nat)
    requires Stands(f, i, ShowMod(m) + rest) && !IsMod(f[i + |ShowMod(m) + rest|])
    requires m.Number? ==> m.n >= 1 && (rest != [] ==> !IsDecimal(rest[0]))
    ensures Stands(f, j, rest) && j + |rest| == i + |ShowMod(m) + rest|
    ensures ParseMods(f, i) == ([m] + ParseMods(f, j).0, ParseMods(f, j).1)
  {
    j := i + |ShowMod(m)|;
    StandsApart(f, i, ShowMod(m), rest);
    StandsIs(f, j, rest);
    ParseShowMod(f, i, m);
    ParseModsStep(f, i, m, j, ParseMods(f, j).0);
  }

  lemma {:induction false} ParseShowMods(f: CString, i: nat, ms: seq<Mod>)
    requires Stands(f, i, ShowMods(ms)) && WellMods(ms) && !IsMod(f[i + |ShowMods(ms)|])
    ensures ParseMods(f, i) == (ms, i + |ShowMods(ms)|)
    decreases |ms|
  {
    if ms == [] {
    } else {
      WellHead(ms);
      var j := FirstMod(f, i, ms[0], ShowMods(ms[1..]));
      ParseShowMods(f, j, ms[1..]);
      assert ms == [ms[0]] + ms[1..];
    }
  }

  lemma {:induction false} WellHead(ms: seq<Mod>)
    requires ms != [] && WellMods(ms)
    ensures var rest := ShowMods(ms[1..]);
      ms[0].Number? ==> ms[0].n >= 1 && (rest != [] ==> !IsDecimal(rest[0]))
    ensures WellMods(ms[1..]) && ShowMods(ms) == ShowMod(ms[0]) + ShowMods(ms[1..])
  {
    NoDigitFirst(ms[1..]);
  }

  /** A digit comes first only from a number or a flag 0. */
  lemma {:induction false} NoDigitFirst(ms: seq<Mod>)
    ensures var s := ShowMods(ms);
      s != [] && IsDecimal(s[0]) ==> ms != [] && (ms[0].Number? || ms[0].Zero?)
  {
    if ms != [] { assert ShowMods(ms)[0] == ShowMod(ms[0])[0]; }
  }

  lemma {:induction false} ParseModsStep(f: CString, i: nat, m: Mod, j: nat, tail: seq<Mod>)
    requires i < |f| && IsMod(f[i]) && ModAt(f, i) == (m, j) && j < |f| && ParseMods(f, j).0 == tail
    ensures ParseMods(f, i) == ([m] + tail, ParseMods(f, j).1)
  {
  }

  /** A directive or an unknown one: the modifiers, and one character or the NUL. */
  lemma {:induction false} DirectiveStands(f: seq<char>, i: nat, mods: string, after: string)
    requires Stands(f, i, "%" + (mods + after))
    ensures f[i] == '%' && Stands(f, i + 1, mods) && Stands(f, i + 1 + |mods|, after)
    ensures f[i + 1..i + 1 + |mods| + |after|] == mods + after
    ensures after != [] ==> f[i + 1 + |mods|] == after[0]
  {
    StandsApart(f, i, "%", mods + after);
    StandsIs(f, i, "%");
    StandsApart(f, i + 1, mods, after);
    StandsIs(f, i + 1 + |mods|, after);
  }

  lemma {:induction false} ParseShowDirective(f: CString, i: nat, mods: seq<Mod>, conv: char)
    requires Stands(f, i, "%" + (ShowMods(mods) + [conv])) && WellMods(mods) && !IsMod(conv)
    ensures f[i] == '%' && ParseMods(f, i + 1) == (mods, i + 1 + |ShowMods(mods)|)
    ensures f[i + 1 + |ShowMods(mods)|] == conv
  {
    DirectiveStands(f, i, ShowMods(mods), [conv]);
    ParseShowMods(f, i + 1, mods);
  }

  lemma {:induction false} ReadDirective(f: CString, i: nat, mods: seq<Mod>, conv: char)
    requires Stands(f, i, ShowItem(Directive(mods, conv))) && WellMods(mods) && conv in CONVERSIONS
    ensures f[i] == '%' && ItemAt(f, i) == (Directive(mods, conv), i + |ShowItem(Directive(mods, conv))|)
  {
    Letters(conv);
    Printf.Associate("%", ShowMods(mods), [conv]);
    ParseShowDirective(f, i, mods, conv);
  }

  lemma {:induction false} ReadUnknown(f: CString, i: nat, mods: seq<Mod>, c: char)
    requires Stands(f, i, "%" + (ShowMods(mods) + [c])) && WellMods(mods)
    requires c != NUL && c !in CONVERSIONS && c !in MODIFIERS
    ensures f[i] == '%' && ItemAt(f, i) == (Unknown(mods, ShowMods(mods) + [c]), i + 2 + |ShowMods(mods)|)
  {
    Letters(c);
    ParseShowDirective(f, i, mods, c);
    DirectiveStands(f, i, ShowMods(mods), [c]);
    UnknownAt(f, i, mods, ShowMods(mods) + [c], i + 1 + |ShowMods(mods)|);
  }

  lemma {:induction false} UnknownAt(f: CString, i: nat, mods: seq<Mod>, text: string, j: nat)
    requires i + 1 < |f| && f[i] == '%' && ParseMods(f, i + 1) == (mods, j)
    requires f[j] != NUL && !IsConv(f[j]) && j + 1 < |f| && f[i + 1..j + 1] == text
    ensures ItemAt(f, i) == (Unknown(mods, text), j + 1)
  {
  }

  lemma {:induction false} ReadCutOff(f: CString, i: nat, mods: seq<Mod>)
    requires Stands(f, i, "%" + ShowMods(mods)) && WellMods(mods) && f[i + 1 + |ShowMods(mods)|] == NUL
    ensures f[i] == '%' && ItemAt(f, i) == (Unknown(mods, ShowMods(mods)), i + 1 + |ShowMods(mods)|)
  {
    assert ShowMods(mods) + [] == ShowMods(mods);
    DirectiveStands(f, i, ShowMods(mods), []);
    ParseShowMods(f, i + 1, mods);
  }

  lemma {:induction false} ReadUnknownItem(f: CString, i: nat, mods: seq<Mod>, text: string, last: bool)
    requires Stands(f, i, "%" + text) && WellItem(Unknown(mods, text), last)
    requires last ==> f[i + 1 + |text|] == NUL
    ensures f[i] == '%' && ItemAt(f, i) == (Unknown(mods, text), i + 1 + |text|)
  {
    if last && text == ShowMods(mods) {
      ReadCutOff(f, i, mods);
    } else {
      ReadUnknown(f, i, mods, text[|text| - 1]);
    }
  }

  lemma {:induction false} ParseShowItem(f: CString, i: nat, item: Item, last: bool)
    requires Stands(f, i, ShowItem(item)) && WellItem(item, last)
    requires last ==> f[i + |ShowItem(item)|] == NUL
    ensures f[i] != NUL && ItemAt(f, i) == (item, i + |ShowItem(item)|)
  {
    match item
    case Literal(c) =>
      StandsIs(f, i, [c]);
    case Directive(mods, conv) =>
      ReadDirective(f, i, mods, conv);
    case Unknown(mods, text) =>
      ReadUnknownItem(f, i, mods, text, last);
  }

  lemma {:induction false} ParseShowCons(f: CString, i: nat, item: Item, last: bool, j: nat)
    requires Stands(f, i, ShowItem(item)) && WellItem(item, last) && j == i + |ShowItem(item)|
    requires last ==> f[j] == NUL
    ensures f[i] != NUL && Parse(f, i) == [item] + Parse(f, j)
  {
    ParseShowItem(f, i, item, last);
    ParseStep(f, i, item, j, Parse(f, j));
  }

  /** The NUL ends what is left. */
  lemma {:induction false} EndsAfter(f: CString, i: nat, a: string, b: string)
    requires Stands(f, i, a + b) && i + |a + b| == |f| - 1
    ensures Stands(f, i, a) && Stands(f, i + |a|, b) && i + |a| + |b| == |f| - 1
    ensures b == [] ==> f[i + |a|] == NUL
  {
    StandsApart(f, i, a, b);
  }

  lemma {:induction false} ParseFirst(f: CString, i: nat, item: Item, tail: string, last: bool) returns (j: nat)
    requires Stands(f, i, ShowItem(item) + tail) && i + |ShowItem(item) + tail| == |f| - 1
    requires WellItem(item, last) && (last ==> tail == [])
    ensures Stands(f, j, tail) && j + |tail| == |f| - 1
    ensures Parse(f, i) == [item] + Parse(f, j)
  {
    j := i + |ShowItem(item)|;
    EndsAfter(f, i, ShowItem(item), tail);
    ParseShowCons(f, i, item, last, j);
  }

  lemma {:induction false} NothingLeft(tail: seq<Item>)
    ensures tail == [] ==> Show(tail) == []
  {
  }

  lemma {:induction false} ParseShowFrom(f: CString, i: nat, items: seq<Item>)
    requires Stands(f, i, Show(items)) && i + |Show(items)| == |f| - 1 && WellFormed(items)
    ensures Parse(f, i) == items
    decreases |items|
  {
    if items == [] {
      assert f[i] == NUL;
      ParseEnd(f, i);
    } else {
      NothingLeft(items[1..]);
      var j := ParseFirst(f, i, items[0], Show(items[1..]), |items| == 1);
      ParseShowFrom(f, j, items[1..]);
      assert items == [items[0]] + items[1..];
    }
  }

  lemma {:induction false} ParseEnd(f: CString, i: nat)
    requires i < |f| && f[i] == NUL
    ensures Parse(f, i) == []
  {
  }

  lemma {:induction false} ParseStep(f: CString, i: nat, item: Item, j: nat, tail: seq<Item>)
    requires i < |f| && f[i] != NUL && ItemAt(f, i) == (item, j) && j < |f| && Parse(f, j) == tail
    ensures Parse(f, i) == [item] + tail
  {
  }

  lemma {:induction false} ModsHaveNoNul(ms: seq<Mod>)
    ensures NUL !in ShowMods(ms)
  {
    if ms == [] {
    } else {
      ModsHaveNoNul(ms[1..]);
      if ms[0].Number? { DigitsShape(ms[0].n, 10); }
    }
  }

  lemma {:induction false} ShowHasNoNul(items: seq<Item>)
    requires WellFormed(items)
    ensures NUL !in Show(items)
  {
    if items == [] {
    } else {
      ShowHasNoNul(items[1..]);
      ItemHasNoNul(items[0], |items| == 1);
      assert Show(items) == ShowItem(items[0]) + Show(items[1..]);
    }
  }

  lemma {:induction false} ItemHasNoNul(item: Item, last: bool)
    requires WellItem(item, last)
    ensures NUL !in ShowItem(item)
  {
    if !item.Literal? { ModsHaveNoNul(item.mods); }
  }

  /** Every text of well-formed items is read as these items. */
  lemma {:induction false} ParseShow(items: seq<Item>)
    requires WellFormed(items)
    ensures NUL !in Show(items) && Parse(Terminate(Show(items)), 0) == items
  {
    ShowHasNoNul(items);
    ParseShowFrom(Terminate(Show(items)), 0, items);
  }

  lemma {:induction false} ModIsWell(f: CString, i: nat)
    requires i < |f| && IsMod(f[i])
    ensures var (m, j) := ModAt(f, i);
      && (m.Number? ==> m.n >= 1 && !IsDecimal(f[j]))
      && (m.Number? || m.Zero? ==> IsDecimal(f[i]))
  {
    if IsDecimal(f[i]) && f[i] != '0' {
      var e := DecimalsEnd(f, i);
      var run := f[i..e];
      assert run[0] == f[i];
      forall k | 0 <= k < |run| ensures '0' <= run[k] <= '9' {
        assert IsDecimal(f[i + k]);
      }
      DecimalCanonical(run);
    }
  }

  lemma {:induction false} ModsAreWell(f: CString, i: nat)
    requires i < |f|
    ensures var ms := ParseMods(f, i).0;
      WellMods(ms) && (ms != [] && (ms[0].Number? || ms[0].Zero?) ==> IsDecimal(f[i]))
    decreases |f| - i
  {
    if !IsMod(f[i]) {
    } else {
      var (m, j) := ModAt(f, i);
      var ms := ParseMods(f, j).0;
      ModIsWell(f, i);
      ModsAreWell(f, j);
      assert ([m] + ms)[1..] == ms;
    }
  }

  lemma {:induction false} ItemIsWell(f: CString, i: nat)
    requires i < |f| && f[i] != NUL
    ensures var (item, j) := ItemAt(f, i); WellItem(item, f[j] == NUL)
  {
    if f[i] == '%' {
      var (mods, j) := ParseMods(f, i + 1);
      ModsAreWell(f, i + 1);
      ShowParseMods(f, i + 1);
      Letters(f[j]);
      if f[j] != NUL && !IsConv(f[j]) {
        assert f[i + 1..j + 1] == ShowMods(mods) + [f[j]];
        assert EndsUnknown(mods, f[i + 1..j + 1], f[j]);
      }
    }
  }

  /** Reading a text yields well-formed items only. */
  lemma {:induction false} ParseIsWell(f: CString, i: nat)
    requires i < |f|
    ensures WellFormed(Parse(f, i))
    decreases |f| - i
  {
    if f[i] == NUL {
    } else {
      var (item, j) := ItemAt(f, i);
      ItemIsWell(f, i);
      ParseIsWell(f, j);
      assert ([item] + Parse(f, j))[1..] == Parse(f, j);
      assert Parse(f, j) == [] <==> f[j] == NUL;
    }
  }

  // ---------- which arguments an item takes ----------

  function Stars(ms: seq<Mod>): nat {
    if ms == [] then 0 else (if ms[0] == Star then 1 else 0) + Stars(ms[1..])
  }

  /** How many arguments: one for each '*', and one for a conversion that is not '%'. */
  function Arity(item: Item): nat {
    match item
    case Literal(_) => 0
    case Directive(mods, conv) => Stars(mods) + if conv == '%' then 0 else 1
    case Unknown(mods, _) => Stars(mods)
  }

  /** How many the items before item k take together. */
  function TakenBefore(items: seq<Item>, k: nat): nat
    requires k <= |items|
  {
    if k == 0 then 0 else TakenBefore(items, k - 1) + Arity(items[k - 1])
  }

  function Drop(args: seq<Arg>, n: nat): seq<Arg> {
    if n <= |args| then args[n..] else []
  }

  lemma {:induction false} DropMore(args: seq<Arg>, n: nat, m: nat)
    ensures Drop(Drop(args, n), m) == Drop(args, n + m)
    ensures Rest(Drop(args, n)) == Drop(args, n + 1)
  {
  }

  lemma {:induction false} ModsTake(fl: Fields, ms: seq<Mod>, args: seq<Arg>)
    ensures ApplyMods(fl, ms, args).1 == Drop(args, Stars(ms))
    decreases |ms|
  {
    if ms == [] {
    } else {
      var (fl', args') := ApplyMod(fl, ms[0], args);
      ModsTake(fl', ms[1..], args');
      DropMore(args, if ms[0] == Star then 1 else 0, Stars(ms[1..]));
      assert Rest(args) == Drop(args, 1) && args == Drop(args, 0);
    }
  }

  /** An item leaves what it does not take. */
  lemma {:induction false} ItemTakes(item: Item, args: seq<Arg>)
    ensures RenderItem(item, args).1 == Drop(args, Arity(item))
  {
    if !item.Literal? {
      ModsTake(PLAIN, item.mods, args);
      DropMore(args, Stars(item.mods), 1);
    }
  }

  ghost function Piece(items: seq<Item>, args: seq<Arg>, k: nat): string
    requires k < |items|
  {
    RenderItem(items[k], Drop(args, TakenBefore(items, k))).0
  }

  ghost function Join(pieces: seq<string>): string {
    if pieces == [] then [] else pieces[0] + Join(pieces[1..])
  }

  lemma {:induction false} TakenAfterFirst(items: seq<Item>, k: nat)
    requires k < |items|
    ensures TakenBefore(items, k + 1) == Arity(items[0]) + TakenBefore(items[1..], k)
    decreases k
  {
    if k == 0 {
      assert TakenBefore(items, 1) == TakenBefore(items, 0) + Arity(items[0]);
    } else {
      TakenAfterFirst(items, k - 1);
    }
  }

  /** The output, piece by piece: item k is rendered on what the items before it have left,
      which is all but as many arguments as they count up to. */
  lemma {:induction false} RenderPieces(items: seq<Item>, args: seq<Arg>, pieces: seq<string>)
    requires |pieces| == |items| && forall k | 0 <= k < |items| :: pieces[k] == Piece(items, args, k)
    ensures Render(items, args) == Join(pieces)
    decreases |items|
  {
    if items == [] {
    } else {
      var rest := RenderItem(items[0], args).1;
      ItemTakes(items[0], args);
      forall k | 0 <= k < |items| - 1 ensures pieces[1..][k] == Piece(items[1..], rest, k) {
        TakenAfterFirst(items, k);
        DropMore(args, Arity(items[0]), TakenBefore(items[1..], k));
        assert pieces[k + 1] == Piece(items, args, k + 1);
      }
      RenderPieces(items[1..], rest, pieces[1..]);
      assert pieces[0] == Piece(items, args, 0) && Drop(args, 0) == args;
    }
  }

  // ---------- what all the modifiers of a directive amount to ----------

  function Longs(ms: seq<Mod>): nat {
    if ms == [] then 0 else (if ms[0] == Long then 1 else 0) + Longs(ms[1..])
  }

  /** In whatever order: the l's are counted, a '#' anywhere counts, and the last '-' or '0'
      decides the padding. */
  lemma {:induction false} ModsAmountTo(fl: Fields, ms: seq<Mod>, args: seq<Arg>)
    ensures var fl' := ApplyMods(fl, ms, args).0;
      fl'.lflag == fl.lflag + Longs(ms) && (fl'.alt <==> fl.alt || Alt in ms) && fl'.padc == PadOf(ms, fl.padc)
    decreases |ms|
  {
    if ms == [] {
    } else {
      var (fl', args') := ApplyMod(fl, ms[0], args);
      ModsAmountTo(fl', ms[1..], args');
      PadOfFirst(ms, fl.padc);
      assert Alt in ms <==> ms[0] == Alt || Alt in ms[1..];
    }
  }

  lemma {:induction false} PadOfFirst(ms: seq<Mod>, c: char)
    requires ms != []
    ensures PadOf(ms, c) == PadOf(ms[1..], if ms[0].Minus? then '-' else if ms[0].Zero? then '0' else c)
    decreases |ms|
  {
    var init := ms[..|ms| - 1];
    if |ms| == 1 {
      assert init == [] && ms[1..] == [];
    } else {
      PadOfFirst(init, c);
      assert ms[1..][..|ms| - 2] == init[1..];
    }
  }

  // ---------- the number a conversion prints ----------

  /** n letters l. */
  function Ells(n: nat): seq<Mod> {
    seq(n, _ => Long)
  }

  lemma {:induction false} EllsAre(n: nat)
    ensures Longs(Ells(n)) == n && Stars(Ells(n)) == 0 && WellMods(Ells(n)) && ShowMods(Ells(n)) == Repeat('l', n)
  {
    if n == 0 {
    } else {
      EllsAre(n - 1);
      assert Ells(n)[1..] == Ells(n - 1);
    }
  }

  /** s is the least text for v in the base, in lower case. */
  ghost predicate Denotes(s: string, base: int, v: int) {
    && s != [] && (forall c | c in s :: '0' <= c <= '9' || 'a' <= c <= 'f') && AllDigits(s, base)
    && Value(s, base) == v && (s[0] == '0' ==> |s| == 1)
  }

  lemma {:induction false} DigitsDenote(n: nat, base: nat)
    requires 2 <= base <= 16
    ensures Denotes(Digits(n, base), base, n) && NumField(n, base, -1, ' ') == Digits(n, base)
  {
    DigitsShape(n, base);
    DigitsValue(n, base);
    assert Repeat(' ', -1 - |Digits(n, base)|) == [];
  }

  /** Formatting this text with these arguments yields out. */
  ghost predicate Prints(text: string, args: seq<Arg>, out: string) {
    NUL !in text && Output(Terminate(text), args) == out
  }

  lemma {:induction false} ItemsPrint(items: seq<Item>, args: seq<Arg>)
    requires WellFormed(items)
    ensures Prints(Show(items), args, Render(items, args))
  {
    ParseShow(items);
  }

  lemma {:induction false} OnePrints(item: Item, args: seq<Arg>)
    requires WellItem(item, true)
    ensures Prints(ShowItem(item), args, RenderItem(item, args).0)
  {
    var (s, rest) := RenderItem(item, args);
    assert [item][1..] == [] && ShowItem(item) + Show([]) == ShowItem(item) && s + Render([], rest) == s;
    ItemsPrint([item], args);
  }

  lemma {:induction false} EllsText(n: nat, conv: char)
    requires conv in CONVERSIONS
    ensures ShowItem(Directive(Ells(n), conv)) == "%" + Repeat('l', n) + [conv]
    ensures WellItem(Directive(Ells(n), conv), true)
  {
    EllsAre(n);
  }

  lemma {:induction false} EllsRender(n: nat, conv: char, args: seq<Arg>)
    ensures RenderItem(Directive(Ells(n), conv), args) == Convert(PLAIN.(lflag := n), conv, args)
  {
    ApplyLongs(PLAIN, n, args);
  }

  /** A conversion with n letters l. */
  lemma {:induction false} EllsPrint(n: nat, conv: char, args: seq<Arg>, out: string)
    requires conv in CONVERSIONS && Convert(PLAIN.(lflag := n), conv, args).0 == out
    ensures Prints("%" + Repeat('l', n) + [conv], args, out)
  {
    EllsText(n, conv);
    EllsRender(n, conv, args);
    OnePrints(Directive(Ells(n), conv), args);
  }

  lemma {:induction false} PlainField(n: nat, base: nat, fl: Fields)
    requires 2 <= base <= 16 && fl.width == -1
    ensures NumField(n, base, fl.width, fl.padc) == Digits(n, base)
  {
    assert Repeat(fl.padc, -1 - |Digits(n, base)|) == [];
  }

  lemma {:induction false} UnsignedConvert(n: nat, conv: char, w: uint64, base: nat)
    requires (conv == 'u' && base == 10) || (conv == 'o' && base == 8) || (conv == 'x' && base == 16)
    ensures Convert(PLAIN.(lflag := n), conv, [Word(w)]).0 == Digits(if n == 0 then w % WORD32 else w, base)
  {
    PlainField(if n == 0 then w % WORD32 else w, base, PLAIN.(lflag := n));
  }

  /** The number that n letters l make of the slot w: its low 32 bits or all 64, in two's
      complement. */
  function SignedBits(n: nat, w: uint64): int {
    if n == 0 then (w + 0x8000_0000) % 0x1_0000_0000 - 0x8000_0000
    else (w + 0x8000_0000_0000_0000) % 0x1_0000_0000_0000_0000 - 0x8000_0000_0000_0000
  }

  lemma {:induction false} SignedIs(n: nat, args: seq<Arg>)
    ensures GetInt(args, n) == SignedBits(n, WordArg(args))
  {
  }

  /** What %d with n letters l prints of a slot. */
  ghost function SignedText(n: nat, w: uint64): string {
    var v := SignedBits(n, w);
    if v < 0 then "-" + Digits(-v, 10) else Digits(v, 10)
  }

  lemma {:induction false} SignedConvert(n: nat, args: seq<Arg>)
    ensures Convert(PLAIN.(lflag := n), 'd', args).0 == SignedText(n, WordArg(args))
  {
    SignedIs(n, args);
    PlainField(Magnitude(SignedBits(n, WordArg(args))), 10, PLAIN.(lflag := n));
  }

  /** %u, %o and %x, with n letters l, of the slot w: the low 32 bits of it, or all 64. */
  lemma {:induction false} UnsignedOutput(n: nat, conv: char, w: uint64) returns (s: string)
    requires conv == 'u' || conv == 'o' || conv == 'x'
    ensures Prints("%" + Repeat('l', n) + [conv], [Word(w)], s)
    ensures Denotes(s, if conv == 'u' then 10 else if conv == 'o' then 8 else 16,
                    if n == 0 then w % 0x1_0000_0000 else w)
  {
    var base := if conv == 'u' then 10 else if conv == 'o' then 8 else 16;
    s := Digits(if n == 0 then w % WORD32 else w, base);
    DigitsDenote(if n == 0 then w % WORD32 else w, base);
    UnsignedConvert(n, conv, w, base);
    EllsPrint(n, conv, [Word(w)], s);
  }

  /** A '-' and then a positive number, or a number that is not negative. */
  ghost predicate DenotesSigned(s: string, v: int) {
    if v < 0 then s != [] && s[0] == '-' && Denotes(s[1..], 10, -v) else Denotes(s, 10, v)
  }

  lemma {:induction false} SignedTextDenotes(n: nat, w: uint64)
    ensures DenotesSigned(SignedText(n, w), SignedBits(n, w))
  {
    var v := SignedBits(n, w);
    DigitsDenote(Magnitude(v), 10);
    assert ("-" + Digits(Magnitude(v), 10))[1..] == Digits(Magnitude(v), 10);
  }

  /** %d: the low 32 bits, or all 64, as a number in two's complement. */
  lemma {:induction false} SignedOutput(n: nat, w: uint64) returns (s: string)
    ensures Prints("%" + Repeat('l', n) + "d", [Word(w)], s) && DenotesSigned(s, SignedBits(n, w))
  {
    s := SignedText(n, w);
    SignedConvert(n, [Word(w)]);
    EllsPrint(n, 'd', [Word(w)], s);
    SignedTextDenotes(n, w);
  }

  lemma {:induction false} PointerPrints(args: seq<Arg>, n: nat)
    requires WordArg(args) == n
    ensures Prints("%p", args, "0x" + Digits(n, 16))
  {
    assert "%" + Repeat('l', 0) + "p" == "%p";
    PlainField(n, 16, PLAIN);
    EllsPrint(0, 'p', args, "0x" + Digits(n, 16));
  }

  /** %p: 0x and all 64 bits, of a word or of where a string is. */
  lemma {:induction false} PointerOutput(w: uint64, at: pointer, s: seq<char>) returns (d: string, e: string)
    ensures Prints("%p", [Word(w)], "0x" + d) && Denotes(d, 16, w)
    ensures Prints("%p", [Str(at, s)], "0x" + e) && Denotes(e, 16, at)
    ensures Prints("%p", [Null], "0x" + "0")
  {
    d, e := Digits(w, 16), Digits(at, 16);
    DigitsDenote(w, 16);
    DigitsDenote(at, 16);
    PointerPrints([Word(w)], w);
    PointerPrints([Str(at, s)], at);
    assert Digits(0, 16) == "0";
    PointerPrints([Null], 0);
  }

  /** %c: the low 8 bits. */
  lemma {:induction false} CharOutput(w: uint64)
    ensures Prints("%c", [Word(w)], [(w % 256) as char])
  {
    assert "%" + Repeat('l', 0) + "c" == "%c";
    EllsPrint(0, 'c', [Word(w)], [(w % 256) as char]);
  }

  /** %% takes no argument. */
  lemma {:induction false} PercentOutput(args: seq<Arg>)
    ensures Prints("%%", args, "%")
  {
    assert "%" + Repeat('l', 0) + "%" == "%%";
    EllsPrint(0, '%', args, "%");
  }

  /** %s of a null pointer. */
  lemma {:induction false} NullOutput()
    ensures Prints("%s", [Null], "(null)")
  {
    assert "%" + Repeat('l', 0) + "s" == "%s";
    var m: CString := "(null)" + [NUL];
    assert StrArg([Null]) == m && Text(m) == "(null)";
    UpToNulIsText(m);
    Printf.PlainString("(null)");
    EllsPrint(0, 's', [Null], "(null)");
  }

  // ---------- formats with several items ----------

  lemma {:induction false} ConsText(item: Item, items: seq<Item>)
    requires WellItem(item, items == []) && WellFormed(items)
    ensures WellFormed([item] + items) && Show([item] + items) == ShowItem(item) + Show(items)
  {
    assert ([item] + items)[1..] == items;
  }

  lemma {:induction false} ConsRender(item: Item, items: seq<Item>, args: seq<Arg>)
    ensures Render([item] + items, args) == RenderItem(item, args).0 + Render(items, Drop(args, Arity(item)))
  {
    assert ([item] + items)[1..] == items;
    ItemTakes(item, args);
  }

  lemma {:induction false} PlainItem(conv: char, args: seq<Arg>)
    ensures RenderItem(Directive([], conv), args) == Convert(PLAIN.(lflag := 0), conv, args)
  {
    assert Ells(0) == [];
    EllsRender(0, conv, args);
  }

  /** The next argument is what is converted. */
  lemma {:induction false} SignedItem(w: uint64, args: seq<Arg>, conv: char)
    requires args != [] && args[0] == Word(w) && conv == 'd'
    ensures RenderItem(Directive([], conv), args).0 == SignedText(0, w)
  {
    PlainItem(conv, args);
    SignedConvert(0, args);
  }

  const NUMBER := Directive([], 'd')

  lemma {:induction false} TwoNumbersText()
    ensures WellFormed([NUMBER] + ([Literal(' ')] + [NUMBER]))
    ensures Show([NUMBER] + ([Literal(' ')] + [NUMBER])) == "%d %d"
  {
    assert [NUMBER] + [] == [NUMBER] && ShowItem(NUMBER) == "%" + [] + "d" == "%d";
    ConsText(NUMBER, []);
    ConsText(Literal(' '), [NUMBER]);
    ConsText(NUMBER, [Literal(' ')] + [NUMBER]);
  }

  lemma {:induction false} TwoNumbersRender(a: uint64, b: uint64)
    ensures Render([NUMBER] + ([Literal(' ')] + [NUMBER]), [Word(a), Word(b)])
         == SignedText(0, a) + (" " + (SignedText(0, b) + []))
  {
    var args, rest := [Word(a), Word(b)], [Word(b)];
    assert Drop(args, 1) == rest && Drop(rest, 0) == rest && Drop(rest, 1) == [];
    ConsRender(NUMBER, [Literal(' ')] + [NUMBER], args);
    ConsRender(Literal(' '), [NUMBER], rest);
    assert [NUMBER] + [] == [NUMBER];
    ConsRender(NUMBER, [], rest);
    SignedItem(a, args, 'd');
    SignedItem(b, rest, 'd');
  }

  /** "%d %d" prints its two arguments, in that order. */
  lemma {:induction false} TwoNumbers(a: uint64, b: uint64)
    ensures Prints("%d %d", [Word(a), Word(b)], SignedText(0, a) + " " + SignedText(0, b))
    ensures DenotesSigned(SignedText(0, a), SignedBits(0, a)) && DenotesSigned(SignedText(0, b), SignedBits(0, b))
  {
    TwoNumbersText();
    TwoNumbersRender(a, b);
    assert SignedText(0, a) + (" " + (SignedText(0, b) + [])) == SignedText(0, a) + " " + SignedText(0, b);
    ItemsPrint([NUMBER] + ([Literal(' ')] + [NUMBER]), [Word(a), Word(b)]);
    SignedTextDenotes(0, a);
    SignedTextDenotes(0, b);
  }

  lemma {:induction false} OneTwo(one: uint64, two: uint64)
    requires one == 1 && two == 2
    ensures Prints("%d %d", [Word(one), Word(two)], "1 2")
  {
    TwoNumbers(one, two);
    assert SignedText(0, one) == "1" && SignedText(0, two) == "2";
    assert "1" + " " + "2" == "1 2";
  }

  // ---------- padding ----------

  lemma {:induction false} DirectivePrints(mods: seq<Mod>, conv: char, args: seq<Arg>, text: string, out: string)
    requires WellMods(mods) && conv in CONVERSIONS && ShowMods(mods) == text
    requires RenderItem(Directive(mods, conv), args).0 == out
    ensures Prints("%" + text + [conv], args, out)
  {
    OnePrints(Directive(mods, conv), args);
  }

  predicate IsFlagText(flag: string, pad: char) {
    (flag == "" && pad == ' ') || (flag == "-" && pad == '-') || (flag == "0" && pad == '0')
  }

  /** A flag or none, a width and a number: blanks for no flag, the flag's own character
      otherwise, and always on the left. */
  lemma {:induction false} PaddedOutput(flag: string, pad: char, width: nat, w: uint64, s: string)
    requires width >= 1 && IsFlagText(flag, pad) && s == Digits(w % 0x1_0000_0000, 10)
    ensures Prints("%" + (flag + Digits(width, 10)) + "u", [Word(w)], Repeat(pad, width - |s|) + s)
  {
    PaddedPrints(flag, pad, width, [Word(w)], 'u', Repeat(pad, width - |s|) + s);
  }

  lemma {:induction false} PaddedPrints(flag: string, pad: char, width: nat, args: seq<Arg>, conv: char, out: string)
    requires width >= 1 && IsFlagText(flag, pad) && conv == 'u'
    requires out == NumField(WordArg(args) % WORD32, 10, width, pad)
    ensures Prints("%" + (flag + Digits(width, 10)) + [conv], args, out)
  {
    FlagText(flag, pad, width);
    PaddedRender(flag, pad, width, args);
    DirectivePrints(FlagMods(flag) + [Number(width)], conv, args, flag + Digits(width, 10), out);
  }

  lemma {:induction false} PaddedRender(flag: string, pad: char, width: nat, args: seq<Arg>)
    requires width >= 1 && IsFlagText(flag, pad)
    ensures RenderItem(Directive(FlagMods(flag) + [Number(width)], 'u'), args).0
         == NumField(WordArg(args) % WORD32, 10, width, pad)
  {
    FlagFields(flag, pad, width, args);
    UnsignedField(PLAIN.(padc := pad, width := width), args);
  }

  lemma {:induction false} UnsignedField(fl: Fields, args: seq<Arg>)
    requires fl.lflag == 0
    ensures Convert(fl, 'u', args).0 == NumField(WordArg(args) % WORD32, 10, fl.width, fl.padc)
  {
  }

  function FlagMods(flag: string): seq<Mod> {
    if flag == "-" then [Minus] else if flag == "0" then [Zero] else []
  }

  lemma {:induction false} FlagText(flag: string, pad: char, width: nat)
    requires width >= 1 && IsFlagText(flag, pad)
    ensures var mods := FlagMods(flag) + [Number(width)];
      ShowMods(mods) == flag + Digits(width, 10) && WellMods(mods)
  {
    var n := [Number(width)];
    assert n[1..] == [] && ShowMods(n) == Digits(width, 10) + [] == Digits(width, 10);
    if flag == "" {
      assert [] + n == n && flag + Digits(width, 10) == Digits(width, 10);
    } else {
      assert (FlagMods(flag) + n)[1..] == n;
    }
  }

  lemma {:induction false} FlagFields(flag: string, pad: char, width: nat, args: seq<Arg>)
    requires width >= 1 && IsFlagText(flag, pad)
    ensures ApplyMods(PLAIN, FlagMods(flag) + [Number(width)], args) == (PLAIN.(padc := pad, width := width), args)
  {
    ApplyConcat(PLAIN, FlagMods(flag), [Number(width)], args);
  }

  // ---------- errors ----------

  const MESSAGES := ["", "unspecified error", "bad process", "invalid parameter", "out of memory",
                     "out of processes", "segmentation fault", "", "invalid elf file",
                     "process is killed", "panic failure"]

  lemma {:induction false} Messages(k: nat)
    ensures ErrorText(k) == if k < 11 && MESSAGES[k] != "" then MESSAGES[k] else "error " + Digits(k, 10)
  {
  }

  /** %e of a code or of its negation: the message for it, or its number. */
  lemma {:induction false} ErrorOutput(w: uint64)
    ensures var v := SignedBits(0, w);
      var k := if v < 0 then -v else v;
      Prints("%e", [Word(w)], if k < 11 && MESSAGES[k] != "" then MESSAGES[k] else "error " + Digits(k, 10))
  {
    var v := SignedBits(0, w);
    SignedIs(0, [Word(w)]);
    Messages(Magnitude(v));
    assert "%" + Repeat('l', 0) + "e" == "%e";
    EllsPrint(0, 'e', [Word(w)], ErrorText(Magnitude(v)));
  }

  /** What vsnprintf returns for a null buffer is the code of its message. */
  lemma {:induction false} InvalidParameter()
    ensures MESSAGES[Printf.E_INVAL] == "invalid parameter"
  {
  }
}
