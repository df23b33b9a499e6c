/** `forktree.c`: a process prints its label and forks a child for each of two longer
    labels, to a given depth; the processes then run in any order. */
module ForkTree {
  import opened Arithmetic
  import opened CStrings
  import opened Format
  import Printf

  // ---------- the label of a child ----------

  const LABEL_FORMAT: CString := "%s%c" + [NUL]

  ghost predicate IsLabelFormat(f: CString) {
    |f| == 5 && f[0] == '%' && f[1] == 's' && f[2] == '%' && f[3] == 'c'
  }

  /** The two items of the format, one after the other. */
  lemma {:induction false} LabelItems(f: CString, args: seq<Arg>)
    requires IsLabelFormat(f)
    ensures var s := Convert(PLAIN, 's', args); var c := Convert(PLAIN, 'c', s.1);
      Output(f, args) == s.0 + c.0
  {
    assert f[4] == NUL;
    assert ParseMods(f, 1) == ([], 1) && ParseMods(f, 3) == ([], 3);
    Printf.RenderDirective(f, 0, args);
    var rest := Convert(PLAIN, 's', args).1;
    Printf.RenderDirective(f, 2, rest);
    Printf.RenderEnd(f, 4, Convert(PLAIN, 'c', rest).1);
    assert Convert(PLAIN, 'c', rest).0 + [] == Convert(PLAIN, 'c', rest).0;
  }

  lemma {:induction false} LabelOutput(at: pointer, cur: CString, branch: char)
    requires branch as int < 256
    ensures Output(LABEL_FORMAT, [Str(at, cur), Word(branch as int)]) == Text(cur) + [branch]
  {
    LabelItems(LABEL_FORMAT, [Str(at, cur), Word(branch as int)]);
    LabelParts(at, cur, branch);
  }

  lemma {:induction false} LabelParts(at: pointer, cur: CString, branch: char)
    requires branch as int < 256
    ensures var rest := [Word(branch as int)];
      && Convert(PLAIN, 's', [Str(at, cur)] + rest) == (Text(cur), rest)
      && [Str(at, cur), Word(branch as int)] == [Str(at, cur)] + rest
      && Convert(PLAIN, 'c', rest).0 == [branch]
  {
    var rest := [Word(branch as int)];
    assert Rest([Str(at, cur)] + rest) == rest;
    UpToNulIsText(cur);
    Printf.PlainString(Text(cur));
  }

  predicate IsBranch(c: char) { c == '0' || c == '1' }

  /** What snprintf leaves in nxt, a buffer of depth + 1 bytes.  The output does not depend on
      where the parent's label stands. */
  function ChildLabel(depth: nat, cur: string, branch: char): string
    requires IsBranch(branch)
  {
    Printf.Truncated(Output(LABEL_FORMAT, [Str(1, cur + [NUL]), Word(branch as int)]), depth + 1)
  }

  /** Below the depth the whole label fits. */
  lemma ChildLabelIs(depth: nat, cur: string, branch: char)
    requires |cur| < depth && NUL !in cur && IsBranch(branch)
    ensures ChildLabel(depth, cur, branch) == cur + [branch]
  {
    LabelOutput(1, Terminate(cur), branch);
  }

  /** forkchild, up to fork(): whether it forks, and the label in the child's nxt. */
  method ForkChild(depth: nat, at: pointer, cur: CString, branch: char) returns (forks: bool, nxt: CString)
    requires IsBranch(branch)
    ensures forks <==> |Text(cur)| < depth
    ensures forks ==> Text(nxt) == ChildLabel(depth, Text(cur), branch) == Text(cur) + [branch]
  {
    UpToNulIsText(cur);
    var len := StrLen(cur);
    if len >= depth {
      return false, cur;
    }
    var buf := new char[depth + 1];
    LabelOutput(at, cur, branch);
    ChildLabelIs(depth, Text(cur), branch);
    TerminatedIsReadable(Parse(LABEL_FORMAT, 0), [Str(at, cur), Word(branch as int)]);
    ghost var out := Text(cur) + [branch];
    var cnt := Printf.VSNPrintf(buf, 0, depth + 1, LABEL_FORMAT, [Str(at, cur), Word(branch as int)]);
    assert Printf.Truncated(out, depth + 1) == out;
    assert buf[0..cnt] == out && NUL !in out;
    forks := true;
    nxt := Terminate(buf[0..cnt]);
  }

  // ---------- the processes ----------

  /** A process and how many of its two calls of forkchild have returned. */
  datatype Proc = Proc(name: string, pc: nat)

  /** The scheduler lets process i go on; ok is what a fork it makes comes to. */
  datatype Choice = Choice(i: nat, ok: bool)

  function Branch(pc: nat): (c: char)
    ensures IsBranch(c)
  {
    if pc == 0 then '0' else '1'
  }

  predicate Enabled(s: seq<Proc>, c: Choice) {
    c.i < |s| && s[c.i].pc < 2
  }

  /** One call of forkchild; the child starts afresh with the label it was given. */
  function Step(depth: nat, s: seq<Proc>, c: Choice): seq<Proc>
    requires Enabled(s, c)
  {
    Fork(depth, s, c, ChildLabel(depth, s[c.i].name, Branch(s[c.i].pc)))
  }

  function Fork(depth: nat, s: seq<Proc>, c: Choice, child: string): seq<Proc>
    requires Enabled(s, c)
  {
    var p := s[c.i];
    s[c.i := p.(pc := p.pc + 1)] + if |p.name| < depth && c.ok then [Proc(child, 0)] else []
  }

  lemma StepIsFork(depth: nat, s: seq<Proc>, c: Choice)
    requires Enabled(s, c) && NUL !in s[c.i].name
    ensures Step(depth, s, c) == Fork(depth, s, c, s[c.i].name + [Branch(s[c.i].pc)])
  {
    if |s[c.i].name| < depth {
      ChildLabelIs(depth, s[c.i].name, Branch(s[c.i].pc));
    }
  }

  /** A run: the choices in order, each of a process that can go on. */
  ghost predicate IsRun(depth: nat, cs: seq<Choice>)
    decreases |cs|, 0
  {
    cs == [] || (IsRun(depth, cs[..|cs| - 1]) && Enabled(After(depth, cs[..|cs| - 1]), cs[|cs| - 1]))
  }

  ghost function After(depth: nat, cs: seq<Choice>): seq<Proc>
    requires IsRun(depth, cs)
    decreases |cs|, 1
  {
    if cs == [] then [Proc("", 0)] else Step(depth, After(depth, cs[..|cs| - 1]), cs[|cs| - 1])
  }

  ghost predicate IsLabel(depth: nat, w: string) {
    |w| <= depth && forall i | 0 <= i < |w| :: w[i] == '0' || w[i] == '1'
  }

  ghost predicate DistinctNames(s: seq<Proc>) {
    forall i, j | 0 <= i < j < |s| :: s[i].name != s[j].name
  }

  /** p has passed the fork of its child on branch c. */
  predicate Passed(p: Proc, c: char) {
    p.pc >= (if c == '0' then 1 else 2)
  }

  ghost predicate Named(s: seq<Proc>, i: nat, w: string) {
    i < |s| && s[i].name == w
  }

  ghost predicate HasParent(s: seq<Proc>, w: string) {
    w != [] ==> exists j: nat :: Named(s, j, w[..|w| - 1]) && Passed(s[j], w[|w| - 1])
  }

  /** Labels are distinct and in range; each but the first has a parent that has passed the
      fork of it. */
  ghost predicate Invariant(depth: nat, s: seq<Proc>) {
    && (forall i | 0 <= i < |s| :: IsLabel(depth, s[i].name) && s[i].pc <= 2)
    && DistinctNames(s)
    && (forall i {:trigger HasParent(s, s[i].name)} | 0 <= i < |s| :: HasParent(s, s[i].name))
  }

  lemma ParentPassed(depth: nat, s: seq<Proc>, i: nat, k: nat)
    requires Invariant(depth, s) && i < |s| && k < |s|
    requires s[k].name != [] && s[k].name[..|s[k].name| - 1] == s[i].name
    ensures Passed(s[i], s[k].name[|s[k].name| - 1])
  {
    var w := s[k].name;
    assert HasParent(s, s[k].name);
    var j: nat :| Named(s, j, w[..|w| - 1]) && Passed(s[j], w[|w| - 1]);
    assert j == i;
  }

  /** The label that process i is about to give is not taken. */
  lemma NewName(depth: nat, s: seq<Proc>, i: nat, k: nat)
    requires Invariant(depth, s) && i < |s| && s[i].pc < 2 && k < |s|
    ensures s[k].name != s[i].name + [Branch(s[i].pc)]
  {
    var w := s[i].name + [Branch(s[i].pc)];
    assert w[..|w| - 1] == s[i].name;
    if s[k].name == w {
      ParentPassed(depth, s, i, k);
    }
  }

  lemma StepInvariant(depth: nat, s: seq<Proc>, c: Choice)
    requires Invariant(depth, s) && Enabled(s, c)
    ensures Invariant(depth, Fork(depth, s, c, s[c.i].name + [Branch(s[c.i].pc)]))
  {
    var p := s[c.i];
    var w := p.name + [Branch(p.pc)];
    var t := Fork(depth, s, c, w);
    forall k | 0 <= k < |s| ensures s[k].name != w {
      NewName(depth, s, c.i, k);
    }
    assert forall i | 0 <= i < |s| :: t[i].name == s[i].name && s[i].pc <= t[i].pc <= 2;
    forall i | 0 <= i < |t| ensures HasParent(t, t[i].name) {
      if i < |s| {
        assert HasParent(s, s[i].name);
        if s[i].name != [] {
          var j: nat :| Named(s, j, s[i].name[..|s[i].name| - 1]) && Passed(s[j], s[i].name[|s[i].name| - 1]);
          assert Named(t, j, t[i].name[..|t[i].name| - 1]);
        }
      } else {
        assert t[i].name == w && w[..|w| - 1] == p.name;
        assert Named(t, c.i, w[..|w| - 1]);
      }
    }
  }

  /** Whatever the scheduler does and whether or not forks fail: no label is given twice,
      labels are binary strings of at most depth digits, and a child's process is younger
      than its parent's fork. */
  lemma {:induction false} RunInvariant(depth: nat, cs: seq<Choice>)
    requires IsRun(depth, cs)
    ensures Invariant(depth, After(depth, cs))
  {
    if cs == [] {
    } else {
      RunInvariant(depth, cs[..|cs| - 1]);
      StepInvariant(depth, After(depth, cs[..|cs| - 1]), cs[|cs| - 1]);
      StepIsFork(depth, After(depth, cs[..|cs| - 1]), cs[|cs| - 1]);
    }
  }

  ghost predicate HasChild(s: seq<Proc>, w: string, c: char) {
    exists j: nat :: Named(s, j, w + [c])
  }

  /** All children that a process has passed the fork of are there. */
  ghost predicate HasChildren(depth: nat, s: seq<Proc>) {
    forall i, c {:trigger HasChild(s, s[i].name, c)}
      | 0 <= i < |s| && |s[i].name| < depth && (c == '0' || c == '1') && Passed(s[i], c) ::
      HasChild(s, s[i].name, c)
  }

  ghost predicate NoForkFails(cs: seq<Choice>) {
    forall k | 0 <= k < |cs| :: cs[k].ok
  }

  lemma StepChildren(depth: nat, s: seq<Proc>, c: Choice)
    requires HasChildren(depth, s) && Enabled(s, c) && c.ok
    ensures HasChildren(depth, Fork(depth, s, c, s[c.i].name + [Branch(s[c.i].pc)]))
  {
    var t := Fork(depth, s, c, s[c.i].name + [Branch(s[c.i].pc)]);
    assert forall i | 0 <= i < |s| :: t[i].name == s[i].name;
    forall i, b | 0 <= i < |t| && |t[i].name| < depth && (b == '0' || b == '1') && Passed(t[i], b)
      ensures HasChild(t, t[i].name, b)
    {
      if i < |s| && Passed(s[i], b) {
        assert HasChild(s, s[i].name, b);
        var j: nat :| Named(s, j, s[i].name + [b]);
        assert Named(t, j, t[i].name + [b]);
      } else {
        assert i == c.i && b == Branch(s[i].pc);
        assert t[|s|].name == s[i].name + [b];
        assert Named(t, |s|, t[i].name + [b]);
      }
    }
  }

  lemma {:induction false} RunChildren(depth: nat, cs: seq<Choice>)
    requires IsRun(depth, cs) && NoForkFails(cs)
    ensures HasChildren(depth, After(depth, cs))
    ensures exists j: nat :: Named(After(depth, cs), j, "")
  {
    if cs == [] {
      var s := After(depth, cs);
      assert s == [Proc("", 0)] && Named(s, 0, "");
      assert forall i, c | 0 <= i < |s| && (c == '0' || c == '1') :: !Passed(s[i], c);
    } else {
      var before := cs[..|cs| - 1];
      assert forall k | 0 <= k < |before| :: before[k] == cs[k];
      RunChildren(depth, before);
      RunInvariant(depth, before);
      StepChildren(depth, After(depth, before), cs[|cs| - 1]);
      StepIsFork(depth, After(depth, before), cs[|cs| - 1]);
      var j: nat :| Named(After(depth, before), j, "");
      assert Named(After(depth, cs), j, "");
    }
  }

  ghost predicate Finished(s: seq<Proc>) {
    forall i | 0 <= i < |s| :: s[i].pc == 2
  }

  lemma {:induction false} EveryLabel(depth: nat, s: seq<Proc>, w: string) returns (i: nat)
    requires HasChildren(depth, s) && Finished(s) && IsLabel(depth, w)
    requires exists j: nat :: Named(s, j, "")
    ensures Named(s, i, w)
    decreases |w|
  {
    if w == [] {
      i :| Named(s, i, "");
    } else {
      var init := w[..|w| - 1];
      var j := EveryLabel(depth, s, init);
      assert w == init + [w[|w| - 1]];
      assert Passed(s[j], w[|w| - 1]);
      assert HasChild(s, s[j].name, w[|w| - 1]);
      i :| Named(s, i, s[j].name + [w[|w| - 1]]);
    }
  }

  /** When all processes are done and no fork has failed, each binary string of at most
      depth digits is the label of exactly one process. */
  lemma LabelsExactlyOnce(depth: nat, cs: seq<Choice>, w: string) returns (i: nat)
    requires IsRun(depth, cs) && NoForkFails(cs) && Finished(After(depth, cs)) && IsLabel(depth, w)
    ensures var s := After(depth, cs);
      Named(s, i, w) && forall j | 0 <= j < |s| && s[j].name == w :: j == i
  {
    RunInvariant(depth, cs);
    RunChildren(depth, cs);
    i := EveryLabel(depth, After(depth, cs), w);
  }

  // ---------- counting ----------

  ghost function Extend(ws: set<string>, c: char): set<string> {
    set w | w in ws :: w + [c]
  }

  /** The binary strings of n digits. */
  ghost function Level(n: nat): set<string> {
    if n == 0 then {""} else Extend(Level(n - 1), '0') + Extend(Level(n - 1), '1')
  }

  ghost function Labels(depth: nat): set<string> {
    if depth == 0 then Level(0) else Labels(depth - 1) + Level(depth)
  }

  lemma {:induction false} ExtendSize(ws: set<string>, c: char)
    ensures |Extend(ws, c)| == |ws|
  {
    if ws == {} {
    } else {
      var w :| w in ws;
      ExtendSize(ws - {w}, c);
      forall v | v in ws && v + [c] == w + [c] ensures v == w {
        assert v == (v + [c])[..|v|] && w == (w + [c])[..|w|];
      }
      assert Extend(ws, c) == Extend(ws - {w}, c) + {w + [c]};
    }
  }

  lemma {:induction false} LevelIs(n: nat, w: string)
    ensures w in Level(n) <==> |w| == n && IsLabel(n, w)
  {
    if n == 0 {
    } else {
      if |w| > 0 {
        LevelIs(n - 1, w[..|w| - 1]);
        assert w == w[..|w| - 1] + [w[|w| - 1]];
      }
      if w in Level(n) {
        var v :| v in Level(n - 1) && (w == v + ['0'] || w == v + ['1']);
        assert v == w[..|w| - 1];
      }
    }
  }

  lemma {:induction false} LevelSize(n: nat)
    ensures |Level(n)| == Pow2(n)
  {
    if n == 0 {
    } else {
      LevelSize(n - 1);
      ExtendSize(Level(n - 1), '0');
      ExtendSize(Level(n - 1), '1');
      var a, b := Extend(Level(n - 1), '0'), Extend(Level(n - 1), '1');
      assert a !! b by {
        forall w | w in a ensures w !in b {
          assert w[|w| - 1] == '0';
        }
      }
    }
  }

  lemma {:induction false} LabelsAre(depth: nat, w: string)
    ensures w in Labels(depth) <==> IsLabel(depth, w)
  {
    LevelIs(depth, w);
    if depth == 0 {
    } else {
      LabelsAre(depth - 1, w);
    }
  }

  lemma NotShorter(depth: nat, w: string)
    requires depth > 0 && w in Level(depth)
    ensures w !in Labels(depth - 1)
  {
    LevelIs(depth, w);
    LabelsAre(depth - 1, w);
  }

  lemma DisjointSize<T>(a: set<T>, b: set<T>)
    requires forall w | w in b :: w !in a
    ensures |a + b| == |a| + |b|
  {
    assert a !! b;
  }

  lemma LabelsStep(depth: nat)
    requires depth > 0
    ensures |Labels(depth)| == |Labels(depth - 1)| + |Level(depth)|
  {
    forall w | w in Level(depth) ensures w !in Labels(depth - 1) {
      NotShorter(depth, w);
    }
    DisjointSize(Labels(depth - 1), Level(depth));
  }

  lemma NextPower(k: nat)
    ensures Pow2(k + 1) == 2 * Pow2(k)
  {
  }

  lemma {:induction false} LabelsSize(depth: nat)
    ensures |Labels(depth)| == Pow2(depth + 1) - 1
  {
    LevelSize(depth);
    if depth == 0 {
      assert Pow2(1) == 2;
    } else {
      LabelsSize(depth - 1);
      LabelsStep(depth);
      NextPower(depth);
    }
  }

  ghost function Names(s: seq<Proc>): set<string> {
    set i | 0 <= i < |s| :: s[i].name
  }

  lemma {:induction false} NamesSize(s: seq<Proc>)
    requires DistinctNames(s)
    ensures |Names(s)| == |s|
  {
    if s == [] {
    } else {
      var init, last := s[..|s| - 1], s[|s| - 1];
      NamesSize(init);
      forall w ensures w in Names(s) <==> w in Names(init) || w == last.name {
        if w in Names(init) {
          var i :| 0 <= i < |init| && init[i].name == w;
          assert s[i].name == w;
        }
        if w == last.name {
          assert s[|s| - 1].name == w;
        }
        if w in Names(s) && w != last.name {
          var i :| 0 <= i < |s| && s[i].name == w;
          assert init[i].name == w;
        }
      }
      assert Names(s) == Names(init) + {last.name};
    }
  }

  lemma SubsetSize<T>(a: set<T>, b: set<T>)
    requires a <= b
    ensures |a| <= |b|
  {
    assert b == a + (b - a);
  }

  /** In every run there are at most 2^(depth + 1) - 1 processes; when all are done and no
      fork has failed, there are that many. */
  lemma ProcessCount(depth: nat, cs: seq<Choice>)
    requires IsRun(depth, cs)
    ensures |After(depth, cs)| <= Pow2(depth + 1) - 1
    ensures NoForkFails(cs) && Finished(After(depth, cs)) ==> |After(depth, cs)| == Pow2(depth + 1) - 1
  {
    var s := After(depth, cs);
    RunInvariant(depth, cs);
    NamesSize(s);
    LabelsSize(depth);
    forall w | w in Names(s) ensures w in Labels(depth) {
      LabelsAre(depth, w);
    }
    SubsetSize(Names(s), Labels(depth));
    if NoForkFails(cs) && Finished(s) {
      forall w | w in Labels(depth) ensures w in Names(s) {
        LabelsAre(depth, w);
        var i := LabelsExactlyOnce(depth, cs, w);
      }
      assert Names(s) == Labels(depth);
    }
  }

  // ---------- termination ----------

  ghost function Work(s: seq<Proc>): nat {
    if s == [] then 0 else Work(s[..|s| - 1]) + s[|s| - 1].pc
  }

  lemma {:induction false} WorkBound(s: seq<Proc>)
    requires forall i | 0 <= i < |s| :: s[i].pc <= 2
    ensures Work(s) <= 2 * |s|
  {
    if s == [] {
    } else {
      WorkBound(s[..|s| - 1]);
    }
  }

  lemma {:induction false} WorkUpdate(s: seq<Proc>, i: nat, p: Proc)
    requires i < |s|
    ensures Work(s[i := p]) == Work(s) - s[i].pc + p.pc
  {
    var t := s[i := p];
    if i == |s| - 1 {
      assert t[..|s| - 1] == s[..|s| - 1];
    } else {
      WorkUpdate(s[..|s| - 1], i, p);
      assert t[..|s| - 1] == s[..|s| - 1][i := p];
    }
  }

  lemma {:induction false} RunWork(depth: nat, cs: seq<Choice>)
    requires IsRun(depth, cs)
    ensures Work(After(depth, cs)) == |cs|
  {
    if cs == [] {
      assert Work([Proc("", 0)][..0]) == 0;
    } else {
      var before, c := cs[..|cs| - 1], cs[|cs| - 1];
      var s := After(depth, before);
      RunWork(depth, before);
      ForkWork(depth, s, c, ChildLabel(depth, s[c.i].name, Branch(s[c.i].pc)));
    }
  }

  lemma ForkWork(depth: nat, s: seq<Proc>, c: Choice, child: string)
    requires Enabled(s, c)
    ensures Work(Fork(depth, s, c, child)) == Work(s) + 1
  {
    var p := s[c.i];
    var t := s[c.i := p.(pc := p.pc + 1)];
    WorkUpdate(s, c.i, p.(pc := p.pc + 1));
    if |p.name| < depth && c.ok {
      WorkOfFresh(t, child);
    } else {
      assert Fork(depth, s, c, child) == t + [] == t;
    }
  }

  lemma WorkOfFresh(s: seq<Proc>, name: string)
    ensures Work(s + [Proc(name, 0)]) == Work(s)
  {
    assert (s + [Proc(name, 0)])[..|s|] == s;
  }

  /** No schedule goes on for ever: a run makes at most 2^(depth + 2) - 2 steps. */
  lemma RunsEnd(depth: nat, cs: seq<Choice>)
    requires IsRun(depth, cs)
    ensures |cs| <= 2 * (Pow2(depth + 1) - 1)
  {
    RunWork(depth, cs);
    RunInvariant(depth, cs);
    WorkBound(After(depth, cs));
    ProcessCount(depth, cs);
  }
}
