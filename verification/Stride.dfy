/** The comparison of the stride scheduler, the skew heap's one callback that has a body:
    strides are unsigned and wrap, and it looks at the sign of their difference. */
module Stride {
  import opened Arithmetic
  import opened SkewTrees
  import opened SkewHeap

  const HALF := 0x8000_0000

  /** p - q, in uint32_t. */
  function Minus(p: uint32, q: uint32): uint32 {
    (p - q) % WORD32
  }

  /** p + k, in uint32_t. */
  function Plus(p: uint32, k: nat): uint32 {
    (p + k) % WORD32
  }

  /** Conversion to int32_t. */
  function ToInt32(x: uint32): int {
    if x < HALF then x else x - WORD32
  }

  /** proc_stride_comp_f, on two strides. */
  function CompareStrides(p: uint32, q: uint32): int {
    var c := ToInt32(Minus(p, q));
    if c > 0 then 1 else if c == 0 then 0 else -1
  }

  /** The callback, when stride tells the stride of an entry's process. */
  function ByStride<T>(stride: T -> uint32): Comparator<T> {
    (x, y) => CompareStrides(stride(x), stride(y))
  }

  /** struct proc_struct, as far as its stride goes. */
  class Process {
    var stride: uint32
    var priority: uint32

    constructor (stride: uint32, priority: uint32)
      ensures this.stride == stride && this.priority == priority
    {
      this.stride, this.priority := stride, priority;
    }
  }

  /** proc_stride_comp_f: from the links of two processes to their strides in memory.  Which
      process a link is part of is known for the links of processes only. */
  function ProcStrideComp(le2proc: map<Entry, Process>): Callback {
    (a: Entry, b: Entry)
      requires a in le2proc && b in le2proc
      reads if a in le2proc && b in le2proc then {le2proc[a], le2proc[b]} else {}
    => CompareStrides(le2proc[a].stride, le2proc[b].stride)
  }

  /** While the strides are as `stride` says, the callback answers by them; it reads no link. */
  lemma CallbackComputes(le2proc: map<Entry, Process>, stride: Entry -> uint32, s: set<Entry>)
    requires s <= le2proc.Keys && forall x | x in s :: le2proc[x].stride == stride(x)
    ensures Computes(ProcStrideComp(le2proc), ByStride(stride), s)
  {
    forall x, y | x in s && y in s
      ensures Answers(ProcStrideComp(le2proc), ByStride(stride), x, y)
    {
    }
  }

  /** All strides are less than `span` steps round from b, as unsigned numbers wrap. */
  predicate Within<T>(stride: T -> uint32, s: set<T>, b: uint32, span: nat) {
    forall x | x in s :: Minus(stride(x), b) < span
  }

  /** They lie in some window of that size. */
  ghost predicate InWindow<T>(stride: T -> uint32, s: set<T>, span: nat) {
    exists b :: Within(stride, s, b, span)
  }

  lemma MinusIs(p: uint32, q: uint32)
    ensures Minus(p, q) == if p >= q then p - q else p - q + WORD32
  {
  }

  /** Less than half the range behind: the answer -1. */
  lemma LessIs<T>(stride: T -> uint32, x: T, y: T)
    ensures Less(ByStride(stride), x, y) <==> Minus(stride(x), stride(y)) >= HALF
  {
    MinusIs(stride(x), stride(y));
  }

  /** Seen from a common base, the comparison is that of the distances from it. */
  lemma LessWithin<T>(stride: T -> uint32, s: set<T>, b: uint32, x: T, y: T)
    requires Within(stride, s, b, HALF) && x in s && y in s
    ensures Less(ByStride(stride), x, y) <==> Minus(stride(x), b) < Minus(stride(y), b)
  {
    LessIs(stride, x, y);
    MinusIs(stride(x), stride(y));
    MinusIs(stride(x), b);
    MinusIs(stride(y), b);
  }

  /** A finite set that is not empty has an entry than which none is less. */
  lemma {:induction false} LeastExists<T>(comp: Comparator<T>, s: set<T>) returns (m: T)
    requires s != {} && StrictWeakOrder(comp, s)
    ensures m in s && forall x | x in s :: !Less(comp, x, m)
    decreases s
  {
    m :| m in s;
    if s == {m} {
      assert !Less(comp, m, m);
    } else {
      var least := LeastExists(comp, s - {m});
      assert !Less(comp, m, m) && !Less(comp, least, least);
      if Less(comp, least, m) {
        assert !Less(comp, m, least);
        m := least;
      } else {
        forall x | x in s ensures !Less(comp, x, m) {
          assert x != m ==> !Less(comp, x, least);
        }
      }
    }
  }

  /** The comparison is a strict weak order just when all strides lie in some window of
      half the range. */
  lemma OrderIffWindow<T>(stride: T -> uint32, s: set<T>)
    ensures StrictWeakOrder(ByStride(stride), s) <==> InWindow(stride, s, HALF)
  {
    var comp := ByStride(stride);
    if b :| Within(stride, s, b, HALF) {
      forall x, y | x in s && y in s
        ensures Less(comp, x, y) <==> Minus(stride(x), b) < Minus(stride(y), b)
      {
        LessWithin(stride, s, b, x, y);
      }
    }
    if StrictWeakOrder(comp, s) {
      if s == {} {
        assert Within(stride, s, 0, HALF);
      } else {
        var m := LeastExists(comp, s);
        forall x | x in s ensures Minus(stride(x), stride(m)) < HALF {
          LessIs(stride, x, m);
        }
        assert Within(stride, s, stride(m), HALF);
      }
    }
  }

  /** The answers, but for strides half the range apart: 0 for equal ones, and opposite ones
      the other way round. */
  lemma AnswersAreOpposite(p: uint32, q: uint32)
    ensures CompareStrides(p, q) == 0 <==> p == q
    ensures Minus(p, q) != HALF ==> CompareStrides(p, q) == -CompareStrides(q, p)
    ensures 0 < Minus(p, q) < HALF ==> CompareStrides(p, q) == 1
  {
    MinusIs(p, q);
    MinusIs(q, p);
  }

  /** Two strides half the range apart: each is less than the other. */
  lemma Opposite<T>(stride: T -> uint32, x: T, y: T)
    ensures Less(ByStride(stride), x, y) && Less(ByStride(stride), y, x)
       <==> Minus(stride(x), stride(y)) == HALF
  {
    LessIs(stride, x, y);
    LessIs(stride, y, x);
    MinusIs(stride(x), stride(y));
    MinusIs(stride(y), stride(x));
  }

  lemma WindowIsOrder<T>(stride: T -> uint32, s: set<T>, span: nat)
    requires span <= HALF && InWindow(stride, s, span)
    ensures StrictWeakOrder(ByStride(stride), s)
  {
    var b :| Within(stride, s, b, span);
    assert Within(stride, s, b, HALF);
    OrderIffWindow(stride, s);
  }

  // ---------- runs of the scheduler ----------

  /** The processes that are runnable or running, and all strides. */
  datatype State<!T> = State(stride: T -> uint32, procs: set<T>)

  datatype Event<T> = Pick(m: T, step: nat) | Join(x: T) | Leave(x: T)

  /** A pick advances a process with the least stride by at most `pass`; others join with
      any stride that keeps a window of `span`, or leave. */
  ghost predicate Happens<T>(e: Event<T>, s: State<T>, s': State<T>, pass: nat, span: nat) {
    match e
    case Pick(m, step) =>
      && s'.procs == s.procs && m in s.procs && (forall x | x in s.procs :: !Less(ByStride(s.stride), x, m))
      && step <= pass && s'.stride(m) == Plus(s.stride(m), step)
      && forall x | x in s.procs && x != m :: s'.stride(x) == s.stride(x)
    case Join(x) =>
      && x !in s.procs && s'.procs == s.procs + {x} && InWindow(s'.stride, s'.procs, span)
      && forall y | y in s.procs :: s'.stride(y) == s.stride(y)
    case Leave(x) =>
      && s'.procs == s.procs - {x}
      && forall y | y in s'.procs :: s'.stride(y) == s.stride(y)
  }

  /** The window moves on to where the process that is picked was, wrap-around or not. */
  lemma PickKeepsWindow<T>(s: State<T>, s': State<T>, pass: nat, span: nat, m: T, step: nat)
    requires pass < span <= HALF && Happens(Pick(m, step), s, s', pass, span)
    requires InWindow(s.stride, s.procs, span)
    ensures Within(s'.stride, s'.procs, s.stride(m), span)
  {
    var b :| Within(s.stride, s.procs, b, span);
    forall x | x in s'.procs ensures Minus(s'.stride(x), s.stride(m)) < span {
      MinusIs(s'.stride(x), s.stride(m));
      if x == m {
        PlusIs(s.stride(m), step);
      } else {
        LessWithin(s.stride, s.procs, b, x, m);
        MinusIs(s.stride(x), b);
        MinusIs(s.stride(m), b);
      }
    }
  }

  lemma PlusIs(p: uint32, k: nat)
    requires k < WORD32
    ensures Plus(p, k) == if p + k < WORD32 then p + k else p + k - WORD32
  {
  }

  /** When x may join s, where m is least: exactly when x's stride lies less than the span
      above that of m, or all others lie less than the span above x's. */
  lemma JoinIff<T>(stride: T -> uint32, s: set<T>, x: T, m: T, span: nat)
    requires span <= HALF && m in s && Within(stride, s, stride(m), span)
    ensures InWindow(stride, s + {x}, span)
       <==> Minus(stride(x), stride(m)) < span || Within(stride, s, stride(x), span)
  {
    if InWindow(stride, s + {x}, span) {
      var b :| Within(stride, s + {x}, b, span);
      assert x in s + {x} && m in s + {x};
      MinusIs(stride(x), b);
      MinusIs(stride(m), b);
      MinusIs(stride(x), stride(m));
      if Minus(stride(x), stride(m)) >= span {
        forall y | y in s ensures Minus(stride(y), stride(x)) < span {
          BetweenMembers(stride(y), stride(x), stride(m), b, span);
        }
      }
    }
    if Minus(stride(x), stride(m)) < span {
      assert Within(stride, s + {x}, stride(m), span);
    }
    if Within(stride, s, stride(x), span) {
      MinusIs(stride(x), stride(x));
      assert Minus(stride(m), stride(x)) < span;
      assert Within(stride, s + {x}, stride(x), span);
    }
  }

  /** In a window from b where x lies below m, and y above m, y lies above x. */
  lemma BetweenMembers(y: uint32, x: uint32, m: uint32, b: uint32, span: nat)
    requires span <= HALF
    requires Minus(y, b) < span && Minus(x, b) < span && Minus(m, b) < span
    requires Minus(x, m) >= span && Minus(y, m) < span
    ensures Minus(y, x) < span
  {
    MinusIs(y, b);
    MinusIs(x, b);
    MinusIs(m, b);
    MinusIs(x, m);
    MinusIs(y, m);
    MinusIs(y, x);
  }

  /** A run: the states before, between and after the events. */
  ghost predicate Run<T>(states: seq<State<T>>, events: seq<Event<T>>, pass: nat, span: nat) {
    && |states| == |events| + 1
    && forall i | 0 <= i < |events| :: Happens(events[i], states[i], states[i + 1], pass, span)
  }

  lemma OneMoreEvent<T>(states: seq<State<T>>, events: seq<Event<T>>, pass: nat, span: nat, e: Event<T>, s: State<T>)
    requires Run(states, events, pass, span) && Happens(e, states[|events|], s, pass, span)
    ensures Run(states + [s], events + [e], pass, span)
  {
    var states', events' := states + [s], events + [e];
    forall i | 0 <= i < |events'| ensures Happens(events'[i], states'[i], states'[i + 1], pass, span) {
      if i < |events| {
        assert Happens(events[i], states[i], states[i + 1], pass, span);
      }
    }
  }

  /** Nobody comes in between i and j, so who is there at j has been there. */
  lemma {:induction false} NobodyJoins<T>(states: seq<State<T>>, events: seq<Event<T>>, pass: nat, span: nat,
                                          i: nat, j: nat)
    requires Run(states, events, pass, span) && i <= j <= |events|
    requires forall k | i <= k < j :: !events[k].Join?
    ensures states[j].procs <= states[i].procs
    decreases j - i
  {
    if i == j {
    } else {
      assert Happens(events[i], states[i], states[i + 1], pass, span);
      NobodyJoins(states, events, pass, span, i + 1, j);
    }
  }

  /** With no pass as long as the window, strides that start within one, of at most half the
      range, stay so, and the comparison is a strict weak order at every point of every run,
      however often the strides wrap. */
  lemma {:induction false} RunKeepsOrder<T>(states: seq<State<T>>, events: seq<Event<T>>,
                                            pass: nat, span: nat, i: nat)
    requires pass < span <= HALF && Run(states, events, pass, span) && i < |states|
    requires InWindow(states[0].stride, states[0].procs, span)
    ensures InWindow(states[i].stride, states[i].procs, span)
    ensures StrictWeakOrder(ByStride(states[i].stride), states[i].procs)
    decreases i
  {
    if i == 0 {
    } else {
      RunKeepsOrder(states, events, pass, span, i - 1);
      EventKeepsWindow(events[i - 1], states[i - 1], states[i], pass, span);
    }
    WindowIsOrder(states[i].stride, states[i].procs, span);
  }

  lemma EventKeepsWindow<T>(e: Event<T>, s: State<T>, s': State<T>, pass: nat, span: nat)
    requires pass < span <= HALF && Happens(e, s, s', pass, span) && InWindow(s.stride, s.procs, span)
    ensures InWindow(s'.stride, s'.procs, span)
  {
    match e
    case Pick(m, step) => PickKeepsWindow(s, s', pass, span, m, step);
    case Join(x) =>
    case Leave(x) =>
      var b :| Within(s.stride, s.procs, b, span);
      assert Within(s'.stride, s'.procs, b, span);
  }

  // ---------- how long a pass may be ----------

  /** stride, after x has advanced by k. */
  ghost function Advanced<T>(stride: T -> uint32, x: T, k: nat): T -> uint32 {
    z => if z == x then Plus(stride(x), k) else stride(z)
  }

  /** Of two equal strides, one that advances by half the range or more counts as less all the
      same; at half the range the other one does too. */
  lemma AdvanceIsSeen<T>(stride: T -> uint32, x: T, y: T, k: nat)
    requires x != y && stride(x) == stride(y) && k < WORD32
    ensures var comp := ByStride(Advanced(stride, x, k));
      && (Less(comp, x, y) <==> k >= HALF)
      && (Less(comp, y, x) <==> 0 < k <= HALF)
  {
    var after := Advanced(stride, x, k);
    PlusIs(stride(x), k);
    LessIs(after, x, y);
    LessIs(after, y, x);
    MinusIs(after(x), after(y));
    MinusIs(after(y), after(x));
  }

  /** A pass below half the range is what the order needs, and no more: with a longer one, two
      processes with equal strides can come to a point where it is none. */
  lemma PassIsExact<T>(stride: T -> uint32, x: T, y: T, pass: nat)
    requires x != y && stride(x) == stride(y)
    ensures (forall k: nat | k <= pass :: StrictWeakOrder(ByStride(Advanced(stride, x, k)), {x, y})) <==> pass < HALF
  {
    if pass < HALF {
      forall k: nat | k <= pass ensures StrictWeakOrder(ByStride(Advanced(stride, x, k)), {x, y}) {
        var after := Advanced(stride, x, k);
        PlusIs(stride(x), k);
        MinusIs(after(x), stride(y));
        MinusIs(after(y), stride(y));
        assert Within(after, {x, y}, stride(y), HALF);
        OrderIffWindow(after, {x, y});
      }
    } else {
      AdvanceIsSeen(stride, x, y, HALF);
      var comp := ByStride(Advanced(stride, x, HALF));
      assert Less(comp, x, y) && Less(comp, y, x) && !StrictWeakOrder(comp, {x, y});
    }
  }

  // ---------- shares of the processor ----------

  /** How often x is picked. */
  ghost function Turns<T>(events: seq<Event<T>>, x: T): nat {
    if events == [] then 0
    else
      var last := events[|events| - 1];
      Turns(events[..|events| - 1], x) + if last.Pick? && last.m == x then 1 else 0
  }

  /** How far x is ahead of y: the number whose sign proc_stride_comp_f looks at. */
  function Ahead<T>(s: State<T>, x: T, y: T): int {
    ToInt32(Minus(s.stride(x), s.stride(y)))
  }

  ghost predicate Stays<T>(states: seq<State<T>>, x: T) {
    forall i | 0 <= i < |states| :: x in states[i].procs
  }

  /** Whenever x is picked, it advances by k. */
  ghost predicate OwnStep<T>(events: seq<Event<T>>, x: T, k: nat) {
    forall i | 0 <= i < |events| && events[i].Pick? && events[i].m == x :: events[i].step == k
  }

  /** Only the picks of x and of y themselves move x against y, and the one that is picked is
      not ahead. */
  lemma EventMovesAhead<T>(e: Event<T>, s: State<T>, s': State<T>, pass: nat, span: nat, x: T, y: T)
    requires pass < HALF && Happens(e, s, s', pass, span) && x != y
    requires x in s.procs && y in s.procs && x in s'.procs && y in s'.procs
    requires Ahead(s, x, y) > -HALF
    ensures var c, c' := Ahead(s, x, y), Ahead(s', x, y);
      if e.Pick? && e.m == x then c <= 0 && c' == c + e.step
      else if e.Pick? && e.m == y then c >= 0 && c' == c - e.step
      else c' == c
  {
    MinusIs(s.stride(x), s.stride(y));
    MinusIs(s.stride(y), s.stride(x));
    MinusIs(s'.stride(x), s'.stride(y));
    LessIs(s.stride, x, y);
    LessIs(s.stride, y, x);
    if e.Pick? { PlusIs(s.stride(e.m), e.step); }
  }

  lemma OneMoreTurn(k: nat, step: nat)
    ensures (k + 1) * step == k * step + step
  {
  }

  lemma TurnsMove<T>(events: seq<Event<T>>, x: T, step: nat)
    requires events != []
    ensures var e := events[|events| - 1];
      Turns(events, x) * step
      == Turns(events[..|events| - 1], x) * step + if e.Pick? && e.m == x then step else 0
  {
    OneMoreTurn(Turns(events[..|events| - 1], x), step);
  }

  /** While x stays and its own step stays the same, its stride is a counter of its turns
      modulo 2^32. */
  lemma {:induction false} StridesCount<T>(states: seq<State<T>>, events: seq<Event<T>>, pass: nat, span: nat,
                                           x: T, step: nat)
    requires Run(states, events, pass, span) && Stays(states, x) && OwnStep(events, x, step)
    ensures states[|events|].stride(x) == Plus(states[0].stride(x), Turns(events, x) * step)
    decreases |events|
  {
    var k := |events|;
    if k == 0 {
    } else {
      var before := events[..k - 1];
      StridesCount(states[..k], before, pass, span, x, step);
      assert Happens(events[k - 1], states[k - 1], states[k], pass, span);
      assert x in states[k - 1].procs && x in states[k].procs;
      TurnsMove(events, x, step);
      if events[k - 1].Pick? && events[k - 1].m == x {
        assert events[k - 1].step == step;
        PlusPlus(states[0].stride(x), Turns(before, x) * step, step);
      }
    }
  }

  lemma {:induction false} PlusPlus(p: uint32, k: nat, l: nat)
    ensures Plus(Plus(p, k), l) == Plus(p, k + l)
  {
    Recompose(p + k, WORD32);
    SameRemainder(Plus(p, k) + l, p + k + l, -((p + k) / WORD32), WORD32);
  }

  /** While x and y stay and their own steps stay the same, whatever else joins, leaves or is
      picked: the number that the callback looks at counts the turns of both without
      wrapping, and neither is ever further ahead than it was at first or than one step. */
  lemma {:induction false} CountersStayClose<T>(states: seq<State<T>>, events: seq<Event<T>>, pass: nat, span: nat,
                                                x: T, y: T, sx: nat, sy: nat)
    requires pass < HALF && Run(states, events, pass, span)
    requires x != y && Stays(states, x) && Stays(states, y)
    requires OwnStep(events, x, sx) && OwnStep(events, y, sy)
    requires Ahead(states[0], x, y) > -HALF
    ensures var c, c' := Ahead(states[0], x, y), Ahead(states[|events|], x, y);
      && c' == c + Turns(events, x) * sx - Turns(events, y) * sy
      && -HALF < c' <= Max(c, sx) && -c' <= Max(-c, sy)
    decreases |events|
  {
    var k := |events|;
    if k == 0 {
    } else {
      var e, before := events[k - 1], events[..k - 1];
      CountersStayClose(states[..k], before, pass, span, x, y, sx, sy);
      assert Happens(e, states[k - 1], states[k], pass, span);
      assert x in states[k - 1].procs && x in states[k].procs && y in states[k - 1].procs && y in states[k].procs;
      EventMovesAhead(e, states[k - 1], states[k], pass, span, x, y);
      TurnsMove(events, x, sx);
      TurnsMove(events, y, sy);
    }
  }

  // ---------- steps and priorities ----------

  /** big / priority, in C: the largest step that, taken priority times, stays within big. */
  ghost predicate IsShare(big: nat, priority: nat, step: nat) {
    step * priority <= big < step * priority + priority
  }

  /** A bigger priority makes a smaller step. */
  lemma SharesFall(big: nat, p: nat, q: nat, sp: nat, sq: nat)
    requires p >= q >= 1 && IsShare(big, p, sp) && IsShare(big, q, sq)
    ensures sp <= sq
  {
    if sp > sq {
      MulMonotone(sq + 1, sp, p);
      MulMonotone(q, p, sq + 1);
      OneMoreTurn(sq, q);
    }
  }

  lemma ShareIsPositive(big: nat, p: nat, s: nat)
    requires p >= 1 && IsShare(big, p, s)
    ensures s >= 1 <==> p <= big
  {
    if s >= 1 { MulMonotone(1, s, p); }
  }

  /** What priorities are for.  Over any stretch of any run, from state i to state j, in which
      x and y stay and keep their own steps, whatever other processes join, leave or are
      picked and however often strides wrap: weighted by the steps, x gets at most one turn
      more than y, but for what it was behind at first. */
  lemma FairShares<T>(states: seq<State<T>>, events: seq<Event<T>>, pass: nat, span: nat,
                      i: nat, j: nat, x: T, y: T, sx: nat, sy: nat)
    requires pass < span <= HALF && Run(states, events, pass, span)
    requires InWindow(states[0].stride, states[0].procs, span)
    requires i <= j <= |events| && x != y
    requires Stays(states[i..j + 1], x) && Stays(states[i..j + 1], y)
    requires OwnStep(events[i..j], x, sx) && OwnStep(events[i..j], y, sy)
    ensures var extra := Turns(events[i..j], x) * sx - Turns(events[i..j], y) * sy;
      && extra <= Max(0, sx - Ahead(states[i], x, y))
      && (states[i].stride(x) == states[i].stride(y) ==> extra <= sx)
  {
    var stretch, between := states[i..j + 1], events[i..j];
    assert stretch[0] == states[i];
    RunKeepsOrder(states, events, pass, span, i);
    Opposite(states[i].stride, x, y);
    forall k | 0 <= k < |between| ensures Happens(between[k], stretch[k], stretch[k + 1], pass, span) {
      assert Happens(events[i + k], states[i + k], states[i + k + 1], pass, span);
    }
    CountersStayClose(stretch, between, pass, span, x, y, sx, sy);
  }

  /** Who advances by smaller steps, from the same stride, never has had two turns less. */
  lemma BiggerGetsMore<T>(states: seq<State<T>>, events: seq<Event<T>>, pass: nat, span: nat,
                          i: nat, j: nat, x: T, y: T, sx: nat, sy: nat)
    requires pass < span <= HALF && Run(states, events, pass, span)
    requires InWindow(states[0].stride, states[0].procs, span)
    requires i <= j <= |events| && x != y
    requires Stays(states[i..j + 1], x) && Stays(states[i..j + 1], y)
    requires OwnStep(events[i..j], x, sx) && OwnStep(events[i..j], y, sy)
    requires sx <= sy && 0 < sy && states[i].stride(x) == states[i].stride(y)
    ensures Turns(events[i..j], y) <= Turns(events[i..j], x) + 1
  {
    var tx, ty := Turns(events[i..j], x), Turns(events[i..j], y);
    FairShares(states, events, pass, span, i, j, y, x, sy, sx);
    if ty > tx + 1 {
      MulMonotone(tx + 2, ty, sy);
      OneMoreTurn(tx + 1, sy);
      OneMoreTurn(tx, sy);
      MulMonotone(sx, sy, tx);
    }
  }

  /** In priorities: from equal strides, with no smaller a priority than y's, x never has had
      two turns less, if the priority of y is not beyond big ... */
  lemma PriorityGetsMore<T>(states: seq<State<T>>, events: seq<Event<T>>, big: nat, span: nat,
                            i: nat, j: nat, x: T, y: T, px: nat, py: nat, sx: nat, sy: nat)
    requires big < span <= HALF && Run(states, events, big, span)
    requires InWindow(states[0].stride, states[0].procs, span)
    requires i <= j <= |events| && x != y
    requires Stays(states[i..j + 1], x) && Stays(states[i..j + 1], y)
    requires OwnStep(events[i..j], x, sx) && OwnStep(events[i..j], y, sy)
    requires IsShare(big, px, sx) && IsShare(big, py, sy)
    requires px >= py >= 1 && py <= big && states[i].stride(x) == states[i].stride(y)
    ensures Turns(events[i..j], y) <= Turns(events[i..j], x) + 1
  {
    SharesFall(big, px, py, sx, sy);
    ShareIsPositive(big, py, sy);
    BiggerGetsMore(states, events, big, span, i, j, x, y, sx, sy);
  }

  /** ... and only then: beyond big both steps are 0, and y may get any number of turns while
      x gets none. */
  lemma {:induction false} ZeroStepStarves<T>(s: State<T>, big: nat, span: nat, x: T, y: T, px: nat, py: nat, n: nat)
      returns (states: seq<State<T>>, events: seq<Event<T>>)
    requires x != y && s.procs == {x, y} && s.stride(x) == s.stride(y)
    requires px >= py > big
    ensures IsShare(big, px, 0) && IsShare(big, py, 0)
    ensures Run(states, events, big, span) && states[0] == s && OwnStep(events, x, 0) && OwnStep(events, y, 0)
    ensures Turns(events, y) == n && Turns(events, x) == 0
  {
    var e := Pick(y, 0);
    states, events := [s], [];
    for k := 0 to n
      invariant |events| == k && |states| == k + 1
      invariant (forall i | 0 <= i <= k :: states[i] == s) && (forall i | 0 <= i < k :: events[i] == e)
      invariant Turns(events, y) == k && Turns(events, x) == 0
    {
      assert (events + [e])[..k] == events;
      states, events := states + [s], events + [e];
    }
    PlusIs(s.stride(y), 0);
    LessIs(s.stride, x, y);
    LessIs(s.stride, y, y);
    MinusIs(s.stride(x), s.stride(y));
    assert Happens(e, s, s, big, span);
  }

  /** Turns weighted by steps, said in priorities. */
  lemma InPriorities(tx: nat, ty: nat, sx: nat, sy: nat, px: nat, py: nat, big: nat, d: nat)
    requires IsShare(big, px, sx) && IsShare(big, py, sy)
    requires tx * sx - ty * sy <= d
    ensures (tx * py - ty * px) * big <= d * (px * py) + (tx * py) * px
  {
    var u, v := tx * py, ty * px;
    Regroup(tx, sx, px, py);
    Regroup(ty, sy, py, px);
    assert py * px == px * py;
    MulMonotone(tx * sx - ty * sy, d, px * py);
    MulDistributes(px * py, tx * sx, -(ty * sy));
    MulMonotoneLeft(u, big - px, sx * px);
    MulMonotoneLeft(v, sy * py, big);
    MulDistributes(big, u, -v);
    MulSubtract(u, big, px);
  }

  lemma Regroup(t: nat, s: nat, p: nat, q: nat)
    ensures (t * s) * (p * q) == (t * q) * (s * p)
  {
    MulAssociates(t, s, p * q);
    MulAssociates(s, p, q);
    MulAssociates(t, q, s * p);
    assert s * (p * q) == (s * p) * q == q * (s * p);
  }

  lemma MulMonotoneLeft(u: nat, a: int, b: int)
    requires a <= b
    ensures u * a <= u * b
  {
    MulMonotone(a, b, u);
  }

  lemma MulSubtract(u: int, a: int, b: int)
    ensures u * (a - b) == u * a - u * b
  {
  }

  /** The fair shares in priorities p instead of steps big / p: turns are in proportion to
      priorities, up to the rounding of the steps, one turn and the lag at first. */
  lemma FairPriorities<T>(states: seq<State<T>>, events: seq<Event<T>>, big: nat, span: nat,
                          i: nat, j: nat, x: T, y: T, px: nat, py: nat, sx: nat, sy: nat)
    requires big < span <= HALF && Run(states, events, big, span)
    requires InWindow(states[0].stride, states[0].procs, span)
    requires i <= j <= |events| && x != y
    requires Stays(states[i..j + 1], x) && Stays(states[i..j + 1], y)
    requires OwnStep(events[i..j], x, sx) && OwnStep(events[i..j], y, sy)
    requires IsShare(big, px, sx) && IsShare(big, py, sy)
    ensures var tx, ty := Turns(events[i..j], x), Turns(events[i..j], y);
      (tx * py - ty * px) * big <= Max(0, sx - Ahead(states[i], x, y)) * (px * py) + (tx * py) * px
  {
    FairShares(states, events, big, span, i, j, x, y, sx, sy);
    InPriorities(Turns(events[i..j], x), Turns(events[i..j], y), sx, sy, px, py, big,
                 Max(0, sx - Ahead(states[i], x, y)));
  }
}
