/** `schedule` with the stride scheduler's queue: a skew heap of the runnable processes, on
    the pointers, while their strides change in memory. */
module Scheduler {
  import opened Arithmetic
  import opened SkewTrees
  import opened SkewCost
  import opened SkewHeap
  import opened SkewClient
  import opened Stride

  /** stride, with the value v at x. */
  function With(stride: Entry -> uint32, x: Entry, v: uint32): Entry -> uint32 {
    y => if y == x then v else stride(y)
  }

  /** The processes of s have their strides in memory, and no two links are in one process. */
  ghost predicate InMemory(le2proc: map<Entry, Process>, s: State<Entry>)
    reads le2proc.Values
  {
    && s.procs <= le2proc.Keys
    && (forall x, y | x in le2proc && y in le2proc :: le2proc[x] == le2proc[y] ==> x == y)
    && forall x | x in s.procs :: le2proc[x].stride == s.stride(x) && le2proc[x].priority >= 1
  }

  /** BIG_STRIDE / priority */
  function Share(big: nat, priority: nat): (step: nat)
    requires priority >= 1
    ensures step <= big && IsShare(big, priority, step)
  {
    QuotientIsAtMost(big, priority);
    Recompose(big, priority);
    big / priority
  }

  /** The step of a process, by its priority in memory. */
  ghost function StepOf(le2proc: map<Entry, Process>, big: nat, x: Entry?): nat
    reads le2proc.Values
  {
    if x != null && x in le2proc && le2proc[x].priority >= 1 then Share(big, le2proc[x].priority) else 0
  }

  /** In memory: x's stride is `was` plus big divided by x's priority. */
  ghost predicate Advances(le2proc: map<Entry, Process>, big: nat, x: Entry, was: uint32)
    reads le2proc.Values
  {
    x in le2proc && exists s: nat ::
      IsShare(big, le2proc[x].priority, s) && le2proc[x].stride == (was + s) % 0x1_0000_0000
  }

  /** The queue is a valid heap by the strides of s, but for the entries in `moved`, whose
      strides have changed since they came in; all strides of s lie in one window. */
  ghost predicate Queues(live: set<Entry>, comp: Comparator<Entry>, s: State<Entry>, moved: set<Entry>,
                         big: nat, span: nat)
  {
    && live <= s.procs && big < span <= HALF
    && Agree(comp, ByStride(s.stride), live - moved)
    && InWindow(s.stride, s.procs, span)
  }

  class RunQueue {
    const bigStride: uint32
    ghost const span: nat              // the window that all strides lie in
    const pool: Pool                   // lab6_run_pool
    var le2proc: map<Entry, Process>
    var current: Entry?                // null for idleproc
    ghost var now: State<Entry>        // the queued processes and the running one
    ghost var states: seq<State<Entry>>  // every `now` there has been
    ghost var events: seq<Event<Entry>>  // what has happened in between

    ghost predicate Consistent(moved: set<Entry>)
      reads this`now, this`le2proc, pool, Nodes(Outcome(pool.ops)), le2proc.Values
    {
      && pool.Valid() && InMemory(le2proc, now)
      && Queues(Live(pool.ops), Current(pool.ops), now, moved, bigStride, span)
    }

    /** What has happened so far is a run that started with no process. */
    ghost predicate Logged()
      reads this`now, this`states, this`events
    {
      && Run(states, events, bigStride, span)
      && states[0].procs == {} && states[|events|] == now
    }

    /** All processes but the running one are queued. */
    ghost predicate Valid()
      reads this, pool, Nodes(Outcome(pool.ops)), le2proc.Values
    {
      && Consistent({}) && Logged()
      && (current != null ==> current in now.procs)
      && Live(pool.ops) == now.procs - if current == null then {} else {current}
    }

    constructor (bigStride: uint32, ghost span: nat)
      requires bigStride < span <= HALF
      ensures Valid() && fresh(pool) && now.procs == {} && current == null && events == []
      ensures this.bigStride == bigStride && this.span == span
    {
      this.bigStride, this.span, le2proc := bigStride, span, map[];
      pool := new Pool();
      current, now := null, State(_ => 0, {});
      states, events := [State(_ => 0, {})], [];
      new;
      assert Within(now.stride, now.procs, 0, span);
    }

    /** Over any stretch of what has happened, the shares of two processes that stayed and kept
        their priorities are fair, whatever the others did. */
    lemma Fair(i: nat, j: nat, x: Entry, y: Entry, sx: nat, sy: nat)
      requires Valid() && i <= j <= |events| && x != y
      requires Stays(states[i..j + 1], x) && Stays(states[i..j + 1], y)
      requires OwnStep(events[i..j], x, sx) && OwnStep(events[i..j], y, sy)
      ensures Turns(events[i..j], x) * sx - Turns(events[i..j], y) * sy <= Max(0, sx - Ahead(states[i], x, y))
    {
      assert Within(states[0].stride, states[0].procs, 0, span);
      FairShares(states, events, bigStride, span, i, j, x, y, sx, sy);
    }

    /** The same in priorities. */
    lemma FairByPriority(i: nat, j: nat, x: Entry, y: Entry, px: nat, py: nat, sx: nat, sy: nat)
      requires Valid() && i <= j <= |events| && x != y
      requires Stays(states[i..j + 1], x) && Stays(states[i..j + 1], y)
      requires OwnStep(events[i..j], x, sx) && OwnStep(events[i..j], y, sy)
      requires IsShare(bigStride, px, sx) && IsShare(bigStride, py, sy)
      ensures var tx, ty := Turns(events[i..j], x), Turns(events[i..j], y);
        && (tx * py - ty * px) * bigStride <= Max(0, sx - Ahead(states[i], x, y)) * (px * py) + (tx * py) * px
        && (px >= py >= 1 && py <= bigStride && states[i].stride(x) == states[i].stride(y) ==> ty <= tx + 1)
    {
      assert Within(states[0].stride, states[0].procs, 0, span);
      FairPriorities(states, events, bigStride, span, i, j, x, y, px, py, sx, sy);
      if px >= py >= 1 && py <= bigStride && states[i].stride(x) == states[i].stride(y) {
        PriorityGetsMore(states, events, bigStride, span, i, j, x, y, px, py, sx, sy);
      }
    }

    /** One more event. */
    ghost method Log(e: Event<Entry>, s: State<Entry>)
      requires Logged() && Happens(e, now, s, bigStride, span)
      modifies this`now, this`states, this`events
      ensures Logged() && now == s && events == old(events) + [e] && states == old(states) + [s]
    {
      OneMoreEvent(states, events, bigStride, span, e, s);
      now, states, events := s, states + [s], events + [e];
    }

    /** sched_class_enqueue: into the heap, by the strides in memory. */
    method Enqueue(x: Entry)
      requires Consistent({}) && x in now.procs && x !in Live(pool.ops)
      modifies pool, Live(pool.ops), x
      ensures Consistent({}) && Live(pool.ops) == old(Live(pool.ops)) + {x}
    {
      QueueIsOrder(Live(pool.ops), Current(pool.ops), now, x, bigStride, span);
      CallbackComputes(le2proc, now.stride, Live(pool.ops) + {x});
      pool.Insert(x, ProcStrideComp(le2proc), ByStride(now.stride));
      assert InMemory(le2proc, now);
    }

    /** The least process advances, while it is in the heap. */
    method Advance(x: Entry, step: nat)
      requires Consistent({}) && Logged()
      requires x in now.procs && IsLeast(ByStride(now.stride), now.procs, x)
      requires step <= bigStride
      modifies this`now, this`states, this`events, {le2proc[x]}`stride
      ensures Consistent({x}) && Happens(Pick(x, step), old(now), now, bigStride, span)
      ensures Logged() && events == old(events) + [Pick(x, step)] && old(states) <= states
    {
      var p := le2proc[x];
      p.stride := Plus(p.stride, step);
      Log(Pick(x, step), now.(stride := With(now.stride, x, p.stride)));
      PickKeepsQueue(Live(pool.ops), Current(pool.ops), old(now), now, x, step, bigStride, span);
    }

    lemma RootIsLeast()
      requires Consistent({}) && now.procs == Live(pool.ops)
      ensures pool.root == null <==> now.procs == {}
      ensures pool.root != null ==>
                && pool.root in now.procs && now.procs <= le2proc.Keys && le2proc[pool.root].priority >= 1
                && IsLeast(ByStride(now.stride), now.procs, pool.root)
    {
      assert Live(pool.ops) - {} == Live(pool.ops);
      pool.Promise(ByStride(now.stride), 0);
    }

    /** sched_class_pick_next: the root, which advances by its step. */
    method PickNext() returns (next: Entry?)
      requires Consistent({}) && Logged() && now.procs == Live(pool.ops)
      modifies this`now, this`states, this`events, le2proc.Values`stride
      ensures Logged() && (next == null <==> now.procs == {})
      ensures events == old(events) + Picked(next, StepOf(le2proc, bigStride, next)) && old(states) <= states
      ensures next == null ==> now == old(now) && Consistent({})
      ensures next != null ==>
                && Consistent({next})
                && Happens(Pick(next, StepOf(le2proc, bigStride, next)), old(now), now, bigStride, span)
                && Advances(le2proc, bigStride, next, old(now).stride(next))
    {
      RootIsLeast();
      next := pool.root;
      if next != null {
        var x: Entry := next;
        assert le2proc[x] in le2proc.Values;
        ghost var was := now.stride(x);
        var step := Share(bigStride, le2proc[x].priority);
        Advance(x, step);
        AdvanceInMemory(le2proc, bigStride, x, was, step, now);
      }
    }

    /** sched_class_dequeue, of a process whose stride may have changed. */
    method Dequeue(x: Entry)
      requires Consistent({x}) && x in Live(pool.ops)
      modifies pool, Live(pool.ops)
      ensures Consistent({}) && Live(pool.ops) == old(Live(pool.ops)) - {x}
    {
      OneMoreRemove(pool.ops, x, ByStride(now.stride));
      CallbackComputes(le2proc, now.stride, Live(pool.ops) - {x});
      pool.Remove(x, ProcStrideComp(le2proc), ByStride(now.stride));
      assert InMemory(le2proc, now);
    }

    /** schedule up to the pick: the running process goes back if it is runnable. */
    method Requeue(runnable: bool)
      requires Valid()
      modifies this`now, this`states, this`events, pool, now.procs
      ensures Consistent({}) && Live(pool.ops) == now.procs && now == old(Runnable(now, current, runnable))
      ensures Logged() && events == old(events) + Left(current, runnable) && old(states) <= states
    {
      if current != null {
        var x: Entry := current;
        if runnable {
          Enqueue(x);
        } else {
          LeaveKeepsQueue(Live(pool.ops), Current(pool.ops), now, x, bigStride, span);
          Log(Leave(x), Runnable(now, x, false));
        }
      }
    }

    /** The process picked comes out of the queue and runs. */
    method Switch(next: Entry)
      requires Consistent({next}) && Logged() && Live(pool.ops) == now.procs && next in now.procs
      modifies this`current, pool, now.procs
      ensures Valid() && current == next
      ensures StepOf(le2proc, bigStride, next) == old(StepOf(le2proc, bigStride, next))
    {
      Dequeue(next);
      current := next;
    }

    /** schedule from the pick on: the least process comes out of the queue, its stride
        advanced already, and runs. */
    method RunNext()
      requires Consistent({}) && Logged() && Live(pool.ops) == now.procs
      modifies this`current, this`now, this`states, this`events, pool, now.procs, le2proc.Values`stride
      ensures Valid() && (current == null <==> now.procs == {})
      ensures events == old(events) + Picked(current, StepOf(le2proc, bigStride, current)) && old(states) <= states
      ensures current == null ==> now == old(now)
      ensures current != null ==>
                Happens(Pick(current, StepOf(le2proc, bigStride, current)), old(now), now, bigStride, span)
    {
      var next := PickNext();
      if next == null {
        current := null;
        return;
      }
      Switch(next);
    }

    /** schedule */
    method Schedule(runnable: bool)
      requires Valid()
      modifies this`current, this`now, this`states, this`events, pool, now.procs, le2proc.Values`stride
      ensures Valid() && (current == null <==> now.procs == {})
      ensures events == old(events) + old(Left(current, runnable))
                     + Picked(current, StepOf(le2proc, bigStride, current))
      ensures old(states) <= states
      ensures var s := old(Runnable(now, current, runnable));
        && (current == null ==> now == s)
        && (current != null ==>
              Happens(Pick(current, StepOf(le2proc, bigStride, current)), s, now, bigStride, span))
    {
      Requeue(runnable);
      RunNext();
    }

    /** p is the process of x and is not runnable yet; its stride keeps the window. */
    ghost predicate MayJoin(x: Entry, p: Process)
      reads this`now, this`le2proc, p
    {
      && x !in now.procs && p.priority >= 1
      && (x in le2proc ==> le2proc[x] == p) && (forall y | y in le2proc && le2proc[y] == p :: y == x)
      && InWindow(With(now.stride, x, p.stride), now.procs + {x}, span)
    }

    /** wakeup_proc, and the start of a new process: it joins the queue if its stride keeps
        the window. */
    method Wakeup(x: Entry, p: Process)
      requires Valid() && MayJoin(x, p)
      modifies this`le2proc, this`now, this`states, this`events, pool, now.procs, x
      ensures Valid() && le2proc == old(le2proc)[x := p] && events == old(events) + [Join(x)]
      ensures old(states) <= states
      ensures Happens(Join(x), old(now), now, bigStride, span) && now.stride(x) == p.stride
    {
      Admit(x, p);
      Enqueue(x);
    }

    /** A process that is not queued yet. */
    method Admit(x: Entry, p: Process)
      requires Consistent({}) && Logged() && MayJoin(x, p)
      modifies this`le2proc, this`now, this`states, this`events
      ensures Consistent({}) && le2proc == old(le2proc)[x := p]
      ensures Logged() && events == old(events) + [Join(x)]
      ensures old(states) <= states
      ensures Happens(Join(x), old(now), now, bigStride, span) && now.stride(x) == p.stride
    {
      MemoryOfOneMore(le2proc, now, x, p);
      le2proc := le2proc[x := p];
      Log(Join(x), State(With(now.stride, x, p.stride), now.procs + {x}));
      JoinKeepsQueue(Live(pool.ops), Current(pool.ops), old(now), now, x, bigStride, span);
    }

    /** lab6_set_priority */
    method SetPriority(priority: uint32)
      requires Valid() && current != null
      modifies {le2proc[current]}`priority
      ensures Valid() && le2proc[current].priority == if priority == 0 then 1 else priority
    {
      le2proc[current].priority := if priority == 0 then 1 else priority;
    }
  }

  /** The events of a call of schedule: the running process may leave, and one may be picked. */
  ghost function Left(current: Entry?, runnable: bool): seq<Event<Entry>> {
    if current == null || runnable then []
    else
      var x: Entry := current;
      [Leave(x)]
  }

  ghost function Picked(current: Entry?, step: nat): seq<Event<Entry>> {
    if current == null then []
    else
      var x: Entry := current;
      [Pick(x, step)]
  }

  /** What can be picked from: the running process only if it is still runnable. */
  ghost function Runnable(s: State<Entry>, current: Entry?, runnable: bool): State<Entry> {
    if current != null && !runnable then s.(procs := s.procs - {current}) else s
  }

  lemma MemoryOfOneMore(le2proc: map<Entry, Process>, s: State<Entry>, x: Entry, p: Process)
    requires InMemory(le2proc, s) && x !in s.procs && p.priority >= 1
    requires forall y | y in le2proc && le2proc[y] == p :: y == x
    ensures InMemory(le2proc[x := p], State(With(s.stride, x, p.stride), s.procs + {x}))
  {
  }

  lemma AdvanceInMemory(le2proc: map<Entry, Process>, big: nat, x: Entry, was: uint32, step: nat, s: State<Entry>)
    requires InMemory(le2proc, s) && x in s.procs && s.stride(x) == Plus(was, step)
    requires IsShare(big, le2proc[x].priority, step)
    ensures Advances(le2proc, big, x, was)
  {
  }

  lemma LeaveKeepsQueue(live: set<Entry>, comp: Comparator<Entry>, s: State<Entry>, x: Entry, big: nat, span: nat)
    requires Queues(live, comp, s, {}, big, span) && x !in live
    ensures Queues(live, comp, s.(procs := s.procs - {x}), {}, big, span)
  {
    EventKeepsWindow(Leave(x), s, s.(procs := s.procs - {x}), big, span);
  }

  lemma JoinKeepsQueue(live: set<Entry>, comp: Comparator<Entry>, s: State<Entry>, s': State<Entry>,
                       x: Entry, big: nat, span: nat)
    requires Queues(live, comp, s, {}, big, span) && Happens(Join(x), s, s', big, span)
    ensures Queues(live, comp, s', {}, big, span)
  {
  }

  lemma QueueIsOrder(live: set<Entry>, comp: Comparator<Entry>, s: State<Entry>, x: Entry, big: nat, span: nat)
    requires Queues(live, comp, s, {}, big, span) && x in s.procs
    ensures Agree(comp, ByStride(s.stride), live) && StrictWeakOrder(ByStride(s.stride), live + {x})
  {
    assert live - {} == live;
    WindowIsOrder(s.stride, s.procs, span);
  }

  lemma PickKeepsQueue(live: set<Entry>, comp: Comparator<Entry>, s: State<Entry>, s': State<Entry>,
                       x: Entry, step: nat, big: nat, span: nat)
    requires Queues(live, comp, s, {}, big, span) && Happens(Pick(x, step), s, s', big, span)
    ensures Queues(live, comp, s', {x}, big, span)
  {
    assert live - {} == live;
    EventKeepsWindow(Pick(x, step), s, s', big, span);
  }

  // ---------- round after round ----------

  /** How often x has run. */
  ghost function Times(ran: seq<Entry?>, x: Entry): nat {
    if ran == [] then 0
    else Times(ran[..|ran| - 1], x) + if ran[|ran| - 1] == x then 1 else 0
  }

  /** What has happened while those in `ran` have run, one in each round. */
  ghost predicate Rounded(events: seq<Event<Entry>>, ran: seq<Entry?>, step: Entry -> nat, s: set<Entry>) {
    && (forall k | 0 <= k < |events| ::
          !events[k].Join? && (events[k].Pick? ==> events[k].step == step(events[k].m)))
    && forall x | x in s :: Turns(events, x) == Times(ran, x)
  }

  lemma OneMoreRound(events: seq<Event<Entry>>, ran: seq<Entry?>, step: Entry -> nat, s: set<Entry>,
                     was: Entry?, runnable: bool, current: Entry?, k: nat)
    requires Rounded(events, ran, step, s) && (current != null ==> k == step(current))
    ensures Rounded(events + Left(was, runnable) + Picked(current, k), ran + [current], step, s)
  {
    var left, picked := Left(was, runnable), Picked(current, k);
    forall x | x in s
      ensures Turns(events + left + picked, x) == Times(ran + [current], x)
    {
      TurnsOfLeft(events, was, runnable, x);
      TurnsOfPicked(events + left, current, k, x);
      assert (ran + [current])[..|ran|] == ran;
    }
  }

  lemma TurnsOfLeft(events: seq<Event<Entry>>, was: Entry?, runnable: bool, x: Entry)
    ensures Turns(events + Left(was, runnable), x) == Turns(events, x)
  {
    var left := Left(was, runnable);
    if left == [] {
      assert events + left == events;
    } else {
      assert (events + left)[..|events|] == events;
    }
  }

  lemma TurnsOfPicked(events: seq<Event<Entry>>, current: Entry?, k: nat, x: Entry)
    ensures Turns(events + Picked(current, k), x) == Turns(events, x) + if current == x then 1 else 0
  {
    var picked := Picked(current, k);
    if picked == [] {
      assert events + picked == events;
    } else {
      assert (events + picked)[..|events|] == events;
    }
  }

  /** The steps of the processes of s are as `step` says, by their priorities in memory. */
  ghost predicate StepsAre(le2proc: map<Entry, Process>, big: nat, s: set<Entry>, step: Entry -> nat)
    reads le2proc.Values
  {
    forall x | x in s :: StepOf(le2proc, big, x) == step(x)
  }

  /** One round: what is added to the log, while no priority changes. */
  method OneRound(q: RunQueue, runnable: bool, ghost step: Entry -> nat) returns (x: Entry?)
    requires q.Valid() && StepsAre(q.le2proc, q.bigStride, q.now.procs, step)
    modifies q`current, q`now, q`states, q`events, q.pool, q.now.procs, q.le2proc.Values`stride
    ensures q.Valid() && x == q.current && q.now.procs <= old(q.now.procs) && old(q.states) <= q.states
    ensures StepsAre(q.le2proc, q.bigStride, q.now.procs, step)
    ensures exists k: nat ::
              && (x != null ==> k == step(x))
              && q.events == old(q.events) + old(Left(q.current, runnable)) + Picked(x, k)
  {
    q.Schedule(runnable);
    x := q.current;
    assert forall y | y in q.now.procs ::
        StepOf(q.le2proc, q.bigStride, y) == old(StepOf(q.le2proc, q.bigStride, y));
  }

  /** The same, added to what has happened since event i. */
  method NextRound(q: RunQueue, runnable: bool, ghost step: Entry -> nat,
                   ghost i: nat, ghost ran: seq<Entry?>, ghost s: set<Entry>)
    returns (x: Entry?)
    requires q.Valid() && StepsAre(q.le2proc, q.bigStride, q.now.procs, step)
    requires i <= |q.events| && Rounded(q.events[i..], ran, step, s)
    modifies q`current, q`now, q`states, q`events, q.pool, q.now.procs, q.le2proc.Values`stride
    ensures q.Valid() && q.now.procs <= old(q.now.procs) && old(q.states) <= q.states
    ensures StepsAre(q.le2proc, q.bigStride, q.now.procs, step)
    ensures i <= |q.events| && Rounded(q.events[i..], ran + [x], step, s)
  {
    ghost var was, sofar := q.current, q.events;
    x := OneRound(q, runnable, step);
    ghost var k: nat :| (x != null ==> k == step(x)) && q.events == sofar + Left(was, runnable) + Picked(x, k);
    OneMoreRound(sofar[i..], ran, step, s, was, runnable, x, k);
    assert q.events[i..] == sofar[i..] + Left(was, runnable) + Picked(x, k);
  }

  /** Any two have run in inverse proportion to their steps: weighted by them, one at most one
      turn more than the other, but for what it was behind at first. */
  ghost predicate Fair(ran: seq<Entry?>, first: State<Entry>, s: set<Entry>, step: Entry -> nat) {
    forall x, y | x in s && y in s && x != y ::
      Times(ran, x) * step(x) - Times(ran, y) * step(y) <= Max(0, step(x) - Ahead(first, x, y))
  }

  /** In priorities, of processes that started with equal strides: a bigger one never has had
      two turns less. */
  ghost predicate FairByPriority(le2proc: map<Entry, Process>, big: nat, ran: seq<Entry?>,
                                 first: State<Entry>, s: set<Entry>)
    requires s <= le2proc.Keys
    reads le2proc.Values
  {
    forall x, y | x in s && y in s && x != y && first.stride(x) == first.stride(y)
                  && le2proc[x].priority >= le2proc[y].priority && le2proc[y].priority <= big ::
      Times(ran, y) <= Times(ran, x) + 1
  }

  /** A bound in steps and what it says of turns. */
  lemma TurnsByStep(tx: nat, ty: nat, sx: nat, sy: nat)
    requires ty * sy - tx * sx <= sy && sx <= sy && sy >= 1
    ensures ty <= tx + 1
  {
    if ty > tx + 1 {
      MulMonotone(tx + 2, ty, sy);
      OneMoreTurn(tx + 1, sy);
      OneMoreTurn(tx, sy);
      MulMonotone(sx, sy, tx);
    }
  }

  lemma FairIsByPriority(le2proc: map<Entry, Process>, big: nat, ran: seq<Entry?>,
                         first: State<Entry>, now: State<Entry>, step: Entry -> nat)
    requires Fair(ran, first, now.procs, step) && InMemory(le2proc, now) && StepsAre(le2proc, big, now.procs, step)
    ensures FairByPriority(le2proc, big, ran, first, now.procs)
  {
    forall x, y | x in now.procs && y in now.procs && x != y && first.stride(x) == first.stride(y)
                  && le2proc[x].priority >= le2proc[y].priority && le2proc[y].priority <= big
      ensures Times(ran, y) <= Times(ran, x) + 1
    {
      var px, py := le2proc[x].priority, le2proc[y].priority;
      assert step(x) == Share(big, px) && step(y) == Share(big, py);
      SharesFall(big, px, py, step(x), step(y));
      ShareIsPositive(big, py, step(y));
      assert Ahead(first, y, x) == 0;
      TurnsByStep(Times(ran, x), Times(ran, y), step(x), step(y));
    }
  }

  lemma RoundsAreFair(q: RunQueue, i: nat, ran: seq<Entry?>, step: Entry -> nat)
    requires q.Valid() && i <= |q.events| && Rounded(q.events[i..], ran, step, q.now.procs)
    ensures Fair(ran, q.states[i], q.now.procs, step)
  {
    var j, since := |q.events|, q.events[i..];
    assert q.events[i..j] == since;
    forall k | i <= k <= j ensures q.now.procs <= q.states[k].procs {
      assert forall l | k <= l < j :: q.events[l] == since[l - i];
      NobodyJoins(q.states, q.events, q.bigStride, q.span, k, j);
    }
    forall x, y | x in q.now.procs && y in q.now.procs && x != y
      ensures Times(ran, x) * step(x) - Times(ran, y) * step(y) <= Max(0, step(x) - Ahead(q.states[i], x, y))
    {
      q.Fair(i, j, x, y, step(x), step(y));
    }
  }

  /** Calls of schedule, on the pointers and the strides in memory, where the running process
      may have gone to sleep in between: those that never do have run in fair shares. */
  method Rounds(q: RunQueue, runnable: seq<bool>, ghost step: Entry -> nat) returns (ran: seq<Entry?>)
    requires q.Valid() && StepsAre(q.le2proc, q.bigStride, q.now.procs, step)
    modifies q`current, q`now, q`states, q`events, q.pool, q.now.procs, q.le2proc.Values`stride
    ensures q.Valid() && q.now.procs <= old(q.now.procs) && |ran| == |runnable|
    ensures Fair(ran, old(q.now), q.now.procs, step)
    ensures FairByPriority(q.le2proc, q.bigStride, ran, old(q.now), q.now.procs)
  {
    ghost var first, states, start := q.now, q.states, |q.events|;
    ran := [];
    for i := 0 to |runnable|
      invariant q.Valid() && q.now.procs <= first.procs && |ran| == i
      invariant StepsAre(q.le2proc, q.bigStride, q.now.procs, step)
      invariant states <= q.states && start <= |q.events|
      invariant Rounded(q.events[start..], ran, step, first.procs)
    {
      var x := NextRound(q, runnable[i], step, start, ran, first.procs);
      ran := ran + [x];
    }
    RoundsAreFair(q, start, ran, step);
    FairIsByPriority(q.le2proc, q.bigStride, ran, first, q.now, step);
  }
}
