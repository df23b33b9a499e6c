/** How often `rand` returns each value over a full period: 2^36 is not a multiple of
    RAND_MAX, so the first few values come up once more for each low part. */
module RandBias {
  import opened Arithmetic
  import opened Rand

  const LOW := 0x1000          // states that differ in the 12 bits dropped
  const HIGH := 0x10_0000_0000  // values of the 36 bits kept

  /** The times in one period at which v is returned. */
  ghost function Times(seed: nat, v: int): set<nat> {
    set n: nat | 1 <= n <= M && NthRand(n, seed) == v :: n
  }

  /** The states from which v is drawn, below a bound. */
  ghost function Drawing(v: int, bound: nat): set<nat> {
    set s: nat | 0 <= s < bound && Draw(s) == v :: s
  }

  ghost predicate MetAt(seed: nat, times: set<nat>, s: nat) {
    exists n :: n in times && States(n, seed) == s
  }

  /** Times that meet each state of b once, and no other, are as many as b. */
  lemma {:induction false} OneToOne(times: set<nat>, b: set<nat>, seed: nat)
    requires forall n | n in times :: States(n, seed) in b
    requires forall i, j | i in times && j in times && States(i, seed) == States(j, seed) :: i == j
    requires forall s | s in b :: MetAt(seed, times, s)
    ensures |times| == |b|
  {
    if times == {} {
      assert forall s | s in b :: MetAt(seed, times, s);
      assert b == {};
    } else {
      var x :| x in times;
      var times', b' := times - {x}, b - {States(x, seed)};
      forall s | s in b' ensures MetAt(seed, times', s) {
        assert MetAt(seed, times, s);
        var n :| n in times && States(n, seed) == s;
        assert n in times';
      }
      OneToOne(times', b', seed);
    }
  }

  lemma DrawingIsMet(seed: nat, v: int, s: nat)
    requires seed < M && s in Drawing(v, M)
    ensures MetAt(seed, Times(seed, v), s)
  {
    var n := VisitByCall(seed, s);
    DrawnAt(seed, v, n, States(n, seed));
  }

  lemma {:induction false} DrawnAt(seed: nat, v: int, n: nat, s: nat)
    requires 1 <= n <= M && s == States(n, seed) && Draw(s) == v
    ensures n in Times(seed, v)
  {
    assert NthRand(n, seed) == Draw(s);
  }

  lemma TimeDraws(seed: nat, v: int, n: nat)
    requires seed < M && n in Times(seed, v)
    ensures States(n, seed) in Drawing(v, M)
  {
    StateBound(n, seed);
  }

  /** Over a period each state is met once, so counting times is counting states. */
  lemma TimesAreStates(seed: nat, v: int)
    requires seed < M
    ensures |Times(seed, v)| == |Drawing(v, M)|
  {
    var times, b := Times(seed, v), Drawing(v, M);
    forall n | n in times ensures States(n, seed) in b {
      TimeDraws(seed, v, n);
    }
    forall i, j | i in times && j in times && States(i, seed) == States(j, seed) ensures i == j {
      VisitsOnce(i, j, seed);
    }
    forall s | s in b ensures MetAt(seed, times, s) {
      DrawingIsMet(seed, v, s);
    }
    OneToOne(times, b, seed);
  }

  ghost function Interval(lo: nat, hi: nat): (i: set<nat>)
    requires lo <= hi
    ensures forall s: nat :: s in i <==> lo <= s < hi
    decreases hi - lo
  {
    if lo == hi then {} else Interval(lo, hi - 1) + {hi - 1}
  }

  lemma {:induction false} IntervalSize(lo: nat, hi: nat)
    requires lo <= hi
    ensures |Interval(lo, hi)| == hi - lo
    decreases hi - lo
  {
    if lo >= hi {
    } else {
      IntervalSize(lo, hi - 1);
    }
  }

  /** The high parts that draw v are v - 1, v - 1 + RAND_MAX, ...; this is the q-th. */
  function HighPart(v: int, q: nat): int {
    v - 1 + q * RAND_MAX
  }

  /** Below the q-th high part are exactly the q earlier ones. */
  lemma DrawsBelow(v: int, q: nat, s: nat)
    requires 1 <= v <= RAND_MAX && HighPart(v, q) * LOW <= s < HighPart(v, q + 1) * LOW
    ensures Draw(s) == v <==> s < HighPart(v, q) * LOW + LOW
  {
    var h := s / LOW;
    assert HighPart(v, q) <= h < HighPart(v, q + 1);
    DivModUnique(HighPart(v, q), q, v - 1, RAND_MAX);
    if h - q * RAND_MAX < RAND_MAX {
      DivModUnique(h, q, h - q * RAND_MAX, RAND_MAX);
    } else {
      DivModUnique(h, q + 1, h - (q + 1) * RAND_MAX, RAND_MAX);
    }
  }

  lemma NoneBelowFirst(v: int)
    requires 1 <= v <= RAND_MAX
    ensures Drawing(v, (v - 1) * LOW) == {}
  {
    forall s: nat | s < (v - 1) * LOW ensures Draw(s) != v {
      assert s / LOW < v - 1;
      DivModUnique(s / LOW, 0, s / LOW, RAND_MAX);
    }
  }

  lemma NextHighPart(v: int, q: nat)
    requires 1 <= v <= RAND_MAX
    ensures 0 <= HighPart(v, q) && HighPart(v, q + 1) == HighPart(v, q) + RAND_MAX
  {
  }

  /** From one high part to the next, one block of states draws v. */
  lemma OneMoreBlock(v: int, lo: nat, hi: nat, q: nat)
    requires 1 <= v <= RAND_MAX && lo == HighPart(v, q) * LOW && hi == HighPart(v, q + 1) * LOW
    ensures |Drawing(v, hi)| == |Drawing(v, lo)| + LOW
  {
    NextHighPart(v, q);
    IntervalSize(lo, lo + LOW);
    forall s: nat | s < hi ensures Draw(s) == v <==> s in Drawing(v, lo) || s in Interval(lo, lo + LOW) {
      if s >= lo {
        DrawsBelow(v, q, s);
      }
    }
    assert Drawing(v, hi) == Drawing(v, lo) + Interval(lo, lo + LOW);
  }

  lemma {:induction false} CountBelow(v: int, q: nat)
    requires 1 <= v <= RAND_MAX
    ensures HighPart(v, q) >= 0 && |Drawing(v, HighPart(v, q) * LOW)| == q * LOW
  {
    if q == 0 {
      NoneBelowFirst(v);
    } else {
      CountBelow(v, q - 1);
      NextHighPart(v, q - 1);
      OneMoreBlock(v, HighPart(v, q - 1) * LOW, HighPart(v, q) * LOW, q - 1);
    }
  }

  /** In every period of 2^48 calls, from every seed, rand() returns each value from 1 to 32
      exactly 33 * 4096 times, each other one up to RAND_MAX exactly 32 * 4096 times. */
  lemma {:induction false} Bias(seed: nat, v: int)
    requires seed < M && 1 <= v <= RAND_MAX
    ensures |Times(seed, v)| == (if v <= 32 then 33 else 32) * LOW
  {
    TimesAreStates(seed, v);
    var q := if v <= 32 then 33 else 32;
    CountBelow(v, q);
    assert HIGH == 32 * RAND_MAX + 32;
    var bound := HighPart(v, q) * LOW;
    assert HighPart(v, q - 1) < HIGH <= HighPart(v, q);
    forall s: nat | M <= s < bound ensures Draw(s) != v {
      DrawsBelow(v, q - 1, s);
    }
    assert Drawing(v, bound) == Drawing(v, M);
  }
}
