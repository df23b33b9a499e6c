/** `rand.c`: the 48-bit linear congruential generator of drand48, and the value drawn
    from its state. */
module Rand {
  import opened Arithmetic

  const A := 0x5DEECE66D
  const C := 0xB
  const M := 0x1_0000_0000_0000
  const RAND_MAX := 2147483647

  /** The recurrence on the state, in arithmetic modulo 2^48. */
  function Step(x: nat): nat {
    (x * A + C) % M
  }

  function States(n: nat, x: nat): nat {
    if n == 0 then x else Step(States(n - 1, x))
  }

  /** The value returned when the state is s.  In the source the macro argument
      RAND_MAX + 1 is not parenthesised, so 1 is added after the remainder is taken. */
  function Draw(s: nat): int {
    (s / 0x1000) % RAND_MAX + 1
  }

  /** Cutting to 64 bits on the way does not change the low 48. */
  lemma {:induction false} MaskAfterWrap(y: nat)
    ensures (y % WORD64 + C) % WORD64 % M == (y + C) % M
  {
    Recompose(y, WORD64);
    SameRemainder(y % WORD64 + C, y + C, -(y / WORD64), WORD64);
    RemainderOfRemainder(y + C, M, 0x1_0000);
  }

  /** What the n-th call of rand() returns after srand(seed). */
  function NthRand(n: nat, seed: nat): int
    requires n >= 1
  {
    Draw(States(n, seed))
  }

  class Generator {
    var next: nat         // unsigned long long
    ghost var seed: nat   // what srand was given last, 1 before
    ghost var calls: nat  // of rand since then

    ghost predicate Valid()
      reads this
    {
      seed < M && next < M && next == States(calls, seed)
    }

    constructor ()
      ensures Valid() && seed == 1 && calls == 0
    {
      next, seed, calls := 1, 1, 0;
    }

    /** srand */
    method SRand(seed: nat)
      requires seed < 0x1_0000_0000  // unsigned int
      modifies this
      ensures Valid() && this.seed == seed && calls == 0
    {
      next := seed;
      this.seed, calls := seed, 0;
    }

    /** rand: the product wraps at 64 bits before the mask cuts it to 48. */
    method Rand() returns (r: int)
      requires Valid()
      modifies this
      ensures Valid() && seed == old(seed) && calls == old(calls) + 1
      ensures r == NthRand(calls, seed) && 1 <= r <= RAND_MAX
      ensures next == (old(next) * 25214903917 + 11) % 0x1_0000_0000_0000
      ensures r == next / 4096 % 2147483647 + 1
    {
      MaskAfterWrap(next * A);
      next := ((next * A) % WORD64 + C) % WORD64 % M;
      calls := calls + 1;
      var result := next / 0x1000;
      r := result % RAND_MAX + 1;
    }
  }

  /** The first three values after srand(1). */
  lemma {:induction false} FirstValues()
    ensures NthRand(1, 1) == 6155983 && NthRand(2, 1) == 907315447 && NthRand(3, 1) == 1947276717
  {
    StepIs(1, 25214903928, 0);
    StepIs(25214903928, 206026503483683, 2258784);
    StepIs(206026503483683, 245470556921330, 18456129032);
    assert States(1, 1) == Step(States(0, 1)) == 25214903928;
    assert States(2, 1) == Step(States(1, 1)) == 206026503483683;
    assert States(3, 1) == Step(States(2, 1)) == 245470556921330;
    assert Draw(25214903928) == 6155983 && Draw(206026503483683) == 907315447 && Draw(245470556921330) == 1947276717;
  }

  lemma {:induction false} StepIs(x: nat, y: nat, q: nat)
    requires x * A + C == q * M + y && y < M
    ensures Step(x) == y
  {
    DivModUnique(x * A + C, q, y, M);
  }

  // ---------- the orbit over the integers ----------

  /** n steps with no reduction at all. */
  function Free(n: nat, x: int): int {
    if n == 0 then x else Free(n - 1, x) * A + C
  }

  lemma {:induction false} FreeSum(m: nat, n: nat, x: int)
    ensures Free(m + n, x) == Free(m, Free(n, x))
  {
    if m == 0 {
    } else {
      FreeSum(m - 1, n, x);
    }
  }

  lemma Image(s: int, f: int, q: int, m: int, a: int, c: int)
    requires s == f + q * m
    ensures s * a + c == f * a + c + (q * a) * m
  {
    assert (q * m) * a == (q * a) * m;
  }

  lemma {:induction false} SameLowBits(s: int, f: int, k: nat)
    requires k <= 48 && s % Pow2(k) == f % Pow2(k)
    ensures (s * A + C) % M % Pow2(k) == (f * A + C) % Pow2(k)
  {
    var m, j := Pow2(k), Pow2(48 - k);
    assert m * j == M by {
      Pow2Constants();
      Pow2Sum(k, 48 - k);
    }
    var a, b := s * A + C, f * A + C;
    RemainderOfRemainder(a, m, j);
    var q := Congruent(s, f, m);
    Image(s, f, q, m, A, C);
    SameRemainder(a, b, q * A, m);
  }

  /** Reducing at each step or never, the low k bits are the same. */
  lemma {:induction false} StatesAreFree(n: nat, x: nat, k: nat)
    requires k <= 48
    ensures States(n, x) % Pow2(k) == Free(n, x) % Pow2(k)
  {
    if n == 0 {
    } else {
      StatesAreFree(n - 1, x, k);
      SameLowBits(States(n - 1, x), Free(n - 1, x), k);
    }
  }

  // 2^k steps are the affine map x -> P(k) * x + Q(k), where P(k) is 1 modulo 2^(k+2)
  // and Q(k) is an odd multiple of 2^k.

  function P(k: nat): int {
    if k == 0 then A else P(k - 1) * P(k - 1)
  }

  function Q(k: nat): int {
    if k == 0 then C else (P(k - 1) + 1) * Q(k - 1)
  }

  lemma Compose(p: int, q: int, x: int)
    ensures p * (p * x + q) + q == (p * p) * x + (p + 1) * q
  {
  }

  lemma {:induction false} Block(k: nat, x: int)
    ensures Free(Pow2(k), x) == P(k) * x + Q(k)
  {
    if k == 0 {
      assert Free(1, x) == Free(0, x) * A + C;
    } else {
      var t := Pow2(k - 1);
      Block(k - 1, x);
      Block(k - 1, Free(t, x));
      FreeSum(t, t, x);
      Compose(P(k - 1), Q(k - 1), x);
    }
  }

  lemma Square(p: int, t: int, u: int) returns (u': int)
    requires p == 1 + 4 * (t * u)
    ensures p * p == 1 + 4 * ((2 * t) * u')
  {
    u' := u + 2 * (t * u) * u;
    var z := t * u;
    assert p * p == 1 + 8 * z + 16 * (z * z);
    assert t * u' == z + 2 * (z * z) by {
      assert t * (2 * z * u) == 2 * z * (t * u);
    }
    assert (2 * t) * u' == 2 * (t * u');
  }

  lemma Double(p: int, q: int, t: int, u: int, v: int) returns (v': int)
    requires p == 1 + 4 * (t * u) && q == t * (1 + 2 * v)
    ensures (p + 1) * q == (2 * t) * (1 + 2 * v')
  {
    var z, w := t * u, 1 + 2 * v;
    v' := v + z * w;
    assert 1 + 2 * v' == (1 + 2 * z) * w;
    assert (p + 1) * q == (2 * (1 + 2 * z)) * (t * w);
    assert (2 * t) * ((1 + 2 * z) * w) == (2 * (1 + 2 * z)) * (t * w);
  }

  lemma {:induction false} Coefficients(k: nat) returns (u: int, v: int)
    ensures P(k) == 1 + 4 * (Pow2(k) * u) && Q(k) == Pow2(k) * (1 + 2 * v)
  {
    if k == 0 {
      u, v := (A - 1) / 4, (C - 1) / 2;
    } else {
      var u', v' := Coefficients(k - 1);
      u := Square(P(k - 1), Pow2(k - 1), u');
      v := Double(P(k - 1), Q(k - 1), Pow2(k - 1), u', v');
    }
  }

  /** 2^k steps shift the state by an odd multiple of 2^k. */
  lemma BlockShift(k: nat, x: int) returns (z: int)
    ensures Free(Pow2(k), x) == x + Pow2(k) * (1 + 2 * z)
  {
    Block(k, x);
    var u, v := Coefficients(k);
    var t := Pow2(k);
    z := 2 * (u * x) + v;
    ShiftAlgebra(t, u, v, x);
  }

  lemma ShiftAlgebra(t: int, u: int, v: int, x: int)
    ensures (1 + 4 * (t * u)) * x + t * (1 + 2 * v) == x + t * (1 + 2 * (2 * (u * x) + v))
  {
    MulAssociates(t, u, x);
    MulDistributes(x, 1, 4 * (t * u));
    MulAssociates(4, t * u, x);
    MulDistributes(t, 4 * (u * x), 1 + 2 * v);
    MulAssociates(4, t, u * x);
  }

  lemma Gather(t: int, a: int, b: int)
    ensures t * a + t * b == t * (a + b)
  {
  }

  /** q blocks of 2^k steps shift the state by 2^k times a number of q's parity. */
  lemma {:induction false} Shift(k: nat, q: nat, x: int) returns (w: int)
    ensures Free(q * Pow2(k), x) == x + Pow2(k) * (q + 2 * w)
  {
    var t := Pow2(k);
    if q == 0 {
      w := 0;
    } else {
      var w' := Shift(k, q - 1, x);
      var y := Free((q - 1) * t, x);
      var z := BlockShift(k, y);
      assert q * t == t + (q - 1) * t;
      FreeSum(t, (q - 1) * t, x);
      w := w' + z;
      Gather(t, q - 1 + 2 * w', 1 + 2 * z);
    }
  }

  // ---------- the period ----------

  /** The low k bits come back after n steps exactly when 2^k divides n. */
  lemma {:induction false} LowBitsPeriod(k: nat, n: nat, x: int)
    ensures Free(n, x) % Pow2(k) == x % Pow2(k) <==> n % Pow2(k) == 0
  {
    if k == 0 {
    } else {
      var t := Pow2(k - 1);
      LowBitsPeriod(k - 1, n, x);
      if Free(n, x) % (2 * t) == x % (2 * t) { HalfModulus(Free(n, x), x, t); }
      if n % (2 * t) == 0 { HalfModulus(n, 0, t); }
      if n % t == 0 {
        var q := n / t;
        assert n == q * t;
        var w := Shift(k - 1, q, x);
        TopBit(t, q, w, x, n);
      }
    }
  }

  /** Numbers that agree modulo 2t agree modulo t. */
  lemma {:induction false} HalfModulus(a: int, b: int, t: int)
    requires t > 0 && a % (2 * t) == b % (2 * t)
    ensures a % t == b % t
  {
    RemainderOfRemainder(a, t, 2);
    RemainderOfRemainder(b, t, 2);
  }

  /** A shift by q * t, up to multiples of 2t, is no shift just when q is even. */
  lemma {:induction false} TopBit(t: int, q: int, w: int, x: int, n: int)
    requires t > 0 && n == q * t
    ensures (x + t * (q + 2 * w)) % (2 * t) == x % (2 * t) <==> n % (2 * t) == 0
  {
    assert t * (q + 2 * w) == n + w * (2 * t);
    SameRemainder(x + t * (q + 2 * w), x + n, w, 2 * t);
    if n % (2 * t) == 0 {
      SameRemainder(x + n, x, n / (2 * t), 2 * t);
    }
    if (x + n) % (2 * t) == x % (2 * t) {
      var c := Congruent(x + n, x, 2 * t);
      DivModUnique(n, c, 0, 2 * t);
    }
  }

  /** Numbers an even multiple of t apart agree modulo 2t ... */
  lemma {:induction false} EvenApart(y: int, f: int, c: int, t: int)
    requires t > 0 && y == f + c * t && c % 2 == 0
    ensures y % (2 * t) == f % (2 * t)
  {
    MulAssociates(c / 2, 2, t);
    SameRemainder(y, f, c / 2, 2 * t);
  }

  /** ... and numbers that are odd multiples of t from a third one too. */
  lemma {:induction false} OddApart(y: int, f: int, c: int, t: int, z: int, g: int)
    requires t > 0 && y == f + c * t && c % 2 == 1 && g == f + t * (1 + 2 * z)
    ensures y % (2 * t) == g % (2 * t)
  {
    var d := c - (1 + 2 * z);
    MulDistributes(t, 1 + 2 * z, d);
    assert y == g + d * t;
    EvenApart(y, g, d, t);
  }

  /** From any state every pattern of the low k bits comes up within 2^k steps. */
  lemma {:induction false} LowBitsReach(k: nat, x: int, y: int) returns (n: nat)
    ensures n < Pow2(k) && Free(n, x) % Pow2(k) == y % Pow2(k)
  {
    if k == 0 {
      n := 0;
    } else {
      var t := Pow2(k - 1);
      n := LowBitsReach(k - 1, x, y);
      var f := Free(n, x);
      var c := Congruent(y, f, t);
      if c % 2 == 0 {
        EvenApart(y, f, c, t);
      } else {
        var z := BlockShift(k - 1, f);
        FreeSum(t, n, x);
        n := t + n;
        OddApart(y, f, c, t, z, Free(n, x));
      }
    }
  }

  // ---------- the generator ----------

  lemma StateBound(n: nat, x: nat)
    requires x < M
    ensures States(n, x) < M
  {
  }

  /** For k <= 48 the low k bits of the state cycle with period exactly 2^k. */
  lemma {:induction false} LowBitsCycle(k: nat, n: nat, seed: nat)
    requires k <= 48
    ensures States(n, seed) % Pow2(k) == seed % Pow2(k) <==> n % Pow2(k) == 0
  {
    StatesAreFree(n, seed, k);
    LowBitsPeriod(k, n, seed);
  }

  /** Full period: the state returns to the seed after n calls exactly when 2^48 divides n. */
  lemma {:induction false} FullPeriod(n: nat, seed: nat)
    requires seed < M
    ensures States(n, seed) == seed <==> n % M == 0
  {
    StateBound(n, seed);
    CycleOf(48, M, n, seed);
  }

  /** LowBitsCycle at k = 48.  The exponent and the modulus are parameters so that the verifier
      does not unfold Pow2(48). */
  lemma {:induction false} CycleOf(k: nat, m: nat, n: nat, seed: nat)
    requires k == 48 && m == M && seed < m && States(n, seed) < m
    ensures States(n, seed) == seed <==> n % m == 0
  {
    assert Pow2(k) == m by { Pow2Constants(); }
    LowBitsCycle(k, n, seed);
    DivModUnique(seed, 0, seed, m);
    DivModUnique(States(n, seed), 0, States(n, seed), m);
  }

  /** A time within the first period at which the state is y. */
  lemma {:induction false} Visit(seed: nat, y: nat) returns (n: nat)
    requires seed < M && y < M
    ensures n < M && States(n, seed) == y
  {
    n := ReachOf(48, M, seed, y);
    StateBound(n, seed);
    DivModUnique(y, 0, y, M);
    DivModUnique(States(n, seed), 0, States(n, seed), M);
  }

  /** LowBitsReach at k = 48, with parameters for the same reason. */
  lemma {:induction false} ReachOf(k: nat, m: nat, seed: nat, y: nat) returns (n: nat)
    requires k == 48 && m == M
    ensures n < m && States(n, seed) % m == y % m
  {
    assert Pow2(k) == m by { Pow2Constants(); }
    n := LowBitsReach(k, seed, y);
    StatesAreFree(n, seed, k);
  }

  /** Within one period every one of the 2^48 states is visited, and at one time only. */
  lemma {:induction false} VisitsEveryState(seed: nat, y: nat) returns (n: nat)
    requires seed < M && y < M
    ensures n < M && States(n, seed) == y
    ensures forall n' | 0 <= n' < M && States(n', seed) == y :: n' == n
  {
    n := Visit(seed, y);
    forall n' | 0 <= n' < M && States(n', seed) == y ensures n' == n {
      VisitsOnce(n', n, seed);
    }
  }

  /** A call of rand() in the first period that leaves the state y. */
  lemma {:induction false} VisitByCall(seed: nat, y: nat) returns (n: nat)
    requires seed < M && y < M
    ensures 1 <= n <= M && States(n, seed) == y
  {
    n := Visit(seed, y);
    if n == 0 {
      FullPeriod(M, seed);
      n := M;
    }
  }

  lemma {:induction false} StatesSum(m: nat, n: nat, x: nat)
    ensures States(m + n, x) == States(m, States(n, x))
  {
    if m == 0 {
    } else {
      StatesSum(m - 1, n, x);
    }
  }

  lemma {:induction false} SameStateLater(i: nat, d: nat, seed: nat)
    requires seed < M && d < M && States(i + d, seed) == States(i, seed)
    ensures d == 0
  {
    StateBound(i, seed);
    StatesSum(d, i, seed);
    FullPeriod(d, States(i, seed));
    DivModUnique(d, 0, d, M);
  }

  /** The same state is not met twice within a period. */
  lemma {:induction false} VisitsOnce(i: nat, j: nat, seed: nat)
    requires seed < M && -M < i - j < M && States(i, seed) == States(j, seed)
    ensures i == j
  {
    if i <= j {
      SameStateLater(i, j - i, seed);
    } else {
      SameStateLater(j, i - j, seed);
    }
  }

  /** rand() never returns 0, although [0, RAND_MAX] is announced; from every seed it
      returns every other announced value, within one period. */
  lemma {:induction false} EveryValueDrawn(seed: nat, v: int)
    requires seed < M
    ensures (exists n | 1 <= n <= M :: NthRand(n, seed) == v) <==> 1 <= v <= RAND_MAX
  {
    if 1 <= v <= RAND_MAX {
      var s := (v - 1) * 0x1000;
      assert Draw(s) == v;
      var n := VisitByCall(seed, s);
      assert NthRand(n, seed) == v;
    }
  }
}
