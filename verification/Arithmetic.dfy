/** Powers of two and remainders. */
module Arithmetic {

  /** The widths of C's unsigned integers. */
  const WORD32 := 0x1_0000_0000
  const WORD64 := 0x1_0000_0000_0000_0000

  type uint32 = x: nat | x < WORD32
  type uint64 = x: nat | x < WORD64

  function Min(a: int, b: int): int {
    if a <= b then a else b
  }

  function Max(a: int, b: int): int {
    if a <= b then b else a
  }

  function Pow2(k: nat): (p: nat)
    ensures p >= 1
  {
    if k == 0 then 1 else 2 * Pow2(k - 1)
  }

  lemma {:induction false} Pow2Sum(i: nat, j: nat)
    ensures Pow2(i + j) == Pow2(i) * Pow2(j)
  {
    if i == 0 {
    } else {
      Pow2Sum(i - 1, j);
      assert Pow2(i + j) == 2 * Pow2(i + j - 1);
    }
  }

  lemma {:induction false} Pow2Constants()
    ensures Pow2(8) == 0x100 && Pow2(16) == 0x1_0000 && Pow2(32) == 0x1_0000_0000
    ensures Pow2(48) == 0x1_0000_0000_0000 && Pow2(64) == 0x1_0000_0000_0000_0000
  {
    assert Pow2(8) == 0x100;
    Pow2Sum(8, 8);
    Pow2Sum(16, 16);
    Pow2Sum(32, 16);
    Pow2Sum(32, 32);
  }

  lemma Recompose(n: int, m: int)
    requires m > 0
    ensures n == (n / m) * m + n % m && 0 <= n % m < m
    ensures n >= 0 ==> n / m >= 0
  {
  }

  lemma QuotientIsLess(n: int, m: int)
    requires 2 <= m <= n
    ensures 1 <= n / m < n
  {
    var q := n / m;
    Recompose(n, m);
    if q <= 0 { MulMonotone(q, 0, m); }
    MulMonotone(2, m, q);
  }

  lemma MulAtLeast(d: int, m: int)
    requires d >= 1 && m > 0
    ensures d * m >= m
  {
  }

  lemma {:induction false} DivModUnique(a: int, q: int, r: int, m: int)
    requires 0 <= r < m && a == q * m + r
    ensures a / m == q && a % m == r
  {
    var q', r' := a / m, a % m;
    Recompose(a, m);
    assert q * m == q' * m + (q - q') * m;
    assert (q' - q) * m == -((q - q') * m);
    if q > q' {
      MulAtLeast(q - q', m);
    } else if q < q' {
      MulAtLeast(q' - q, m);
    }
  }

  lemma QuotientIsAtMost(n: nat, m: nat)
    requires m >= 1
    ensures 0 <= n / m <= n
  {
    if m == 1 {
      DivModUnique(n, n, 0, 1);
    } else if n < m {
      DivModUnique(n, 0, n, m);
    } else {
      QuotientIsLess(n, m);
    }
  }

  lemma MulMonotone(a: int, b: int, m: int)
    requires a <= b && m >= 0
    ensures a * m <= b * m
  {
    assert b * m == a * m + (b - a) * m;
  }

  lemma MulAssociates(a: int, b: int, c: int)
    ensures (a * b) * c == a * (b * c)
  {
  }

  lemma MulDistributes(a: int, b: int, c: int)
    ensures a * (b + c) == a * b + a * c
  {
  }

  /** The quotient is v just on the v-th interval of length m. */
  lemma {:induction false} Quotient(h: int, v: int, m: int)
    requires m > 0
    ensures h / m == v <==> v * m <= h < v * m + m
  {
    if v * m <= h < v * m + m {
      DivModUnique(h, v, h - v * m, m);
    }
  }

  /** Congruent numbers have the same remainder ... */
  lemma {:induction false} SameRemainder(a: int, b: int, q: int, m: int)
    requires m > 0 && a == b + q * m
    ensures a % m == b % m
  {
    Recompose(b, m);
    MulDistributes(m, b / m, q);
    DivModUnique(a, b / m + q, b % m, m);
  }

  /** ... and only they do. */
  lemma Congruent(a: int, b: int, m: int) returns (q: int)
    requires m > 0 && a % m == b % m
    ensures a == b + q * m
  {
    q := a / m - b / m;
    Recompose(a, m);
    Recompose(b, m);
    MulDistributes(m, a / m, -(b / m));
  }

  lemma {:induction false} RemainderOfRemainder(a: int, m: int, j: int)
    requires m > 0 && j > 0
    ensures m * j > 0 && (a % (m * j)) % m == a % m
  {
    assert m * j > 0;
    assert a == a % (m * j) + (a / (m * j) * j) * m;
    SameRemainder(a, a % (m * j), a / (m * j) * j, m);
  }
}
