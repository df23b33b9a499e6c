/** `hash.c`: multiplicative hashing by the high bits of a 32-bit product. */
module Hash {
  import opened Arithmetic

  const GOLDEN_RATIO_PRIME_32 := 0x9e370001

  /** The inverse of the multiplier modulo 2^32. */
  const INVERSE := 0x61c90001

  function Scramble(val: uint32): uint32 {
    (val * GOLDEN_RATIO_PRIME_32) % WORD32
  }

  function Unscramble(h: uint32): uint32 {
    (h * INVERSE) % WORD32
  }

  /** hash32.  C does not define the shift by 32 that bits = 0 would ask for. */
  function Hash32(val: uint32, bits: nat): (h: nat)
    requires 1 <= bits <= 32
  {
    Recompose(Scramble(val), Pow2(32 - bits));
    Scramble(val) / Pow2(32 - bits)
  }

  /** The multiplier is the sum of powers of two in the comment on it. */
  lemma {:induction false} GoldenRatio()
    ensures GOLDEN_RATIO_PRIME_32
         == Pow2(31) + Pow2(29) - Pow2(25) + Pow2(22) - Pow2(19) - Pow2(16) + 1
  {
    Pow2Constants();
    assert Pow2(19) == 8 * Pow2(16) && Pow2(22) == 8 * Pow2(19) && Pow2(25) == 8 * Pow2(22);
    assert Pow2(29) == 16 * Pow2(25) && Pow2(31) == 4 * Pow2(29);
  }

  /** The hash is the high bits of the 32-bit product. */
  lemma {:induction false} HighBits(val: uint32, bits: nat)
    requires 1 <= bits <= 32
    ensures var h, unit := Hash32(val, bits), Pow2(32 - bits);
      h * unit <= val * 0x9e370001 % 0x1_0000_0000 < h * unit + unit
  {
    Recompose(Scramble(val), Pow2(32 - bits));
  }

  /** Multiplying back and forth: a and b are inverse to each other modulo 2^32. */
  lemma {:induction false} BackAndForth(x: int, a: int, b: int, k: int)
    requires 0 <= x < WORD32 && a * b == 1 + k * WORD32
    ensures ((x * a) % WORD32 * b) % WORD32 == x
  {
    var y := x * a;
    assert y % WORD32 * b == y * b - (y / WORD32 * b) * WORD32;
    assert y * b == x * (a * b);
    assert x * (a * b) == x + (x * k) * WORD32;
    SameRemainder(y % WORD32 * b, x, x * k - y / WORD32 * b, WORD32);
  }

  /** Multiplication by the constant is a bijection of the 32-bit words. */
  lemma {:induction false} Bijection(x: uint32)
    ensures Unscramble(Scramble(x)) == x && Scramble(Unscramble(x)) == x
  {
    var k := GOLDEN_RATIO_PRIME_32 * INVERSE / WORD32;
    assert GOLDEN_RATIO_PRIME_32 * INVERSE == 1 + k * WORD32;
    BackAndForth(x, GOLDEN_RATIO_PRIME_32, INVERSE, k);
    BackAndForth(x, INVERSE, GOLDEN_RATIO_PRIME_32, k);
  }

  /** The inputs whose full product lies in [lo, hi). */
  ghost function Inputs(lo: nat, hi: nat): set<int>
    requires lo <= hi <= WORD32
  {
    set val: uint32 | 0 <= val < WORD32 && lo <= Scramble(val) < hi :: val
  }

  lemma {:induction false} CountInputs(lo: nat, hi: nat)
    requires lo <= hi <= WORD32
    ensures |Inputs(lo, hi)| == hi - lo
    decreases hi - lo
  {
    if lo == hi {
      assert Inputs(lo, hi) == {};
    } else {
      CountInputs(lo, hi - 1);
      var x := Unscramble(hi - 1);
      Bijection(hi - 1);
      forall val: uint32 | 0 <= val < WORD32 && Scramble(val) == hi - 1 ensures val == x {
        Bijection(val);
      }
      assert Inputs(lo, hi) == Inputs(lo, hi - 1) + {x};
    }
  }

  lemma Split(bits: nat)
    requires bits <= 32
    ensures Pow2(bits) * Pow2(32 - bits) == WORD32
  {
    Pow2Constants();
    Pow2Sum(bits, 32 - bits);
  }

  lemma {:induction false} HashRange(val: uint32, bits: nat)
    requires 1 <= bits <= 32
    ensures Hash32(val, bits) < Pow2(bits)
  {
    var w, q := Pow2(32 - bits), Hash32(val, bits);
    Split(bits);
    Quotient(Scramble(val), q, w);
    if q >= Pow2(bits) {
      MulMonotone(Pow2(bits), q, w);
    }
  }

  /** The inputs with hash value v. */
  ghost function Preimages(bits: nat, v: nat): set<int>
    requires 1 <= bits <= 32
  {
    set val: uint32 | 0 <= val < WORD32 && Hash32(val, bits) == v :: val
  }

  /** They are the inputs whose product lies in one interval. */
  lemma PreimagesAreInputs(bits: nat, v: nat, lo: nat, hi: nat)
    requires 1 <= bits <= 32 && hi <= WORD32
    requires lo == v * Pow2(32 - bits) && hi == lo + Pow2(32 - bits)
    ensures Preimages(bits, v) == Inputs(lo, hi)
  {
    forall val: uint32 ensures Hash32(val, bits) == v <==> lo <= Scramble(val) < hi {
      Quotient(Scramble(val), v, Pow2(32 - bits));
    }
  }

  lemma {:induction false} LastInterval(v: nat, n: nat, w: nat)
    requires v < n
    ensures v * w + w <= n * w
  {
    MulMonotone(v + 1, n, w);
  }

  /** Perfect balance: each of the 2^bits hash values has exactly 2^(32 - bits) inputs. */
  lemma Balanced(bits: nat, v: nat)
    requires 1 <= bits <= 32 && v < Pow2(bits)
    ensures |Preimages(bits, v)| == Pow2(32 - bits)
  {
    var w := Pow2(32 - bits);
    Split(bits);
    LastInterval(v, Pow2(bits), w);
    CountInputs(v * w, v * w + w);
    PreimagesAreInputs(bits, v, v * w, v * w + w);
  }
}
