/** The fixed-width integers of the game (Rust's usize, u32, u8 and i32) and the
    casts between them. Arithmetic that would overflow panics in a debug build;
    the model turns each such case into a precondition of the operation. */
module Ints {

  const USIZE_MODULUS: int := 0x1_0000_0000_0000_0000
  const U32_MODULUS: int := 0x1_0000_0000
  const I32_MIN: int := -0x8000_0000
  const I32_MAX: int := 0x7fff_ffff

  type Usize = x: int | 0 <= x < USIZE_MODULUS
  type U32 = x: int | 0 <= x < U32_MODULUS
  type Byte = x: int | 0 <= x < 256

  /** True when x is a value of type i32, i.e. an i32 operation producing x does not overflow. */
  predicate FitsI32(x: int) {
    I32_MIN <= x <= I32_MAX
  }

  /** `x as i32` for an unsigned x: keeps the low 32 bits and reads them in two's complement. */
  function AsI32(x: int): (r: int)
    ensures FitsI32(r)
    ensures 0 <= x <= I32_MAX ==> r == x
  {
    var m := x % U32_MODULUS;
    if m <= I32_MAX then m else m - U32_MODULUS
  }

  /** `x as usize` for an i32 x: sign extension, that is reduction modulo 2^64. */
  function AsUsize(x: int): (r: Usize)
    requires FitsI32(x)
    ensures r == if x >= 0 then x else x + USIZE_MODULUS
  {
    x % USIZE_MODULUS
  }

  /** Widening an i32 to usize and truncating it back gives the i32 again. */
  lemma AsI32OfAsUsize(x: int)
    requires FitsI32(x)
    ensures AsI32(AsUsize(x)) == x
  {
    if x < 0 {
      var u := AsUsize(x);
      assert u == x + U32_MODULUS + (U32_MODULUS - 1) * U32_MODULUS;
      assert u % U32_MODULUS == x + U32_MODULUS;
    }
  }

  /** An i32 below `bound` widened to usize is at least `bound` exactly when it was negative. */
  lemma WrappedIsLarge(x: int, bound: nat)
    requires FitsI32(x) && bound <= I32_MAX
    ensures AsUsize(x) >= bound <==> x < 0 || x >= bound
  {
  }

  /** A positive multiple of p is at least p. */
  lemma MultipleAtLeast(d: nat, p: nat)
    requires d >= 1
    ensures d * p >= p
  {
    assert d * p == (d - 1) * p + p;
  }

  /** Division is determined by a quotient and a remainder in range. */
  lemma DivModUnique(x: nat, p: nat, q: nat, r: nat)
    requires p > 0 && r < p && x == q * p + r
    ensures x / p == q && x % p == r
  {
    var q', r' := x / p, x % p;
    assert x == q' * p + r';
    if q' < q {
      assert q * p == q' * p + (q - q') * p;
      MultipleAtLeast(q - q', p);
      assert false;
    } else if q' > q {
      assert q' * p == q * p + (q' - q) * p;
      MultipleAtLeast(q' - q, p);
      assert false;
    }
  }

  /** A digit below d in base m, followed by a remainder below m, stays below m * d. */
  lemma MixedRadixBound(r2: nat, r1: nat, m: nat, d: nat)
    requires r2 < d && r1 < m
    ensures r2 * m + r1 < m * d
  {
    assert (d - 1 - r2) * m >= 0;
    assert r2 * m <= (d - 1) * m;
    assert (d - 1) * m + m == m * d;
  }

  /** A value written in quotient-remainder form twice over, divided first by m and then by d,
      is in quotient-remainder form for m * d. */
  lemma Regroup(n: nat, q1: nat, r1: nat, q2: nat, r2: nat, m: nat, d: nat)
    requires n == q1 * m + r1 && q1 == q2 * d + r2
    ensures n == q2 * (m * d) + (r2 * m + r1)
  {
    assert q1 * m == (q2 * d + r2) * m == q2 * d * m + r2 * m;
  }

  /** Dividing by m and then by d is dividing by m * d. */
  lemma DivDiv(n: nat, m: nat, d: nat)
    requires m > 0 && d > 0
    ensures (n / m) / d == n / (m * d)
  {
    var q1, r1 := n / m, n % m;
    var q2, r2 := q1 / d, q1 % d;
    Regroup(n, q1, r1, q2, r2, m, d);
    MixedRadixBound(r2, r1, m, d);
    DivModUnique(n, m * d, q2, r2 * m + r1);
  }

  /** The remainder modulo 10 * m splits into the last decimal digit and the remainder of the rest. */
  lemma ModTenTimes(n: nat, m: nat)
    requires m > 0
    ensures n % (10 * m) == ((n / 10) % m) * 10 + n % 10
  {
    var q1, r1 := n / 10, n % 10;
    var q2, r2 := q1 / m, q1 % m;
    assert n == q1 * 10 + r1;
    assert q1 == q2 * m + r2;
    assert n == q2 * (10 * m) + (r2 * 10 + r1) by {
      assert q1 * 10 == (q2 * m + r2) * 10 == q2 * (10 * m) + r2 * 10;
    }
    assert r2 * 10 + r1 < 10 * m;
    DivModUnique(n, 10 * m, q2, r2 * 10 + r1);
  }
}
