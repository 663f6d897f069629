/** Small facts about powers of two, multiplication and Euclidean division
    that the geometry proofs lean on. */
module Arith {

  /** One past the largest value of a C `int`; `-IntLimit` is the smallest. */
  const IntLimit: int := 0x8000_0000

  /** 2 to the power n; models the C shifts `1 << n` for small n. */
  function Pow2(n: nat): (r: nat)
    ensures r >= 1
  {
    if n == 0 then 1 else 2 * Pow2(n - 1)
  }

  lemma Pow2Monotone(a: nat, b: nat)
    requires a <= b
    ensures Pow2(a) <= Pow2(b)
  {
    if a < b {
      Pow2Monotone(a, b - 1);
    }
  }

  lemma MulNonNegative(a: int, b: int)
    requires a >= 0 && b >= 0
    ensures a * b >= 0
  {
  }

  /** Multiplying by a positive factor preserves a strict order. */
  lemma MulStrictMonotone(a: int, b: int, c: int)
    requires a < b && c > 0
    ensures a * c < b * c
  {
    MulNonNegative(b - a - 1, c);
    assert b * c - a * c == (b - a - 1) * c + c;
  }

  /** Multiplying by a non-negative factor preserves a weak order. */
  lemma MulMonotone(a: int, b: int, c: int)
    requires a <= b && c >= 0
    ensures a * c <= b * c
  {
    MulNonNegative(b - a, c);
    assert b * c - a * c == (b - a) * c;
  }

  /** Quotient and remainder are determined by the defining equation. */
  lemma DivModUnique(a: int, b: int, q: int, r: int)
    requires b > 0 && 0 <= r < b && a == q * b + r
    ensures a / b == q && a % b == r
  {
    var q', r' := a / b, a % b;
    assert a == q' * b + r';
    if q' < q {
      MulMonotone(q' + 1, q, b);
    } else if q < q' {
      MulMonotone(q + 1, q', b);
    }
  }

  /** `a < b * c` bounds the quotient by `c`. */
  lemma DivBound(a: int, b: int, c: int)
    requires 0 <= a < b * c && c > 0
    ensures 0 <= a / c < b
  {
    var q := a / c;
    assert a == q * c + a % c;
    if q < 0 {
      MulMonotone(q, -1, c);
    }
    if q >= b {
      MulMonotone(b, q, c);
    }
  }

  /** A mixed-radix digit pair `q * b + r` stays below `n * b`. */
  lemma MixedRadixBound(q: int, r: int, b: int, n: int)
    requires 0 <= q < n && 0 <= r < b
    ensures 0 <= q * b + r < n * b
  {
    MulNonNegative(q, b);
    MulMonotone(q + 1, n, b);
    assert (q + 1) * b == q * b + b;
  }

  /** Prepending a low bit `b0` to `v` doubles the modulus of its residue. */
  lemma DoubleMod(v: int, p: int, b0: int)
    requires p > 0 && 0 <= b0 < 2
    ensures (b0 + 2 * v) % (2 * p) == b0 + 2 * (v % p)
  {
    assert v == (v / p) * p + v % p;
    DivModUnique(b0 + 2 * v, 2 * p, v / p, b0 + 2 * (v % p));
  }

  /** Doubling distributes over a scaled high part. */
  lemma DoubleScaled(a0: int, lo: int, p: int, v: int)
    ensures a0 + 2 * (lo + p * v) == (a0 + 2 * lo) + (2 * p) * v
  {
  }
}
