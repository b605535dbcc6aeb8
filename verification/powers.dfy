/**
 * Exact powers of two over the reals, and the binary logarithm rounded down.
 *
 * The binary16 encoder computes `Math.floor(Math.log2(x))` and
 * `Math.pow(2, e)`; here both are exact: Pow2(e) is 2^e for every integer e,
 * and Log2Floor(x) is the unique e with 2^e <= x < 2^(e+1).
 */
module Powers {
  import opened Bits

  /** 2^e for any integer exponent. */
  function Pow2(e: int): (r: real)
    ensures r > 0.0
    decreases if e >= 0 then e else -e
  {
    if e == 0 then 1.0
    else if e > 0 then 2.0 * Pow2(e - 1)
    else Pow2(e + 1) / 2.0
  }

  /** Each step up the exponent doubles the power, on either side of zero. */
  lemma Pow2Succ(e: int)
    ensures Pow2(e + 1) == 2.0 * Pow2(e)
  {
  }

  /** Powers of two grow strictly with the exponent. */
  lemma {:induction false} Pow2Monotone(a: int, b: int)
    requires a < b
    ensures Pow2(a) < Pow2(b)
    decreases b - a
  {
    Pow2Succ(b - 1);
    if a < b - 1 {
      Pow2Monotone(a, b - 1);
    }
  }

  /** Powers of two do not decrease as the exponent grows. */
  lemma Pow2MonotoneEq(a: int, b: int)
    requires a <= b
    ensures Pow2(a) <= Pow2(b)
  {
    if a < b { Pow2Monotone(a, b); }
  }

  /** The real and the natural-number powers of two agree. */
  lemma {:induction false} Pow2IsPow2Nat(k: nat)
    ensures Pow2(k) == Pow2Nat(k) as real
  {
    if k > 0 { Pow2IsPow2Nat(k - 1); }
  }

  /** 2^n exceeds n, for natural n. */
  lemma {:induction false} Pow2AboveExponent(n: nat)
    ensures Pow2(n) >= (n + 1) as real
  {
    if n > 0 { Pow2AboveExponent(n - 1); }
  }

  /** 2^-n * 2^n == 1: the negative powers are the reciprocals. */
  lemma {:induction false} Pow2Neg(n: nat)
    ensures Pow2(-(n as int)) * Pow2(n) == 1.0
  {
    if n > 0 {
      Pow2Neg(n - 1);
      Pow2Succ(-(n as int));
      Pow2Succ(n - 1);
      HalfTimesDouble(Pow2(-(n as int)), Pow2(n - 1));
    }
  }

  /** (2p) * q == p * (2q). */
  lemma HalfTimesDouble(p: real, q: real)
    ensures (2.0 * p) * q == p * (2.0 * q)
  {
  }

  /** The exponent e with 2^e <= x < 2^(e+1), searched upward from a known
      lower bound 2^e <= x. */
  function LogUp(x: real, e: nat): (r: nat)
    requires Pow2(e) <= x
    ensures r >= e && Pow2(r) <= x < Pow2(r + 1)
    decreases x.Floor - e
  {
    Pow2AboveExponent(e + 1);
    if x < Pow2(e + 1) then e else LogUp(x, e + 1)
  }

  /** The exponent e with 2^e <= x < 2^(e+1), searched downward from a known
      upper bound x < 2^e. */
  function LogDown(x: real, e: int): (r: int)
    requires 0.0 < x < Pow2(e) && e <= 0
    ensures r < e && Pow2(r) <= x < Pow2(r + 1)
    decreases (1.0 / x).Floor + e
  {
    Pow2Succ(e - 1);
    BelowPowerBound(x, e);
    if Pow2(e - 1) <= x then e - 1 else LogDown(x, e - 1)
  }

  /** Below 2^e (e <= 0), the reciprocal of x exceeds 1 - e. */
  lemma BelowPowerBound(x: real, e: int)
    requires 0.0 < x < Pow2(e) && e <= 0
    ensures 1.0 / x > (1 - e) as real
  {
    Pow2Neg(-e);
    Pow2AboveExponent(-e);
    ReciprocalBelow(x, Pow2(e), Pow2(-e));
  }

  /** If q is the reciprocal of p and 0 < x < p, then 1/x exceeds q. */
  lemma ReciprocalBelow(x: real, p: real, q: real)
    requires 0.0 < x < p && q * p == 1.0
    ensures 1.0 / x > q
  {
    assert q > 0.0;
    assert x * q < p * q;
  }

  /** floor(log2 x) for x > 0: the e with 2^e <= x < 2^(e+1). */
  function Log2Floor(x: real): (e: int)
    requires x > 0.0
    ensures Pow2(e) <= x < Pow2(e + 1)
  {
    if x >= 1.0 then LogUp(x, 0) else LogDown(x, 0)
  }

  /** x at or above 2^k has a binary logarithm of at least k. */
  lemma Log2FloorAtLeast(x: real, k: int)
    requires x > 0.0 && Pow2(k) <= x
    ensures Log2Floor(x) >= k
  {
    var e := Log2Floor(x);
    if e < k { Pow2MonotoneEq(e + 1, k); }
  }

  /** x below 2^k has a binary logarithm below k. */
  lemma Log2FloorBelow(x: real, k: int)
    requires 0.0 < x < Pow2(k)
    ensures Log2Floor(x) < k
  {
    var e := Log2Floor(x);
    if e >= k { Pow2MonotoneEq(k, e); }
  }

  /** The exponent that brackets x is unique, so it is Log2Floor(x). */
  lemma Log2FloorUnique(x: real, e: int)
    requires Pow2(e) <= x < Pow2(e + 1)
    ensures Log2Floor(x) == e
  {
    var k := Log2Floor(x);
    if k < e {
      Pow2MonotoneEq(k + 1, e);
    } else if k > e {
      Pow2MonotoneEq(e + 1, k);
    }
  }
}
