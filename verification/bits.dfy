/**
 * JavaScript's integer bit operators, restricted to the non-negative operands
 * the binary16 codec applies them to.  For such operands (all below 2^31)
 * `&`, `|`, `<<` and `>>` act on the binary digits of the number, which is
 * how they are defined here: digit by digit, on unbounded naturals.
 */
module Bits {

  /** 2^k as a natural number. */
  function Pow2Nat(k: nat): (r: nat)
    ensures r >= 1
  {
    if k == 0 then 1 else 2 * Pow2Nat(k - 1)
  }

  /** The powers of two at the top of the binary16 range, 2^14 to 2^16. */
  lemma Pow2NatConstants()
    ensures Pow2Nat(14) == 16384 && Pow2Nat(15) == 32768 && Pow2Nat(16) == 65536
  {
    assert Pow2Nat(7) == 128;
  }

  /** Bitwise AND, `x & y`: it keeps only bits both operands have, so it
      is no larger than either. */
  function And(x: nat, y: nat): (r: nat)
    ensures r <= x && r <= y
  {
    if x == 0 || y == 0 then 0
    else 2 * And(x / 2, y / 2) + (if x % 2 == 1 && y % 2 == 1 then 1 else 0)
  }

  /** Bitwise OR, `x | y`: it keeps every bit of both operands, so it is at
      least either, and at most their sum (reached when no bit is shared). */
  function Or(x: nat, y: nat): (r: nat)
    ensures x <= r && y <= r && r <= x + y
  {
    if x == 0 then y
    else if y == 0 then x
    else 2 * Or(x / 2, y / 2) + (if x % 2 == 1 || y % 2 == 1 then 1 else 0)
  }

  /** Left shift, `x << k`, for results that stay below 2^31: k doublings. */
  function Shl(x: nat, k: nat): (r: nat)
    ensures x <= r
  {
    if k == 0 then x else 2 * Shl(x, k - 1)
  }

  /** Sign-propagating right shift, `x >> k`, on a non-negative operand:
      k halvings, each dropping the lowest bit. */
  function Shr(x: nat, k: nat): (r: nat)
    ensures r <= x
  {
    if k == 0 then x else Shr(x / 2, k - 1)
  }

  /** The conversion a Uint8Array applies to a number stored into it (ToUint8). */
  function ToUint8(x: int): (r: int)
    ensures 0 <= r < 256
    ensures 0 <= x < 256 ==> r == x
  {
    x % 256
  }

  /** Euclidean division is unique: a quotient/remainder pair pins down `%`. */
  lemma ModUnique(x: int, d: int, q: int, c: int)
    requires d > 0 && x == d * q + c && 0 <= c < d
    ensures x % d == c && x / d == q
  {
    var q', c' := x / d, x % d;
    var k := q - q';
    assert d * q == d * q' + d * k;
    assert d * k == c' - c;
  }

  /** Halving first and then dividing by 2^k: the quotient is x div 2^(k+1),
      and the low k+1 bits of x are its lowest bit plus twice the low k bits
      of x / 2. */
  lemma HalveThenDivide(x: nat, k: nat)
    ensures (x / 2) / Pow2Nat(k) == x / Pow2Nat(k + 1)
    ensures x % Pow2Nat(k + 1) == 2 * ((x / 2) % Pow2Nat(k)) + x % 2
  {
    var n := Pow2Nat(k);
    var q := (x / 2) / n;
    var b := (x / 2) % n;
    assert x / 2 == n * q + b;
    assert x == (2 * n) * q + (2 * b + x % 2);
    ModUnique(x, 2 * n, q, 2 * b + x % 2);
  }

  /** Masking with 2^k - 1 keeps the low k bits: `x & (2^k - 1) == x % 2^k`. */
  lemma {:induction false} AndLowMask(x: nat, k: nat)
    ensures And(x, Pow2Nat(k) - 1) == x % Pow2Nat(k)
  {
    if k == 0 {
    } else if x == 0 {
    } else {
      var m, n := Pow2Nat(k) - 1, Pow2Nat(k - 1);
      assert m % 2 == 1 && m / 2 == n - 1;
      var low := (x / 2) % n;
      assert And(x / 2, m / 2) == low by { AndLowMask(x / 2, k - 1); }
      assert x % Pow2Nat(k) == 2 * low + x % 2 by { HalveThenDivide(x, k - 1); }
      AndOdd(x, m);
    }
  }

  /** An odd mask keeps the lowest bit of x. */
  lemma AndOdd(x: nat, m: nat)
    requires x > 0 && m % 2 == 1
    ensures And(x, m) == 2 * And(x / 2, m / 2) + x % 2
  {
  }

  /** A mask shifted left by j selects bits j.. of x:
      `x & (m << j) == ((x >> j) & m) << j`. */
  lemma {:induction false} AndShiftedMask(x: nat, m: nat, j: nat)
    ensures And(x, Shl(m, j)) == Shl(And(Shr(x, j), m), j)
  {
    if j == 0 {
    } else if x == 0 {
      ShrZero(j);
      ShlZero(j);
    } else if Shl(m, j - 1) == 0 {
      ShlZero(j);
    } else {
      AndShiftedMask(x / 2, m, j - 1);
    }
  }

  /** Shifting zero right gives zero. */
  lemma {:induction false} ShrZero(j: nat)
    ensures Shr(0, j) == 0
  {
    if j > 0 { ShrZero(j - 1); }
  }

  /** Shifting zero left gives zero. */
  lemma {:induction false} ShlZero(j: nat)
    ensures Shl(0, j) == 0
  {
    if j > 0 { ShlZero(j - 1); }
  }

  /** Shifting left and then right by the same amount gives back x. */
  lemma {:induction false} ShrShl(x: nat, k: nat)
    ensures Shr(Shl(x, k), k) == x
  {
    if k > 0 {
      ShrShl(x, k - 1);
      ShlIsMul(x, k);
      ShlIsMul(x, k - 1);
      ShrIsDiv(Shl(x, k), k);
      ShrIsDiv(Shl(x, k - 1), k - 1);
      assert Shl(x, k) / 2 == Shl(x, k - 1);
      HalveThenDivide(Shl(x, k), k - 1);
    }
  }

  /** `x >> k` is division by 2^k. */
  lemma {:induction false} ShrIsDiv(x: nat, k: nat)
    ensures Shr(x, k) == x / Pow2Nat(k)
  {
    if k > 0 {
      ShrIsDiv(x / 2, k - 1);
      HalveThenDivide(x, k - 1);
    }
  }

  /** `x << k` is multiplication by 2^k. */
  lemma {:induction false} ShlIsMul(x: nat, k: nat)
    ensures Shl(x, k) == x * Pow2Nat(k)
  {
    if k > 0 {
      ShlIsMul(x, k - 1);
      assert x * Pow2Nat(k) == 2 * (x * Pow2Nat(k - 1));
    }
  }

  /** OR of two bit fields that do not overlap is their sum:
      `(a << k) | b == (a << k) + b` when b is below 2^k. */
  lemma {:induction false} OrDisjoint(a: nat, b: nat, k: nat)
    requires b < Pow2Nat(k)
    ensures Or(Shl(a, k), b) == Shl(a, k) + b
  {
    if k == 0 || b == 0 {
    } else if Shl(a, k - 1) == 0 {
    } else {
      OrDisjoint(a, b / 2, k - 1);
    }
  }

  /** `x & mask` for a mask 2^k - 1 given as a number: the low k bits. */
  lemma LowMask(x: nat, k: nat, mask: nat, n: nat)
    requires n == Pow2Nat(k) && mask == n - 1
    ensures And(x, mask) == x % n
  {
    AndLowMask(x, k);
  }

  /** `x >> k` for a divisor 2^k given as a number. */
  lemma ShrBy(x: nat, k: nat, n: nat)
    requires n == Pow2Nat(k)
    ensures Shr(x, k) == x / n
  {
    ShrIsDiv(x, k);
  }

  /** `x << 2` is 4 * x. */
  lemma ShlTwo(x: nat)
    ensures Shl(x, 2) == 4 * x
  {
    assert Shl(x, 1) == 2 * x;
  }

  /** `x << 7` is 128 * x. */
  lemma ShlSeven(x: nat)
    ensures Shl(x, 7) == 128 * x
  {
    ShlTwo(x);
    assert Shl(x, 3) == 8 * x;
    assert Shl(x, 4) == 16 * x;
    assert Shl(x, 5) == 32 * x;
    assert Shl(x, 6) == 64 * x;
  }
}
