/**
 * The mantissa carry of `to_bytes_16`.
 *
 * The encoder rounds the scaled mantissa with Math.round, which can give
 * 1024 (a round-up past the last 10-bit value).  The packing then keeps only
 * bits 9-0 of it: the carry that should move the number into the next
 * binade (exponent field + 1, mantissa 0) is dropped, and the number comes
 * out a whole binade too small.  EncodeWord in Binary16 is the encoder as
 * written; EncodeWordCarry below adds the rounded mantissa into the word, so
 * the carry reaches the exponent field, and is the correctly rounded
 * (round to nearest) encoder.
 */
module Binary16Carry {
  import opened Bits
  import opened Powers
  import opened IeeeFloat
  import opened Binary16
  import opened Binary16Laws

  /** The word of a value with the rounded mantissa added, not masked, into
      the word: a mantissa of 1024 carries into the exponent field. */
  function EncodeWordCarry(v: Value): (w: int)
    ensures 0 <= w < 0x10000
  {
    match v
    case NaN => 0x7e00
    case PosInf => 0x7c00
    case NegInf => 0xfc00
    case Finite(x) =>
      if x == 0.0 then 0
      else
        var fields := EncodeMagnitude(Abs(x));
        (if x < 0.0 then 0x8000 else 0) + fields.0 * 0x400 + fields.1
  }

  /** The two encoders differ exactly on a round-up to 1024, and there the
      word as written is one exponent step (0x400) below the carried one. */
  lemma CarryOnlyOnRoundUp(x: real)
    requires x != 0.0
    ensures EncodeMagnitude(Abs(x)).1 < 1024 ==> EncodeWordCarry(Finite(x)) == EncodeWord(Finite(x))
    ensures EncodeMagnitude(Abs(x)).1 == 1024 ==> EncodeWordCarry(Finite(x)) == EncodeWord(Finite(x)) + 0x400
  {
    var m := EncodeMagnitude(Abs(x)).1;
    if m < 1024 {
      ModUnique(m, 1024, 0, m);
    } else {
      ModUnique(m, 1024, 1, 0);
    }
  }

  /** The corrected encoder still round-trips every finite word but the
      negative zero. */
  lemma CarryRoundTrip(w: int)
    requires 0 <= w < 0x10000 && ExponentField(w) < 31 && w != 0x8000
    ensures EncodeWordCarry(DecodeWord(w)) == w
  {
    WordRoundTrip(w);
    var x := DecodeWord(w).r;
    if x != 0.0 {
      CarryOnlyOnRoundUp(x);
    }
  }

  /** The magnitude a sign-less exponent field e and rounded mantissa m
      (up to 1024) stand for: m * 2^-24 when e is 0, (1 + m/1024) * 2^(e-15)
      otherwise.  It is ClassValue (see FieldMagnitudeIsClassValue) written
      as a plain real, without the NaN and infinity cases, and in units of
      2^-24 below the normal range, the form the error bounds are proved
      in; unlike a mantissa field it may be 1024, the round-up that
      carries. */
  function FieldMagnitude(e: int, m: int): real
  {
    if e == 0 then m as real / 16777216.0 else NormalMagnitude(e, m)
  }

  /** On every exponent field below 31, FieldMagnitude is the finite value
      ClassValue selects. */
  lemma FieldMagnitudeIsClassValue(e: int, m: int)
    requires 0 <= e < 31
    ensures ClassValue(e, m) == Finite(FieldMagnitude(e, m))
  {
    if e == 0 {
      assert SubnormalScale * (m as real / 1024.0) == m as real / 16777216.0;
    }
  }

  /** A word built by adding the fields decodes to their magnitude, also when
      the mantissa is 1024 and carries. */
  lemma CarryWordValue(s: int, e: int, m: int)
    requires 0 <= s <= 1 && 0 <= e <= 30 && 0 <= m <= 1024 && (e == 30 ==> m < 1024)
    ensures 0 <= s * 0x8000 + e * 0x400 + m < 0x10000
    ensures DecodeWord(s * 0x8000 + e * 0x400 + m)
      == Finite(if s == 1 then -FieldMagnitude(e, m) else FieldMagnitude(e, m))
  {
    var w := s * 0x8000 + e * 0x400 + m;
    if m < 1024 {
      FieldsOfPacked(s, e, m);
      if e == 0 {
        DecodeSubnormalUnits(w);
      } else {
        DecodeNormal(w);
      }
    } else {
      FieldsOfPacked(s, e + 1, 0);
      assert w == PackWord(s, e + 1, 0);
      DecodeNormal(w);
      assert FieldMagnitude(e, m) == Pow2(e - 14) by {
        if e == 0 {
          Pow2Constants();
        } else {
          Pow2Succ(e - 15);
        }
      }
    }
  }

  /** Round to nearest, in units: when d is within 1/2 of t, d * u is
      within u/2 of t * u. */
  lemma HalfUnitError(d: real, t: real, u: real)
    requires u > 0.0 && -0.5 <= d - t <= 0.5
    ensures Abs(d * u - t * u) * 2.0 <= u
  {
    var g := d - t;
    assert d * u - t * u == g * u;
    if g >= 0.0 {
      NonNegativeProduct(g, u);
      NonNegativeProduct(0.5 - g, u);
      assert (0.5 - g) * u == 0.5 * u - g * u;
    } else {
      NonNegativeProduct(-g, u);
      NonNegativeProduct(0.5 + g, u);
      assert (0.5 + g) * u == 0.5 * u + g * u;
      assert (-g) * u == -(g * u);
    }
  }

  /** A product of non-negative factors is non-negative. */
  lemma NonNegativeProduct(a: real, b: real)
    requires a >= 0.0 && b >= 0.0
    ensures a * b >= 0.0
  {
  }

  /** The exponent of the binade a magnitude falls in, no lower than the
      subnormal exponent -14; binary16 numbers there are 2^(k-10) apart. */
  function Binade(a: real): (k: int)
    requires a > 0.0
    ensures k >= -14
  {
    var e := Log2Floor(a);
    if e < -14 then -14 else e
  }

  /** The corrected encoder rounds to nearest: the number it encodes is
      within half the spacing 2^(k-10) of x, for every non-zero x the format
      does not overflow on (|x| < 65520). */
  lemma CarryNearest(x: real)
    requires x != 0.0 && Abs(x) < 65520.0
    ensures DecodeWord(EncodeWordCarry(Finite(x))).Finite?
    ensures Abs(DecodeWord(EncodeWordCarry(Finite(x))).r - x) * 2048.0 <= Pow2(Binade(Abs(x)))
  {
    var a := Abs(x);
    var s, e, m := if x < 0.0 then 1 else 0, EncodeMagnitude(a).0, EncodeMagnitude(a).1;
    CarryMagnitude(a);
    var w := s * 0x8000 + e * 0x400 + m;
    assert EncodeWordCarry(Finite(x)) == w;
    CarryWordValue(s, e, m);
    SignedDistance(x, FieldMagnitude(e, m), DecodeWord(w).r);
  }

  /** Giving f the sign of x keeps its distance to x equal to the distance
      between f and |x|. */
  lemma SignedDistance(x: real, f: real, y: real)
    requires y == (if x < 0.0 then -f else f)
    ensures Abs(y - x) == Abs(f - Abs(x))
  {
  }

  /** The fields of a magnitude below 65520 stay below the infinity word,
      and the magnitude they stand for is within 2^k / 2048 of it. */
  lemma CarryMagnitude(a: real)
    requires 0.0 < a < 65520.0
    ensures EncodeMagnitude(a).0 <= 30
    ensures EncodeMagnitude(a).0 == 30 ==> EncodeMagnitude(a).1 < 1024
    ensures Abs(FieldMagnitude(EncodeMagnitude(a).0, EncodeMagnitude(a).1) - a) * 2048.0 <= Pow2(Binade(a))
  {
    if Log2Floor(a) < -14 {
      CarryMagnitudeSubnormal(a);
    } else {
      CarryMagnitudeNormal(a);
    }
  }

  /** CarryMagnitude below 2^-14: exponent field 0, mantissa up to 1024. */
  lemma CarryMagnitudeSubnormal(a: real)
    requires 0.0 < a && Log2Floor(a) < -14
    ensures EncodeMagnitude(a).0 == 0
    ensures Abs(FieldMagnitude(0, EncodeMagnitude(a).1) - a) * 2048.0 <= Pow2(Binade(a))
  {
    assert a < Pow2(16) by { Pow2MonotoneEq(Log2Floor(a) + 1, 16); }
    MagnitudeCases(a);
    SubnormalError(a, EncodeMagnitude(a).1);
  }

  /** CarryMagnitude from 2^-14 up to 65520: exponent field e + 15, and no
      carry out of the top binade. */
  lemma CarryMagnitudeNormal(a: real)
    requires 0.0 < a < 65520.0 && -14 <= Log2Floor(a)
    ensures EncodeMagnitude(a).0 == Log2Floor(a) + 15 <= 30
    ensures EncodeMagnitude(a).0 == 30 ==> EncodeMagnitude(a).1 < 1024
    ensures Abs(FieldMagnitude(EncodeMagnitude(a).0, EncodeMagnitude(a).1) - a) * 2048.0 <= Pow2(Log2Floor(a))
  {
    assert a < Pow2(16) by { Pow2Constants(); }
    MagnitudeCases(a);
    if Log2Floor(a) == 15 { TopBinadeNoCarry(a); }
    NormalCarryError(a);
  }

  /** The error bound of CarryMagnitudeNormal on its own. */
  lemma NormalCarryError(a: real)
    requires 0.0 < a < Pow2(16) && -14 <= Log2Floor(a)
    ensures Abs(FieldMagnitude(EncodeMagnitude(a).0, EncodeMagnitude(a).1) - a) * 2048.0 <= Pow2(Log2Floor(a))
  {
    MagnitudeCases(a);
    var e := Log2Floor(a);
    var m := EncodeMagnitude(a).1;
    ScaledError(a, Pow2(e), m);
    NormalBound(a, e, m);
  }

  /** Moving the bound of ScaledError onto the magnitude of the fields. */
  lemma NormalBound(a: real, e: int, m: int)
    requires -14 <= e
    requires Abs(Scaled(Pow2(e), m) - a) * 2048.0 <= Pow2(e)
    ensures Abs(FieldMagnitude(e + 15, m) - a) * 2048.0 <= Pow2(e)
  {
    FieldMagnitudeNormal(e, m);
  }

  /** Below 65520 the top binade [2^15, 2^16) never rounds up to 1024. */
  lemma TopBinadeNoCarry(a: real)
    requires 0.0 < a < 65520.0 && Pow2(15) <= a
    ensures MathRound((a / Pow2(15) - 1.0) * 1024.0) < 1024
  {
    assert Pow2(15) == 32768.0 by { Pow2IsPow2Nat(15); Pow2NatConstants(); }
    var t := (a / 32768.0 - 1.0) * 1024.0;
    assert t < 1023.5;
  }

  /** Subnormal error: m = round(a * 2^24) is within 1/2 of it. */
  lemma SubnormalError(a: real, m: int)
    requires 0.0 < a && m == MathRound(a * 16777216.0)
    requires Log2Floor(a) < -14
    ensures Abs(FieldMagnitude(0, m) - a) * 2048.0 <= Pow2(Binade(a))
  {
    var u := 1.0 / 16777216.0;
    HalfUnitError(m as real, a * 16777216.0, u);
    assert m as real * u == FieldMagnitude(0, m);
    assert (a * 16777216.0) * u == a;
    Pow2Constants();
  }

  /** Exponent field e + 15 (e >= -14) stands for 2^e * (1 + m/1024). */
  lemma FieldMagnitudeNormal(e: int, m: int)
    requires -14 <= e
    ensures FieldMagnitude(e + 15, m) == Scaled(Pow2(e), m)
  {
    var k := e + 15;
    assert k - 15 == e;
  }

  /** p * (1 + m/1024): NormalMagnitude with the power of two 2^(e-15) as a
      parameter p.  The solver does not identify p * (1 + m/1024) with
      Pow2(e) * (1 + m/1024) when it only knows p == Pow2(e), so the error
      bounds are stated on this function and moved onto NormalMagnitude by
      FieldMagnitudeNormal. */
  function Scaled(p: real, m: int): real
  {
    p * (1.0 + m as real / 1024.0)
  }

  /** Normal rounding error over plain reals: with
      m = round((a / p - 1) * 1024), p * (1 + m/1024) is within p / 2048
      of a. */
  lemma ScaledError(a: real, p: real, m: int)
    requires p > 0.0 && m == MathRound((a / p - 1.0) * 1024.0)
    ensures Abs(Scaled(p, m) - a) * 2048.0 <= p
  {
    var t := (a / p - 1.0) * 1024.0;
    var u := p / 1024.0;
    HalfUnitError(m as real, t, u);
    Spread(p, m as real);
    Rescale(a, p);
  }

  /** p * (1 + m/1024) == p + m * (p/1024). */
  lemma Spread(p: real, m: real)
    ensures p * (1.0 + m / 1024.0) == p + m * (p / 1024.0)
  {
  }

  /** a == p + ((a/p - 1) * 1024) * (p/1024) for a positive p. */
  lemma Rescale(a: real, p: real)
    requires p > 0.0
    ensures a == p + ((a / p - 1.0) * 1024.0) * (p / 1024.0)
  {
    var q := a / p;
    assert q * p == a;
    assert ((q - 1.0) * 1024.0) * (p / 1024.0) == (q - 1.0) * p;
  }

  /** The finding: 4095/2048 lies between 1 + 1023/1024 and 2, nearest to 2,
      but the encoder as written packs a rounded mantissa of 1024 as 0 and
      produces 0x3c00, which is 1.0: an error of 2047 half-spacings instead
      of at most one. The corrected encoder produces 0x4000, which is 2.0. */
  lemma DroppedCarry(x: real, w: int)
    requires x == 4095.0 / 2048.0 && w == 0x3c00
    ensures EncodeWord(Finite(x)) == w
    ensures DecodeWord(w) == Finite(1.0)
    ensures Abs(1.0 - x) * 2048.0 > Pow2(Binade(x))
    ensures EncodeWordCarry(Finite(x)) == w + 0x400
  {
    assert Pow2(0) == 1.0 && Pow2(1) == 2.0;
    Log2FloorUnique(x, 0);
    assert EncodeMagnitude(x).1 == 1024 by {
      MathRoundUnique(1023.5, 1024);
    }
    CarryOnlyOnRoundUp(x);
    FieldsOfPacked(0, 15, 0);
    assert PackWord(0, 15, 0) == w;
    DecodeNormal(w);
  }
}
