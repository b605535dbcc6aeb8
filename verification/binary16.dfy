/**
 * The IEEE 754 binary16 (half precision) codec: `to_bytes_16`,
 * `from_bytes_16` and their little- and big-endian wrappers.
 *
 * A binary16 word holds, from the top bit down, a sign bit, a 5-bit biased
 * exponent (bias 15) and a 10-bit trailing significand (IEEE 754-2008,
 * sections 3.4 and 3.6).  The decoder reads the three fields out of the word
 * with masks and shifts; the encoder builds them from a number's magnitude
 * with floor(log2), a power of two and Math.round, then packs them into two
 * bytes and swaps the bytes for big-endian output.
 *
 * Math.log2 and Math.pow are exact here (see Powers); the host's floating
 * point error in them is not modelled.
 */
module Binary16 {
  import opened Bits
  import opened Powers
  import opened IeeeFloat

  /** 2^-14, the scale of a subnormal binary16 number, written as the decoder
      writes it (6.103515625e-5). */
  const SubnormalScale: real := 0.00006103515625

  /** |x| */
  function Abs(x: real): (r: real)
    ensures r >= 0.0 && (r == x || r == -x)
  {
    if x < 0.0 then -x else x
  }

  /** The 16-bit integer `from_bytes_16` assembles from two bytes: the first
      byte is the low byte in little-endian order and the high byte in
      big-endian order. */
  function WordOf(b0: Byte, b1: Byte, littleEndian: bool): (w: int)
    ensures 0 <= w < 0x10000
  {
    if littleEndian then b0 + b1 * 256 else b0 * 256 + b1
  }

  /** The two bytes of a 16-bit word in the given order. */
  function WordBytes(w: int, littleEndian: bool): (bytes: seq<Byte>)
    requires 0 <= w < 0x10000
    ensures |bytes| == 2 && WordOf(bytes[0], bytes[1], littleEndian) == w
  {
    if littleEndian then [w % 256, w / 256] else [w / 256, w % 256]
  }

  /** `sign * value` for a sign of -1 or 1: negates a finite number, swaps the
      infinities under -1, and leaves NaN as NaN. */
  function Signed(sign: int, v: Value): (r: Value)
    requires sign == -1 || sign == 1
    ensures IsNan(r) <==> IsNan(v)
  {
    match v
    case Finite(x) => Finite(if sign < 0 then -x else x)
    case PosInf => if sign < 0 then NegInf else PosInf
    case NegInf => if sign < 0 then PosInf else NegInf
    case NaN => NaN
  }

  /** The sign bit of a word. */
  function SignField(w: int): int
    requires 0 <= w < 0x10000
  {
    w / 0x8000
  }

  /** The 5-bit biased exponent field of a word (bits 14-10). */
  function ExponentField(w: int): int
    requires 0 <= w < 0x10000
  {
    (w / 0x400) % 32
  }

  /** The 10-bit trailing significand field of a word (bits 9-0). */
  function MantissaField(w: int): int
    requires 0 <= w < 0x10000
  {
    w % 0x400
  }

  /** The masks and shift of the decoder extract exactly the fields:
      `(w & 0x7c00) >> 10` is bits 14-10 and `w & 0x03ff` is bits 9-0. */
  lemma MasksExtractFields(w: int)
    requires 0 <= w < 0x10000
    ensures Shr(And(w, 0x7c00), 10) == ExponentField(w)
    ensures And(w, 0x03ff) == MantissaField(w)
  {
    assert Pow2Nat(5) == 32 && Pow2Nat(10) == 1024;
    assert Shl(31, 10) == 0x7c00 by { ShlIsMul(31, 10); }
    var f := And(Shr(w, 10), 31);
    assert And(w, 0x7c00) == Shl(f, 10) by { AndShiftedMask(w, 31, 10); }
    assert Shr(Shl(f, 10), 10) == f by { ShrShl(f, 10); }
    assert f == (w / 1024) % 32 by {
      ShrIsDiv(w, 10);
      AndLowMask(Shr(w, 10), 5);
    }
    AndLowMask(w, 10);
  }

  /** The value of a 16-bit word: sign from bit 15, exponent from bits 14-10,
      mantissa from bits 9-0; exponent 0 is subnormal, 31 is an infinity or
      NaN, anything else is normal with the implicit leading 1. */
  function DecodeWord(intValue: int): (v: Value)
    requires 0 <= intValue < 0x10000
    ensures v.Finite? <==> ExponentField(intValue) < 31
    ensures v == NaN <==> ExponentField(intValue) == 31 && MantissaField(intValue) != 0
    ensures v == PosInf <==> ExponentField(intValue) == 31 && MantissaField(intValue) == 0 && SignField(intValue) == 0
    ensures v == NegInf <==> ExponentField(intValue) == 31 && MantissaField(intValue) == 0 && SignField(intValue) == 1
  {
    MasksExtractFields(intValue);
    var sign := if intValue >= 0x8000 then -1 else 1;
    var exponent := Shr(And(intValue, 0x7c00), 10);
    var fraction := And(intValue, 0x03ff);
    var value :=
      if exponent == 0 then Finite(SubnormalScale * (fraction as real / 1024.0))
      else if exponent == 0x1f then (if fraction == 0 then PosInf else NaN)
      else Finite(Pow2(exponent - 15) * (1.0 + fraction as real / 1024.0));
    Signed(sign, value)
  }

  /** `from_bytes_16`: NaN (not an error) unless there are exactly two bytes;
      otherwise the value of the word they make in the given order. */
  function FromBytes16(bytes: seq<Byte>, littleEndian: bool): (v: Value)
    ensures |bytes| != 2 ==> v == NaN
  {
    if |bytes| != 2 then NaN
    else DecodeWord(WordOf(bytes[0], bytes[1], littleEndian))
  }

  /** `from_bytes_16_le`. */
  function FromBytes16Le(bytes: seq<Byte>): (v: Value)
    ensures |bytes| == 2 ==> v == DecodeWord(bytes[0] as int + 256 * bytes[1] as int)
    ensures |bytes| != 2 ==> v == NaN
  {
    FromBytes16(bytes, true)
  }

  /** `from_bytes_16_be`. */
  function FromBytes16Be(bytes: seq<Byte>): (v: Value)
    ensures |bytes| == 2 ==> v == DecodeWord(256 * bytes[0] as int + bytes[1] as int)
    ensures |bytes| != 2 ==> v == NaN
  {
    FromBytes16(bytes, false)
  }

  /** x / p against 1 and 2, for a positive p. */
  lemma RatioBounds(x: real, p: real)
    requires p > 0.0
    ensures p <= x ==> x / p >= 1.0
    ensures x < 2.0 * p ==> x / p < 2.0
    ensures 0.0 <= x < p ==> 0.0 <= x / p < 1.0
  {
    RatioAgainst(x, p, 1.0);
    RatioAgainst(x, p, 2.0);
    if 0.0 <= x { RatioNonNegative(x / p, p); }
  }

  /** x / p < c exactly when x < c * p, for a positive p. */
  lemma RatioAgainst(x: real, p: real, c: real)
    requires p > 0.0
    ensures x / p < c <==> x < c * p
  {
    var q := x / p;
    assert x == q * p;
    RatioBelow(q, p, c);
  }

  /** Multiplying by a positive p keeps q below c exactly when q was below c. */
  lemma RatioBelow(q: real, p: real, c: real)
    requires p > 0.0
    ensures q < c <==> q * p < c * p
  {
    if q < c {
      assert (c - q) * p > 0.0;
    } else {
      assert (q - c) * p >= 0.0;
    }
  }

  /** A product with a positive factor is non-negative only if the other is. */
  lemma RatioNonNegative(q: real, p: real)
    requires p > 0.0 && q * p >= 0.0
    ensures q >= 0.0
  {
  }

  /** The exponent field (after the clamps) and the rounded mantissa, before
      it is cut to 10 bits, that `to_bytes_16` computes for a magnitude x:
      exponent floor(log2 x) + 15; below 1 the number is subnormal and its
      mantissa is x / 2^-14 scaled by 1024; from 31 up it saturates with
      mantissa 0; otherwise the mantissa is x / 2^e - 1 scaled by 1024. */
  function EncodeMagnitude(x: real): (fields: (int, int))
    requires x > 0.0
    ensures 0 <= fields.0 <= 31 && 0 <= fields.1 <= 1024
    ensures fields.0 == 31 ==> fields.1 == 0
  {
    var e := Log2Floor(x);
    var biased := e + 15;
    if biased <= 0 then
      Pow2MonotoneEq(e + 1, -14);
      RatioBounds(x, Pow2(-14));
      (0, MathRound(x / Pow2(-14) * 1024.0))
    else if biased >= 31 then (31, 0)
    else
      Pow2Succ(e);
      RatioBounds(x, Pow2(e));
      (biased, MathRound((x / Pow2(e) - 1.0) * 1024.0))
  }

  /** The word with the given sign bit and exponent field whose mantissa
      field is the rounded mantissa cut to its low 10 bits. */
  function PackWord(sign: int, exponent: int, mantissa: int): (w: int)
    requires 0 <= sign <= 1 && 0 <= exponent <= 31 && 0 <= mantissa <= 1024
    ensures 0 <= w < 0x10000
  {
    sign * 0x8000 + exponent * 0x400 + mantissa % 0x400
  }

  /** The 16-bit word `to_bytes_16` produces for a value, before it is split
      into bytes: fixed words for NaN, the infinities and zero; otherwise the
      sign bit, the exponent field and the rounded mantissa cut to 10 bits. */
  function EncodeWord(v: Value): (w: int)
    ensures 0 <= w < 0x10000
  {
    match v
    case NaN => 0x7e00
    case PosInf => 0x7c00
    case NegInf => 0xfc00
    case Finite(x) =>
      if x == 0.0 then 0
      else
        var fields := EncodeMagnitude(Abs(x));
        PackWord(if x < 0.0 then 1 else 0, fields.0, fields.1)
  }

  /** The two bytes `to_bytes_16` returns. */
  function EncodeBytes16(v: Value, littleEndian: bool): (bytes: seq<Byte>)
    ensures |bytes| == 2
  {
    WordBytes(EncodeWord(v), littleEndian)
  }

  /** The high byte `(sign << 7) | ((exponent & 0x1f) << 2) | ((mantissa >> 8) & 0x03)`
      is the top half of the word sign * 2^15 + exponent * 2^10 + (mantissa mod 2^10). */
  lemma PackHigh(sign: nat, exponent: nat, mantissa: nat)
    requires sign <= 1 && exponent <= 31 && mantissa <= 1024
    ensures Or(Or(Shl(sign, 7), Shl(And(exponent, 0x1f), 2)), And(Shr(mantissa, 8), 0x03))
      == PackWord(sign, exponent, mantissa) / 256
  {
    var top, low := sign * 32 + exponent, (mantissa / 256) % 4;
    calc {
      Or(Or(Shl(sign, 7), Shl(And(exponent, 0x1f), 2)), And(Shr(mantissa, 8), 0x03));
    == { ExponentBits(exponent); MantissaTopBits(mantissa); }
      Or(Or(Shl(sign, 7), 4 * exponent), low);
    == { SignAndExponent(sign, exponent); }
      Or(Shl(top, 2), low);
    == { assert Pow2Nat(2) == 4; OrDisjoint(top, low, 2); ShlTwo(top); }
      4 * top + low;
    == { HighByteArith(sign, exponent, mantissa); }
      PackWord(sign, exponent, mantissa) / 256;
    }
  }

  /** `(exponent & 0x1f) << 2` is 4 * exponent for an exponent below 32. */
  lemma ExponentBits(exponent: nat)
    requires exponent <= 31
    ensures Shl(And(exponent, 0x1f), 2) == 4 * exponent
  {
    assert Pow2Nat(5) == 32;
    LowMask(exponent, 5, 0x1f, 32);
    ModUnique(exponent, 32, 0, exponent);
    ShlTwo(And(exponent, 0x1f));
  }

  /** `(mantissa >> 8) & 0x03` is bits 9-8 of the mantissa. */
  lemma MantissaTopBits(mantissa: nat)
    ensures And(Shr(mantissa, 8), 0x03) == (mantissa / 256) % 4
  {
    assert Pow2Nat(2) == 4 && Pow2Nat(8) == 256;
    ShrBy(mantissa, 8, 256);
    LowMask(Shr(mantissa, 8), 2, 3, 4);
  }

  /** `(sign << 7) | (4 * exponent)` is `(sign * 32 + exponent) << 2`. */
  lemma SignAndExponent(sign: nat, exponent: nat)
    requires sign <= 1 && exponent <= 31
    ensures Or(Shl(sign, 7), 4 * exponent) == Shl(sign * 32 + exponent, 2)
  {
    assert Pow2Nat(7) == 128;
    OrDisjoint(sign, 4 * exponent, 7);
    ShlSeven(sign);
    ShlTwo(sign * 32 + exponent);
  }

  /** The arithmetic behind PackHigh and PackLow. */
  lemma HighByteArith(sign: nat, exponent: nat, mantissa: nat)
    requires sign <= 1 && exponent <= 31 && mantissa <= 1024
    ensures PackWord(sign, exponent, mantissa) / 256 == sign * 128 + exponent * 4 + (mantissa / 256) % 4
    ensures PackWord(sign, exponent, mantissa) % 256 == mantissa % 256
  {
    var w := PackWord(sign, exponent, mantissa);
    assert mantissa % 0x400 == 256 * ((mantissa / 256) % 4) + mantissa % 256;
    assert w == 256 * (sign * 128 + exponent * 4 + (mantissa / 256) % 4) + mantissa % 256;
  }

  /** The low byte `mantissa & 0xff` is the bottom half of the word. */
  lemma PackLow(sign: nat, exponent: nat, mantissa: nat)
    requires sign <= 1 && exponent <= 31 && mantissa <= 1024
    ensures And(mantissa, 0xff) == PackWord(sign, exponent, mantissa) % 256
  {
    assert Pow2Nat(8) == 256;
    LowMask(mantissa, 8, 0xff, 256);
    HighByteArith(sign, exponent, mantissa);
  }

  /** The middle of `to_bytes_16`: the exponent field and the rounded
      mantissa of a positive magnitude x, computed as the encoder does, by
      reassigning `exponent` and `fraction` through the two clamps. */
  method MagnitudeFields(x: real) returns (exponent: int, mantissa: int)
    requires x > 0.0
    ensures (exponent, mantissa) == EncodeMagnitude(x)
  {
    exponent := Log2Floor(x);
    var fraction := x / Pow2(exponent) - 1.0;

    exponent := exponent + 15;

    if exponent <= 0 {
      exponent := 0;
      fraction := x / Pow2(-14);
    } else if exponent >= 31 {
      exponent := 31;
      fraction := 0.0;
    }

    mantissa := MathRound(fraction * 1024.0);
  }

  /** `to_bytes_16`: fills a fresh two-byte buffer with the binary16 encoding
      of num (high byte at index 1), then swaps the two bytes in place when
      big-endian output is asked for. */
  method ToBytes16(num: Value, littleEndian: bool) returns (bytes: seq<Byte>)
    ensures bytes == EncodeBytes16(num, littleEndian)
  {
    var u8Array := new Byte[2](_ => 0);

    if num.NaN? {
      u8Array[1] := 0x7e;
    } else if num == PosInf {
      u8Array[1] := 0x7c;
    } else if num == NegInf {
      u8Array[1] := 0xfc;
    } else if num.r == 0.0 {
      // both bytes are already zero
    } else {
      var sign := if num.r < 0.0 then 1 else 0;
      var exponent, mantissa := MagnitudeFields(Abs(num.r));

      var high := Or(Or(Shl(sign, 7), Shl(And(exponent, 0x1f), 2)), And(Shr(mantissa, 8), 0x03));
      var low := And(mantissa, 0xff);
      ghost var w := PackWord(sign, exponent, mantissa);
      assert high == w / 256 by { PackHigh(sign, exponent, mantissa); }
      assert low == w % 256 by { PackLow(sign, exponent, mantissa); }
      u8Array[1] := ToUint8(high);
      u8Array[0] := ToUint8(low);
      assert u8Array[..] == WordBytes(w, true);
    }
    assert u8Array[..] == WordBytes(EncodeWord(num), true);

    if !littleEndian {
      var a := u8Array[0];
      u8Array[0] := u8Array[1];
      u8Array[1] := a;
    }

    bytes := u8Array[..];
  }

  /** `to_bytes_16_le`. */
  method ToBytes16Le(f: Value) returns (bytes: seq<Byte>)
    ensures bytes == EncodeBytes16(f, true)
  {
    bytes := ToBytes16(f, true);
  }

  /** `to_bytes_16_be`. */
  method ToBytes16Be(f: Value) returns (bytes: seq<Byte>)
    ensures bytes == EncodeBytes16(f, false)
  {
    bytes := ToBytes16(f, false);
  }
}
