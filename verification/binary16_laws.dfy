/**
 * What the binary16 codec guarantees: the word's three fields, the value of
 * each class of word, the encoder's fixed words, saturation, the subnormal
 * and normal encodings, the byte orders, and the round trip on every value
 * binary16 represents.
 */
module Binary16Laws {
  import opened Bits
  import opened Powers
  import opened IeeeFloat
  import opened Binary16

  /** x with the sign the word's sign bit gives it: Binary16.Signed on a
      plain real, for the finite magnitudes the laws are stated on. */
  function WithSign(w: int, x: real): real
    requires 0 <= w < 0x10000
  {
    if SignField(w) == 1 then -x else x
  }

  /** A word is determined by its three fields, and the fields of a packed
      word are the parts it was packed from. */
  lemma FieldsOfPacked(sign: int, exponent: int, mantissa: int)
    requires 0 <= sign <= 1 && 0 <= exponent <= 31 && 0 <= mantissa < 1024
    ensures PackWord(sign, exponent, mantissa) == sign * 0x8000 + exponent * 0x400 + mantissa
    ensures SignField(PackWord(sign, exponent, mantissa)) == sign
    ensures ExponentField(PackWord(sign, exponent, mantissa)) == exponent
    ensures MantissaField(PackWord(sign, exponent, mantissa)) == mantissa
  {
    var w := sign * 0x8000 + exponent * 0x400 + mantissa;
    ModUnique(w, 0x400, sign * 32 + exponent, mantissa);
    ModUnique(sign * 32 + exponent, 32, sign, exponent);
    ModUnique(w, 0x8000, sign, exponent * 0x400 + mantissa);
  }

  /** Every word is the packing of its own fields. */
  lemma WordIsPacked(w: int)
    requires 0 <= w < 0x10000
    ensures w == SignField(w) * 0x8000 + ExponentField(w) * 0x400 + MantissaField(w)
  {
    var q := w / 0x400;
    assert w == q * 0x400 + w % 0x400;
    assert q == (q / 32) * 32 + q % 32;
    assert q / 32 == w / 0x8000 by {
      ModUnique(w, 0x8000, q / 32, (q % 32) * 0x400 + w % 0x400);
    }
  }

  /** 6.103515625e-5, the decoder's subnormal scale, is exactly 2^-14. */
  lemma SubnormalScaleIsPow2()
    ensures SubnormalScale == Pow2(-14)
  {
    Pow2Neg(14);
    assert Pow2(14) == 16384.0 by {
      Pow2IsPow2Nat(14);
      Pow2NatConstants();
    }
    ReciprocalOf(Pow2(-14), Pow2(14));
  }

  /** The reciprocal of 16384. */
  lemma ReciprocalOf(x: real, y: real)
    requires x * y == 1.0 && y == 16384.0
    ensures x == 0.00006103515625
  {
  }

  /** The decoder's result is the word's sign applied to the value its
      exponent and mantissa fields select. */
  lemma DecodeFields(w: int)
    requires 0 <= w < 0x10000
    ensures DecodeWord(w) == Signed(if SignField(w) == 1 then -1 else 1, ClassValue(ExponentField(w), MantissaField(w)))
  {
    var e, m := Shr(And(w, 0x7c00), 10), And(w, 0x03ff);
    assert DecodeWord(w) == Signed(if w >= 0x8000 then -1 else 1, ClassValue(e, m));
    assert e == ExponentField(w) && m == MantissaField(w) by { MasksExtractFields(w); }
    assert (SignField(w) == 1) == (w >= 0x8000);
  }

  /** The unsigned value the exponent and mantissa fields select. */
  function ClassValue(e: int, m: int): Value
  {
    if e == 0 then Finite(SubnormalScale * (m as real / 1024.0))
    else if e == 0x1f then (if m == 0 then PosInf else NaN)
    else Finite(NormalMagnitude(e, m))
  }

  /** Exponent field 0: a subnormal number, m/1024 * 2^-14 with the sign. */
  lemma DecodeSubnormal(w: int)
    requires 0 <= w < 0x10000 && ExponentField(w) == 0
    ensures DecodeWord(w) == Finite(WithSign(w, Pow2(-14) * (MantissaField(w) as real / 1024.0)))
  {
    DecodeSubnormalUnits(w);
    SubnormalScaleIsPow2();
  }

  /** The same in units of 2^-24: a subnormal word is m * 2^-24 with the
      sign. */
  lemma DecodeSubnormalUnits(w: int)
    requires 0 <= w < 0x10000 && ExponentField(w) == 0
    ensures DecodeWord(w) == Finite(WithSign(w, MantissaField(w) as real / 16777216.0))
  {
    var m := MantissaField(w);
    assert ClassValue(0, m) == Finite(m as real / 16777216.0);
    DecodeFiniteClass(w, m as real / 16777216.0);
  }

  /** Exponent field 1 to 30: a normal number, (1 + m/1024) * 2^(e-15) with
      the sign. */
  lemma DecodeNormal(w: int)
    requires 0 <= w < 0x10000 && 0 < ExponentField(w) < 31
    ensures DecodeWord(w) == Finite(WithSign(w, NormalMagnitude(ExponentField(w), MantissaField(w))))
  {
    DecodeFiniteClass(w, NormalMagnitude(ExponentField(w), MantissaField(w)));
  }

  /** (1 + m/1024) * 2^(e-15), the magnitude of a normal number. */
  function NormalMagnitude(e: int, m: int): real
  {
    Pow2(e - 15) * (1.0 + m as real / 1024.0)
  }

  /** A word whose fields select the finite magnitude v decodes to v with
      the word's sign. */
  lemma DecodeFiniteClass(w: int, v: real)
    requires 0 <= w < 0x10000 && ClassValue(ExponentField(w), MantissaField(w)) == Finite(v)
    ensures DecodeWord(w) == Finite(WithSign(w, v))
  {
    DecodeFields(w);
  }

  /** Exponent field 31: the infinity of the word's sign when the mantissa is
      0, NaN otherwise. */
  lemma DecodeNonFinite(w: int)
    requires 0 <= w < 0x10000 && ExponentField(w) == 31
    ensures MantissaField(w) == 0 ==> DecodeWord(w) == (if SignField(w) == 1 then NegInf else PosInf)
    ensures MantissaField(w) != 0 ==> DecodeWord(w) == NaN
  {
    DecodeFields(w);
  }

  /** from_bytes_16 reads the same word whichever order it is told, once the
      two bytes are swapped: big-endian input is little-endian input
      reversed. */
  lemma FromBytes16Swap(b0: Byte, b1: Byte)
    ensures FromBytes16([b0, b1], false) == FromBytes16([b1, b0], true)
  {
  }

  /** The four fixed words of the encoder: NaN is 0x7E00 (a quiet NaN),
      the infinities are 0x7C00 and 0xFC00, and zero is 0x0000. */
  lemma EncodeSpecialWords()
    ensures EncodeWord(NaN) == 0x7e00 && EncodeWord(PosInf) == 0x7c00
    ensures EncodeWord(NegInf) == 0xfc00 && EncodeWord(Finite(0.0)) == 0
  {
  }

  /** The bytes of the fixed words in both orders. */
  lemma EncodeSpecialBytes()
    ensures EncodeBytes16(NaN, true) == [0x00, 0x7e] && EncodeBytes16(NaN, false) == [0x7e, 0x00]
    ensures EncodeBytes16(PosInf, true) == [0x00, 0x7c] && EncodeBytes16(PosInf, false) == [0x7c, 0x00]
    ensures EncodeBytes16(NegInf, true) == [0x00, 0xfc] && EncodeBytes16(NegInf, false) == [0xfc, 0x00]
    ensures EncodeBytes16(Finite(0.0), true) == [0, 0] && EncodeBytes16(Finite(0.0), false) == [0, 0]
  {
    EncodeSpecialWords();
  }

  /** The decoder reads the fixed words as NaN, the two infinities and
      zero. */
  lemma DecodeSpecialWord(w: int)
    requires w == 0x7e00 || w == 0x7c00 || w == 0xfc00 || w == 0
    ensures DecodeWord(w) ==
      if w == 0x7e00 then NaN else if w == 0x7c00 then PosInf else if w == 0xfc00 then NegInf else Finite(0.0)
  {
    if w == 0 {
      DecodeSubnormal(w);
    } else {
      assert ExponentField(w) == 31;
      DecodeNonFinite(w);
    }
  }

  /** NaN, the infinities and zero survive encoding and decoding in either
      byte order. */
  lemma SpecialsRoundTrip(v: Value, littleEndian: bool)
    requires v == NaN || v == PosInf || v == NegInf || v == Finite(0.0)
    ensures FromBytes16(EncodeBytes16(v, littleEndian), littleEndian) == v
  {
    EncodeSpecialWords();
    DecodeSpecialWord(EncodeWord(v));
  }

  /** Big-endian output is little-endian output with its two bytes swapped. */
  lemma EncodeByteOrders(v: Value)
    ensures |EncodeBytes16(v, true)| == 2
    ensures EncodeBytes16(v, false) == [EncodeBytes16(v, true)[1], EncodeBytes16(v, true)[0]]
  {
  }

  /** The fields of the word a non-zero finite x encodes to: the sign bit of
      x, the clamped exponent, and the rounded mantissa cut to 10 bits. */
  lemma EncodeFields(x: real)
    requires x != 0.0
    ensures SignField(EncodeWord(Finite(x))) == (if x < 0.0 then 1 else 0)
    ensures ExponentField(EncodeWord(Finite(x))) == EncodeMagnitude(Abs(x)).0
    ensures MantissaField(EncodeWord(Finite(x))) == EncodeMagnitude(Abs(x)).1 % 1024
  {
    var f := EncodeMagnitude(Abs(x));
    FieldsOfPacked(if x < 0.0 then 1 else 0, f.0, f.1 % 1024);
    assert (f.1 % 1024) % 0x400 == f.1 % 0x400;
  }

  /** 2^16 == 65536 and 2^-14 == 6.103515625e-5. */
  lemma Pow2Constants()
    ensures Pow2(16) == 65536.0
    ensures Pow2(-14) == 0.00006103515625
  {
    Pow2IsPow2Nat(16);
    Pow2NatConstants();
    SubnormalScaleIsPow2();
  }

  /** Saturation: a finite x of magnitude 2^16 or more encodes as the
      infinity of its sign, and a non-zero one below 2^16 never does. */
  lemma EncodeSaturates(x: real)
    requires x != 0.0
    ensures Abs(x) >= Pow2(16) ==> EncodeWord(Finite(x)) == (if x < 0.0 then 0xfc00 else 0x7c00)
    ensures Abs(x) < Pow2(16) ==> ExponentField(EncodeWord(Finite(x))) < 31
  {
    var a := Abs(x);
    if a >= Pow2(16) {
      Log2FloorAtLeast(a, 16);
      assert EncodeMagnitude(a) == (31, 0);
      assert EncodeWord(Finite(x)) == PackWord(if x < 0.0 then 1 else 0, 31, 0);
    } else {
      assert EncodeMagnitude(a).0 < 31 by { MagnitudeCases(a); }
      EncodeFields(x);
    }
  }

  /** x / 2^-14 * 1024 == x * 2^24. */
  lemma SubnormalScaling(x: real)
    ensures x / Pow2(-14) * 1024.0 == x * 16777216.0
  {
    Pow2Constants();
  }

  /** The exponent and rounded mantissa of a magnitude below 2^16, by range:
      below 2^-14 exponent 0 and |x| * 2^24 rounded; otherwise exponent
      e + 15 and (|x| / 2^e - 1) * 1024 rounded, where e = floor(log2 |x|). */
  lemma MagnitudeCases(a: real)
    requires 0.0 < a < Pow2(16)
    ensures Log2Floor(a) < 16
    ensures Log2Floor(a) < -14 ==> EncodeMagnitude(a) == (0, MathRound(a * 16777216.0))
    ensures -14 <= Log2Floor(a) ==>
      EncodeMagnitude(a) == (Log2Floor(a) + 15, MathRound((a / Pow2(Log2Floor(a)) - 1.0) * 1024.0))
  {
    Log2FloorBelow(a, 16);
    SubnormalScaling(a);
  }

  /** Subnormal range: a finite x with 0 < |x| < 2^-14 gets exponent field 0
      and mantissa round(|x| * 2^24), cut to 10 bits. */
  lemma EncodeSubnormal(x: real)
    requires 0.0 < Abs(x) < Pow2(-14)
    ensures SignField(EncodeWord(Finite(x))) == (if x < 0.0 then 1 else 0)
    ensures ExponentField(EncodeWord(Finite(x))) == 0
    ensures MantissaField(EncodeWord(Finite(x))) == MathRound(Abs(x) * 16777216.0) % 1024
  {
    Log2FloorBelow(Abs(x), -14);
    SubnormalScaling(Abs(x));
    EncodeFields(x);
  }

  /** Normal range: a finite x with 2^-14 <= |x| < 2^16 gets exponent field
      floor(log2 |x|) + 15 and mantissa round((|x| / 2^e - 1) * 1024), cut to
      10 bits. */
  lemma EncodeNormal(x: real)
    requires Pow2(-14) <= Abs(x) < Pow2(16)
    ensures var e := Log2Floor(Abs(x));
      -14 <= e < 16 &&
      SignField(EncodeWord(Finite(x))) == (if x < 0.0 then 1 else 0) &&
      ExponentField(EncodeWord(Finite(x))) == e + 15 &&
      MantissaField(EncodeWord(Finite(x))) == MathRound((Abs(x) / Pow2(e) - 1.0) * 1024.0) % 1024
  {
    Log2FloorAtLeast(Abs(x), -14);
    Log2FloorBelow(Abs(x), 16);
    EncodeFields(x);
  }

  /** Two words with the same three fields are the same word. */
  lemma SameFields(w: int, u: int)
    requires 0 <= w < 0x10000 && 0 <= u < 0x10000
    requires SignField(w) == SignField(u) && ExponentField(w) == ExponentField(u)
    requires MantissaField(w) == MantissaField(u)
    ensures w == u
  {
    WordIsPacked(w);
    WordIsPacked(u);
  }

  /** a == p * q lies in [p, r) when 1 <= q < 2 and r == 2p. */
  lemma ScaledBetween(a: real, p: real, q: real, r: real)
    requires p > 0.0 && 1.0 <= q < 2.0 && a == p * q && r == 2.0 * p
    ensures p <= a < r
  {
  }

  /** (p * q) / p == q. */
  lemma DivProduct(p: real, q: real)
    requires p > 0.0
    ensures (p * q) / p == q
  {
  }

  /** A subnormal word other than the two zeros encodes back to itself. */
  lemma RoundTripSubnormal(w: int)
    requires 0 <= w < 0x10000 && ExponentField(w) == 0 && MantissaField(w) != 0
    ensures DecodeWord(w).Finite? && DecodeWord(w).r != 0.0
    ensures EncodeWord(DecodeWord(w)) == w
    ensures EncodeMagnitude(Abs(DecodeWord(w).r)).1 < 1024
  {
    var m := MantissaField(w);
    var a := m as real / 16777216.0;
    DecodeSubnormalUnits(w);
    var x := WithSign(w, a);
    assert Abs(x) == a;
    SubnormalFieldsBack(m, a);
    EncodeFromFields(x, w);
  }

  /** A normal word encodes back to itself. */
  lemma RoundTripNormal(w: int)
    requires 0 <= w < 0x10000 && 0 < ExponentField(w) < 31
    ensures DecodeWord(w).Finite? && DecodeWord(w).r != 0.0
    ensures EncodeWord(DecodeWord(w)) == w
    ensures EncodeMagnitude(Abs(DecodeWord(w).r)).1 < 1024
  {
    var e, m := ExponentField(w), MantissaField(w);
    var a := NormalMagnitude(e, m);
    DecodeNormal(w);
    var x := WithSign(w, a);
    NormalFieldsBack(e, m);
    assert Abs(x) == a;
    EncodeFromFields(x, w);
  }

  /** A non-zero x whose sign and magnitude fields are those of w encodes
      as w. */
  lemma EncodeFromFields(x: real, w: int)
    requires x != 0.0 && 0 <= w < 0x10000
    requires SignField(w) == (if x < 0.0 then 1 else 0)
    requires EncodeMagnitude(Abs(x)) == (ExponentField(w), MantissaField(w))
    ensures EncodeWord(Finite(x)) == w
  {
    FieldsOfPacked(SignField(w), ExponentField(w), MantissaField(w));
    WordIsPacked(w);
  }

  /** The magnitude m * 2^-24 of a subnormal mantissa 0 < m < 1024 gets
      exponent field 0 and mantissa m back from the encoder. */
  lemma SubnormalFieldsBack(m: int, a: real)
    requires 0 < m < 1024 && a == m as real / 16777216.0
    ensures EncodeMagnitude(a) == (0, m)
  {
    assert 0.0 < a < Pow2(16) && a < Pow2(-14) by { Pow2Constants(); }
    Log2FloorBelow(a, -14);
    MagnitudeCases(a);
    assert a * 16777216.0 == m as real;
    MathRoundUnique(m as real, m);
  }

  /** The magnitude of a normal word with exponent field e and mantissa m
      gets exactly those two fields back from the encoder. */
  lemma NormalFieldsBack(e: int, m: int)
    requires 0 < e < 31 && 0 <= m < 1024
    ensures EncodeMagnitude(NormalMagnitude(e, m)) == (e, m)
  {
    var a := NormalMagnitude(e, m);
    NormalMagnitudeBounds(e, m);
    MagnitudeCases(a);
    MathRoundUnique(m as real, m);
  }

  /** The magnitude of a normal word lies in [2^(e-15), 2^(e-14)), inside
      the encoder's normal range, and gives back its mantissa. */
  lemma NormalMagnitudeBounds(e: int, m: int)
    requires 0 < e < 31 && 0 <= m < 1024
    ensures Log2Floor(NormalMagnitude(e, m)) == e - 15
    ensures Pow2(-14) <= NormalMagnitude(e, m) < Pow2(16)
    ensures (NormalMagnitude(e, m) / Pow2(e - 15) - 1.0) * 1024.0 == m as real
  {
    var a := NormalMagnitude(e, m);
    Pow2Succ(e - 15);
    InBinade(a, Pow2(e - 15), m);
    Log2FloorUnique(a, e - 15);
    Pow2MonotoneEq(-14, e - 15);
    Pow2MonotoneEq(e - 14, 16);
  }

  /** a = p * (1 + m/1024) with 0 <= m < 1024 lies in [p, 2p), and
      (a / p - 1) * 1024 gives m back. */
  lemma InBinade(a: real, p: real, m: int)
    requires p > 0.0 && 0 <= m < 1024 && a == p * (1.0 + m as real / 1024.0)
    ensures p <= a < 2.0 * p
    ensures (a / p - 1.0) * 1024.0 == m as real
  {
    var q := 1.0 + m as real / 1024.0;
    ScaledBetween(a, p, q, 2.0 * p);
    DivProduct(p, q);
  }

  /** Every word of a finite number except the negative zero 0x8000 is what
      the encoder produces for the number it decodes to. */
  lemma WordRoundTrip(w: int)
    requires 0 <= w < 0x10000 && ExponentField(w) < 31 && w != 0x8000
    ensures DecodeWord(w).Finite?
    ensures EncodeWord(DecodeWord(w)) == w
    ensures DecodeWord(w).r != 0.0 ==> EncodeMagnitude(Abs(DecodeWord(w).r)).1 < 1024
  {
    if ExponentField(w) == 0 && MantissaField(w) == 0 {
      WordIsPacked(w);
      assert w == 0;
      DecodeSpecialWord(w);
      EncodeSpecialWords();
    } else if ExponentField(w) == 0 {
      RoundTripSubnormal(w);
    } else {
      RoundTripNormal(w);
    }
  }

  /** The numbers binary16 represents: those some word with an exponent
      field below 31 decodes to. */
  predicate Representable(x: real)
  {
    exists w :: 0 <= w < 0x10000 && ExponentField(w) < 31 && DecodeWord(w) == Finite(x)
  }

  /** The negative zero word 0x8000 decodes to zero, which encodes as 0x0000:
      the sign of a negative zero does not survive. */
  lemma NegativeZeroWord(w: int)
    requires w == 0x8000
    ensures DecodeWord(w) == Finite(0.0)
    ensures EncodeWord(DecodeWord(w)) == 0
  {
    assert ExponentField(w) == 0 && MantissaField(w) == 0;
    DecodeSubnormalUnits(w);
    EncodeSpecialWords();
  }

  /** Round trip: every number binary16 represents comes back unchanged
      from `from_bytes_16(to_bytes_16(x, o), o)`, in either byte order. */
  lemma RoundTrip16(x: real, littleEndian: bool)
    requires Representable(x)
    ensures FromBytes16(EncodeBytes16(Finite(x), littleEndian), littleEndian) == Finite(x)
  {
    var w :| 0 <= w < 0x10000 && ExponentField(w) < 31 && DecodeWord(w) == Finite(x);
    if w == 0x8000 {
      NegativeZeroWord(w);
      SpecialsRoundTrip(Finite(0.0), littleEndian);
    } else {
      WordRoundTrip(w);
    }
  }

  /** The little- and big-endian wrappers round-trip the same numbers. */
  lemma RoundTrip16Wrappers(x: real)
    requires Representable(x)
    ensures FromBytes16Le(EncodeBytes16(Finite(x), true)) == Finite(x)
    ensures FromBytes16Be(EncodeBytes16(Finite(x), false)) == Finite(x)
  {
    RoundTrip16(x, true);
    RoundTrip16(x, false);
  }

  /** Distinct finite words decode to distinct numbers, apart from the two
      zeros 0x0000 and 0x8000. */
  lemma DecodeInjective(w: int, u: int)
    requires 0 <= w < 0x10000 && ExponentField(w) < 31 && w != 0x8000
    requires 0 <= u < 0x10000 && ExponentField(u) < 31 && u != 0x8000
    requires DecodeWord(w) == DecodeWord(u)
    ensures w == u
  {
    WordRoundTrip(w);
    WordRoundTrip(u);
  }
}
