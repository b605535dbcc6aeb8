# ieee_float: the binary16 codec and the float value contracts, in Dafny

`ieee_float` gives Gleam code an IEEE 754 float that can also be `Infinity`,
`-Infinity` or `NaN`. On JavaScript a value is a plain host number. Its two
FFI files, `src/ieee_float_ffi.mjs` and `src/ieee_float_js.mjs`, hold:

- the classification and extraction functions (`is_finite`, `is_nan`, `to_finite`);
- the three-way `compare`;
- `round`;
- `parse`;
- the byte codecs.

The binary16 (half precision) codec exists only in `ieee_float_ffi.mjs`, and
it is written out by hand: `to_bytes_16` and `from_bytes_16`. The 32- and
64-bit codecs use the host's `DataView`, behind a length guard.

The two files carry the same code for `is_finite`, `is_nan`, `to_finite`,
`parse`, `compare`, `round`, the 32/64 guards and their `_le`/`_be`
wrappers. It is modelled once. The table cites `ieee_float_ffi.mjs`; where
the member models code that `ieee_float_js.mjs` also has, the text gives the
matching lines there.

Modules:

- `IeeeFloat` (values.dfy) holds the value type and the value functions:
  - `Value = Finite(r) | PosInf | NegInf | NaN`, with real numbers for the finite case;
  - `Result`, `Order` and `Byte`;
  - classification, `to_finite`, `compare` with its order laws, and `Math.round` and `round`.
- `Parsing` (parse.dfy) holds `String.prototype.trim` over the ECMAScript whitespace and line terminators, and `parse`. The host's `parse_float` is a parameter; the number it returns may be an infinity.
- `Bits` (bits.dfy) holds JavaScript's `&`, `|`, `<<` and `>>` on the non-negative operands the codec uses, and their arithmetic meaning (masks, shifts, disjoint or).
- `Powers` (powers.dfy) holds exact powers of two `Pow2(e)` and `floor(log2 x)` over the reals.
- `Binary16` (binary16.dfy) holds the codec:
  - the decoder `DecodeWord`/`FromBytes16`;
  - the encoder, specified by `EncodeMagnitude`, `PackWord`, `EncodeWord` and `EncodeBytes16`;
  - the imperative `ToBytes16`, which fills a two-byte array, swaps it in place for big-endian output, and is proved equal to `EncodeBytes16`.
- `Binary16Laws` (binary16_laws.dfy) holds what the codec promises:
  - field extraction and decoding by exponent class;
  - the special words and the byte orders;
  - saturation, and the encoding in the subnormal and normal ranges;
  - the round trip `from_bytes_16(to_bytes_16(x)) == x` for every representable x.
- `Binary16Carry` (carry.dfy) holds the finding below. It has an encoder that carries the rounded mantissa into the exponent field, with its round-to-nearest bound.
- `WideFloats` (wide.dfy) holds the 32- and 64-bit length guards. The host's `DataView` read is a parameter.

## Model

| member | source | states |
|---|---|---|
| IeeeFloat.IsFinite | src/ieee_float_ffi.mjs:27-29 | is_finite holds exactly for the values that are neither an infinity nor NaN (ieee_float_js.mjs:27-29) |
| IeeeFloat.IsNan | src/ieee_float_ffi.mjs:31-33 | is_nan holds exactly for the values that are neither finite nor an infinity (ieee_float_js.mjs:31-33) |
| IeeeFloat.ToFinite | src/ieee_float_ffi.mjs:35-37 | to_finite succeeds exactly on finite values, and then with the value's own number (ieee_float_js.mjs:35-37) |
| IeeeFloat.LessThan | src/ieee_float_ffi.mjs:242 | `a < b` only holds between distinct non-NaN values, and on those it is the rank order -Infinity < reals < +Infinity (ieee_float_js.mjs:154) |
| IeeeFloat.ToFiniteExact | src/ieee_float_ffi.mjs:35-37 | to_finite returns Ok(x) exactly for the finite value x and Error exactly for +Infinity, -Infinity and NaN (same code at ieee_float_js.mjs:35-37) |
| IeeeFloat.ClassificationExclusive | src/ieee_float_ffi.mjs:27-33 | is_finite and is_nan never both hold; every value is finite, NaN or an infinity, and an infinity is neither finite nor NaN (ieee_float_js.mjs:27-33) |
| IeeeFloat.Compare | src/ieee_float_ffi.mjs:235-247 | compare fails exactly when an operand is NaN, and gives Eq exactly when the non-NaN operands are equal (ieee_float_js.mjs:147-159) |
| IeeeFloat.CompareMatchesRank | src/ieee_float_ffi.mjs:240-246 | on non-NaN operands Lt holds exactly when a ranks below b in the order -Infinity < reals < +Infinity, and Gt exactly when b ranks below a (ieee_float_js.mjs:152-158) |
| IeeeFloat.CompareAntisymmetric | src/ieee_float_ffi.mjs:235-247 | swapping the operands swaps Lt and Gt and keeps Eq and the NaN failure (ieee_float_js.mjs:147-159) |
| IeeeFloat.CompareTransitive | src/ieee_float_ffi.mjs:242-243 | Lt is transitive (ieee_float_js.mjs:154-155) |
| IeeeFloat.CompareFinite | src/ieee_float_ffi.mjs:240-246 | on finite operands Lt and Gt are the real order; -Infinity is below and +Infinity above every finite number (ieee_float_js.mjs:152-158) |
| IeeeFloat.MathRound | src/ieee_float_ffi.mjs:287 | Math.round(y) is the integer n with n - 1/2 <= y < n + 1/2 (halves go up) (ieee_float_js.mjs:199) |
| IeeeFloat.MathRoundUnique | src/ieee_float_ffi.mjs:287 | that characterisation picks out one integer (ieee_float_js.mjs:199) |
| IeeeFloat.Round | src/ieee_float_ffi.mjs:281-291 | round fails exactly on non-finite values; otherwise it gives an integer within 1/2 of f (ieee_float_js.mjs:193-203) |
| IeeeFloat.RoundHalfAwayFromZero | src/ieee_float_ffi.mjs:286-290 | round(f) is n exactly when f lies in [n - 1/2, n + 1/2) for f >= 0, and in (n - 1/2, n + 1/2] for f < 0, so ties go away from zero (ieee_float_js.mjs:198-202) |
| IeeeFloat.RoundOdd | src/ieee_float_ffi.mjs:286-290 | round(-f) == -round(f) (ieee_float_js.mjs:198-202) |
| IeeeFloat.RoundExamples | src/ieee_float_ffi.mjs:281-291 | round(2.5) = 3, round(-2.5) = -3, round(-2.4) = -2, and round fails on both infinities and NaN (ieee_float_js.mjs:193-203) |
| Parsing.TrimStart | src/ieee_float_ffi.mjs:48 | the leading trim is a suffix of s, everything it drops is whitespace, and it does not start with whitespace (ieee_float_js.mjs:48) |
| Parsing.TrimEnd | src/ieee_float_ffi.mjs:48 | the trailing trim is a prefix of s, everything it drops is whitespace, and it does not end with whitespace (ieee_float_js.mjs:48) |
| Parsing.Trim | src/ieee_float_ffi.mjs:48 | the trimmed text is no longer than s, and neither starts nor ends with whitespace (ieee_float_js.mjs:48) |
| Parsing.TrimIsBlock | src/ieee_float_ffi.mjs:48 | the trimmed text is the block of s that starts where the leading whitespace ends, with only whitespace after it (ieee_float_js.mjs:48) |
| Parsing.TrimStartPadded | src/ieee_float_ffi.mjs:48 | leading whitespace does not change the leading trim (ieee_float_js.mjs:48) |
| Parsing.TrimEndPadded | src/ieee_float_ffi.mjs:48 | trailing whitespace does not change the trailing trim (ieee_float_js.mjs:48) |
| Parsing.TrimIgnoresPadding | src/ieee_float_ffi.mjs:48 | trim(pre + s + post) == trim(s) for any whitespace pre and post (ieee_float_js.mjs:48) |
| Parsing.TrimIdempotent | src/ieee_float_ffi.mjs:48 | trimming twice is trimming once (ieee_float_js.mjs:48) |
| Parsing.TrimUntouched | src/ieee_float_ffi.mjs:48 | a text that neither starts nor ends with whitespace is its own trim (ieee_float_js.mjs:48) |
| Parsing.Parse | src/ieee_float_ffi.mjs:47-63 | parse gives +Infinity exactly for the trimmed text "Infinity" or any other non-token text parse_float reads as +Infinity, and -Infinity likewise; a finite number exactly when parse_float gives one for a non-token text; NaN exactly when parse_float rejects such a text or gives NaN (ieee_float_js.mjs:47-63) |
| Parsing.Dispatch | src/ieee_float_ffi.mjs:50-62 | on a trimmed text: +Infinity exactly for "Infinity" or a non-token text parse_float reads as +Infinity, -Infinity likewise, a finite value exactly when parse_float gives one for a non-token text, which is then parse_float's number, and NaN exactly when parse_float fails or gives NaN (ieee_float_js.mjs:50-62) |
| Parsing.ParseOutcomes | src/ieee_float_ffi.mjs:47-63 | parse never fails; it returns v exactly when the trimmed text is "Infinity" and v is +Infinity, or it is "-Infinity" and v is -Infinity, or it is neither token and parse_float returns v for it, or parse_float rejects it and v is NaN (ieee_float_js.mjs:47-63) |
| Parsing.DispatchOutcomes | src/ieee_float_ffi.mjs:50-62 | the same if-and-only-if on an already trimmed text (ieee_float_js.mjs:50-62) |
| Parsing.ParseFiniteParser | src/ieee_float_ffi.mjs:47-63 | when parse_float only ever returns finite numbers, parse gives +Infinity exactly for the trimmed text "Infinity", -Infinity exactly for "-Infinity", and NaN exactly when parse_float rejects any other trimmed text (ieee_float_js.mjs:47-63) |
| Parsing.ParseOverflow | src/ieee_float_ffi.mjs:55-58 | a text that is not a token still parses as +Infinity when parse_float reads it as +Infinity, as a decimal too large for a double such as "1.0e400" is (ieee_float_js.mjs:55-58) |
| Parsing.ParseIgnoresPadding | src/ieee_float_ffi.mjs:47-48 | surrounding whitespace never changes what parse returns (ieee_float_js.mjs:47-48) |
| Parsing.ParsePaddedInfinity | src/ieee_float_ffi.mjs:48-51 | "Infinity" with any whitespace around it parses as +Infinity (ieee_float_js.mjs:48-51) |
| Parsing.ParseTokenCaseSensitive | src/ieee_float_ffi.mjs:50-61 | the token is case-sensitive: "infinity" goes to parse_float and is NaN when parse_float rejects it (ieee_float_js.mjs:50-61) |
| Bits.And | src/ieee_float_ffi.mjs:122-123 | `x & y` keeps only bits both operands have, so it is at most either operand; AndLowMask and AndShiftedMask carry what the masks at ieee_float_ffi.mjs:96-97 and 122-123 select |
| Bits.Or | src/ieee_float_ffi.mjs:95-96 | `x \| y` is at least either operand and at most their sum; OrDisjoint carries that it is the sum for non-overlapping fields, as in the high byte |
| Bits.Shl | src/ieee_float_ffi.mjs:95-96 | `x << k` is at least x; ShlIsMul carries that it is x * 2^k |
| Bits.Shr | src/ieee_float_ffi.mjs:122 | `x >> k` is at most x; ShrIsDiv carries that it is x div 2^k (also `fraction >> 8` at ieee_float_ffi.mjs:96) |
| Bits.ToUint8 | src/ieee_float_ffi.mjs:95-97 | storing into a Uint8Array keeps a number in 0..255 unchanged and always gives a byte |
| Bits.AndLowMask | src/ieee_float_ffi.mjs:123 | x & (2^k - 1) is x mod 2^k |
| Bits.AndShiftedMask | src/ieee_float_ffi.mjs:122 | `x & (m << j)` is `((x >> j) & m) << j`: a mask shifted up selects the same bits of x shifted up |
| Bits.ShrIsDiv | src/ieee_float_ffi.mjs:122 | x >> k is x div 2^k |
| Bits.ShlIsMul | src/ieee_float_ffi.mjs:96 | x << k is x * 2^k |
| Bits.OrDisjoint | src/ieee_float_ffi.mjs:95-96 | (a << k) \| b is the sum (a << k) + b when b < 2^k |
| Powers.Pow2 | src/ieee_float_ffi.mjs:131 | `Math.pow(2, e)`, computed exactly, is positive for every integer e |
| Powers.Log2Floor | src/ieee_float_ffi.mjs:80 | Math.floor(Math.log2(x)) is the e with 2^e <= x < 2^(e+1) |
| Powers.Log2FloorUnique | src/ieee_float_ffi.mjs:80 | that e is unique |
| Binary16.Abs | src/ieee_float_ffi.mjs:78 | `Math.abs(num)` is non-negative and is num or -num |
| Binary16.WordOf | src/ieee_float_ffi.mjs:114-119 | the word read from two bytes, low byte first for little-endian, is a 16-bit word |
| Binary16.WordBytes | src/ieee_float_ffi.mjs:95-104 | a 16-bit word gives two bytes that read back as the same word in the same byte order |
| Binary16.MasksExtractFields | src/ieee_float_ffi.mjs:122-123 | `(w & 0x7c00) >> 10` is bits 10-14 and `w & 0x03ff` is bits 0-9 of the word |
| Binary16.DecodeWord | src/ieee_float_ffi.mjs:121-134 | a word decodes to a finite number exactly when its exponent field is below 31; with field 31 it is NaN exactly when the mantissa field is non-zero, and otherwise the infinity of the sign bit |
| Binary16.Signed | src/ieee_float_ffi.mjs:134 | `sign * value` is NaN exactly when value is NaN |
| Binary16.FromBytes16 | src/ieee_float_ffi.mjs:109-112 | from_bytes_16 returns NaN, not an error, for any length other than 2 |
| Binary16.FromBytes16Le | src/ieee_float_ffi.mjs:179-181 | from_bytes_16_le reads the first byte as the low byte, and gives NaN on a wrong length |
| Binary16.FromBytes16Be | src/ieee_float_ffi.mjs:187-189 | from_bytes_16_be reads the first byte as the high byte, and gives NaN on a wrong length |
| Binary16.EncodeMagnitude | src/ieee_float_ffi.mjs:78-93 | after the clamps the exponent field is in 0..31 and the rounded mantissa in 0..1024, and the mantissa is 0 when the exponent saturates at 31 |
| Binary16.PackWord | src/ieee_float_ffi.mjs:95-97 | sign, exponent and rounded mantissa pack into a 16-bit word |
| Binary16.EncodeWord | src/ieee_float_ffi.mjs:65-98 | the encoder's word is always a 16-bit word |
| Binary16.EncodeBytes16 | src/ieee_float_ffi.mjs:65-107 | to_bytes_16 always gives exactly two bytes |
| Binary16.PackHigh | src/ieee_float_ffi.mjs:95-96 | the high byte `(sign << 7) \| ((exponent & 0x1f) << 2) \| ((fraction >> 8) & 0x03)` is the word div 256 |
| Binary16.ExponentBits | src/ieee_float_ffi.mjs:96 | `(exponent & 0x1f) << 2` is 4 * exponent for an exponent up to 31 |
| Binary16.MantissaTopBits | src/ieee_float_ffi.mjs:96 | `(fraction >> 8) & 0x03` is bits 8-9 of the mantissa |
| Binary16.SignAndExponent | src/ieee_float_ffi.mjs:96 | `(sign << 7) \| (4 * exponent)` is (32 * sign + exponent) << 2 |
| Binary16.PackLow | src/ieee_float_ffi.mjs:97 | the low byte `fraction & 0xff` is the word mod 256 |
| Binary16.MagnitudeFields | src/ieee_float_ffi.mjs:78-93 | the exponent/fraction computation with its two clamps gives exactly EncodeMagnitude |
| Binary16.ToBytes16 | src/ieee_float_ffi.mjs:65-107 | filling the array and swapping it in place for big-endian output gives exactly EncodeBytes16 (the two bytes of EncodeWord in that order) |
| Binary16.ToBytes16Le | src/ieee_float_ffi.mjs:175-177 | to_bytes_16_le gives the little-endian bytes |
| Binary16.ToBytes16Be | src/ieee_float_ffi.mjs:183-185 | to_bytes_16_be gives the big-endian bytes |
| Binary16Laws.FieldsOfPacked | src/ieee_float_ffi.mjs:95-97 | a packed word has exactly the sign, exponent and mantissa it was packed from |
| Binary16Laws.WordIsPacked | src/ieee_float_ffi.mjs:121-123 | every word is sign * 2^15 + exponent * 2^10 + mantissa of its own fields |
| Binary16Laws.SameFields | src/ieee_float_ffi.mjs:121-123 | two words with the same three fields are the same word |
| Binary16Laws.SubnormalScaleIsPow2 | src/ieee_float_ffi.mjs:127 | the constant 6.103515625e-5 is exactly 2^-14 |
| Binary16Laws.DecodeFields | src/ieee_float_ffi.mjs:121-134 | the decoded value is the sign bit applied to the value the exponent and mantissa fields select |
| Binary16Laws.DecodeSubnormal | src/ieee_float_ffi.mjs:126-127 | exponent field 0 decodes to ±2^-14 * m/1024 |
| Binary16Laws.DecodeSubnormalUnits | src/ieee_float_ffi.mjs:126-127 | exponent field 0 decodes to ±m * 2^-24 |
| Binary16Laws.DecodeNormal | src/ieee_float_ffi.mjs:130-131 | exponent field 1..30 decodes to ±2^(e-15) * (1 + m/1024) |
| Binary16Laws.DecodeFiniteClass | src/ieee_float_ffi.mjs:125-134 | a word whose fields select a finite magnitude decodes to it with the word's sign |
| Binary16Laws.DecodeNonFinite | src/ieee_float_ffi.mjs:128-129 | exponent field 31 decodes to the infinity of the sign bit when the mantissa is 0, and to NaN otherwise |
| Binary16Laws.FromBytes16Swap | src/ieee_float_ffi.mjs:114-119 | big-endian input is little-endian input with the two bytes swapped |
| Binary16Laws.EncodeSpecialWords | src/ieee_float_ffi.mjs:68-76 | NaN encodes as 0x7E00, +Infinity as 0x7C00, -Infinity as 0xFC00, and zero as 0x0000 |
| Binary16Laws.EncodeSpecialBytes | src/ieee_float_ffi.mjs:68-104 | the bytes of those four words in both byte orders |
| Binary16Laws.DecodeSpecialWord | src/ieee_float_ffi.mjs:121-134 | 0x7E00, 0x7C00, 0xFC00 and 0x0000 decode to NaN, +Infinity, -Infinity and zero |
| Binary16Laws.SpecialsRoundTrip | src/ieee_float_ffi.mjs:65-135 | NaN, both infinities and zero survive encoding and decoding in either byte order |
| Binary16Laws.EncodeByteOrders | src/ieee_float_ffi.mjs:100-104 | big-endian output is little-endian output with its two bytes swapped |
| Binary16Laws.EncodeFields | src/ieee_float_ffi.mjs:77-97 | a non-zero x encodes with its own sign bit, the clamped exponent, and the rounded mantissa mod 1024, so a carry out of the mantissa is dropped |
| Binary16Laws.EncodeSaturates | src/ieee_float_ffi.mjs:88-91 | \|x\| >= 2^16 encodes as the infinity of x's sign, and a non-zero \|x\| < 2^16 never gets exponent field 31 |
| Binary16Laws.MagnitudeCases | src/ieee_float_ffi.mjs:80-93 | below 2^16 the fields are (0, round(\|x\| * 2^24)) under 2^-14 and (e + 15, round((\|x\| / 2^e - 1) * 1024)) from 2^-14 up |
| Binary16Laws.EncodeSubnormal | src/ieee_float_ffi.mjs:85-87 | 0 < \|x\| < 2^-14 gets exponent field 0 and mantissa round(\|x\| * 2^24) mod 1024 |
| Binary16Laws.EncodeNormal | src/ieee_float_ffi.mjs:80-83 | 2^-14 <= \|x\| < 2^16 gets exponent field floor(log2 \|x\|) + 15 and mantissa round((\|x\| / 2^e - 1) * 1024) mod 1024 |
| Binary16Laws.EncodeFromFields | src/ieee_float_ffi.mjs:95-97 | a non-zero x whose sign and magnitude fields are those of w encodes as w |
| Binary16Laws.SubnormalFieldsBack | src/ieee_float_ffi.mjs:85-93 | m * 2^-24 with 0 < m < 1024 gets the fields (0, m) back |
| Binary16Laws.NormalFieldsBack | src/ieee_float_ffi.mjs:80-93 | 2^(e-15) * (1 + m/1024) gets the fields (e, m) back |
| Binary16Laws.NormalMagnitudeBounds | src/ieee_float_ffi.mjs:131 | a normal word's magnitude lies in its binade [2^(e-15), 2^(e-14)) inside the normal range, and gives back its mantissa |
| Binary16Laws.RoundTripSubnormal | src/ieee_float_ffi.mjs:65-135 | a non-zero subnormal word decodes to a non-zero number that encodes back to the same word |
| Binary16Laws.RoundTripNormal | src/ieee_float_ffi.mjs:65-135 | a normal word decodes to a number that encodes back to the same word |
| Binary16Laws.WordRoundTrip | src/ieee_float_ffi.mjs:65-135 | every word with exponent field below 31, except 0x8000, decodes to a finite number that encodes back to the same word, without a round-up to 1024 |
| Binary16Laws.NegativeZeroWord | src/ieee_float_ffi.mjs:74-76 | 0x8000 decodes to zero, and zero encodes as 0x0000 |
| Binary16Laws.RoundTrip16 | src/ieee_float_ffi.mjs:65-135 | from_bytes_16(to_bytes_16(x, o), o) == x for every number binary16 represents, in either byte order |
| Binary16Laws.RoundTrip16Wrappers | src/ieee_float_ffi.mjs:175-189 | the same round trip through the _le and _be wrappers |
| Binary16Laws.DecodeInjective | src/ieee_float_ffi.mjs:109-135 | distinct finite words other than 0x8000 decode to distinct numbers |
| Binary16Carry.EncodeWordCarry | src/ieee_float_ffi.mjs:93-97 | the corrected encoder, which adds the rounded mantissa into the word instead of masking it, still gives a 16-bit word |
| Binary16Carry.CarryOnlyOnRoundUp | src/ieee_float_ffi.mjs:93-97 | the corrected and the as-written encoder agree unless the mantissa rounds up to 1024, and then the as-written word is one exponent step (0x400) lower |
| Binary16Carry.CarryRoundTrip | src/ieee_float_ffi.mjs:65-135 | the corrected encoder keeps the round trip of every finite word except 0x8000 |
| Binary16Carry.FieldMagnitudeIsClassValue | src/ieee_float_ffi.mjs:125-132 | for exponent fields below 31 the magnitude the fields stand for is the finite value the decoder's exponent classes select |
| Binary16Carry.CarryWordValue | src/ieee_float_ffi.mjs:121-134 | a word built by adding sign, exponent and a mantissa up to 1024 decodes to the magnitude those fields stand for, also across the carry |
| Binary16Carry.CarryNearest | src/ieee_float_ffi.mjs:77-97 | for 0 < \|x\| < 65520 the corrected encoder yields a finite number within half a spacing, 2^(k-10) / 2, of x, where k = max(floor(log2 \|x\|), -14) |
| Binary16Carry.CarryMagnitude | src/ieee_float_ffi.mjs:80-93 | below 65520 the fields stay below the infinity word, and the magnitude they stand for is within 2^k / 2048 of the input |
| Binary16Carry.CarryMagnitudeSubnormal | src/ieee_float_ffi.mjs:85-93 | that bound in the subnormal range |
| Binary16Carry.CarryMagnitudeNormal | src/ieee_float_ffi.mjs:80-93 | that bound in the normal range, with no carry out of the top binade |
| Binary16Carry.NormalCarryError | src/ieee_float_ffi.mjs:80-93 | the normal-range error bound by itself |
| Binary16Carry.TopBinadeNoCarry | src/ieee_float_ffi.mjs:88-93 | between 2^15 and 65520 the mantissa never rounds up to 1024 |
| Binary16Carry.SubnormalError | src/ieee_float_ffi.mjs:85-93 | round(\|x\| * 2^24) * 2^-24 is within 2^-25 of \|x\| |
| Binary16Carry.DroppedCarry | src/ieee_float_ffi.mjs:93-97 | 4095/2048 encodes as written to 0x3C00, which is 1.0, more than half a spacing away; the corrected encoder gives 0x4000 |
| WideFloats.FromBytes32 | src/ieee_float_ffi.mjs:146-154 | from_bytes_32 returns NaN for any length other than 4 (ieee_float_js.mjs:74-82) |
| WideFloats.FromBytes64 | src/ieee_float_ffi.mjs:165-173 | from_bytes_64 returns NaN for any length other than 8 (ieee_float_js.mjs:93-101) |
| WideFloats.FromBytes32Le | src/ieee_float_ffi.mjs:195-197 | NaN on a wrong length, otherwise the host's little-endian reading (ieee_float_js.mjs:107-109) |
| WideFloats.FromBytes32Be | src/ieee_float_ffi.mjs:203-205 | NaN on a wrong length, otherwise the host's big-endian reading (ieee_float_js.mjs:115-117) |
| WideFloats.FromBytes64Le | src/ieee_float_ffi.mjs:211-213 | NaN on a wrong length, otherwise the host's little-endian reading (ieee_float_js.mjs:123-125) |
| WideFloats.FromBytes64Be | src/ieee_float_ffi.mjs:219-221 | NaN on a wrong length, otherwise the host's big-endian reading (ieee_float_js.mjs:131-133) |
| WideFloats.GuardsPassThrough | src/ieee_float_ffi.mjs:146-173 | on the right length the guard returns the host's reading of the same bytes in the same order, and a non-NaN result only comes from the right length (ieee_float_js.mjs:74-101) |
| WideFloats.DecodersDisjoint | src/ieee_float_ffi.mjs:109-173 | on any byte string at most one of the 16-, 32- and 64-bit decoders gives something other than NaN (the 32- and 64-bit guards are also at ieee_float_js.mjs:74-101) |

## Left out

- The content of the 32- and 64-bit codecs. `to_bytes_32`, `to_bytes_64` and their `_le`/`_be` wrappers (ieee_float_ffi.mjs:137-144, 156-163, 191-193, 199-201, 207-209, 215-217) are the host's `DataView.setFloat32/64`, so they are not modelled. The `getFloat32/64` read behind the guards is a function parameter.
- Floating-point error in `Math.log2`, `Math.pow` and the division and multiplication of `to_bytes_16` and `from_bytes_16`. The model computes them exactly over the reals.
  - On powers of two and on the binary16 values themselves the host's steps give the same results as the model, as long as `Math.log2` is exact on powers of two. Then `floor(log2 x)`, the division by a power of two, the `- 1`, the `* 1024` and `Math.round` all agree with the model. The round trip and the special words are stated for exactly these inputs.
  - Just below a power of two they can differ. A correctly rounded `Math.log2` rounds up to the next integer there. For x = 65536 - 2^-37 the host takes floor(log2 x) = 16 at ieee_float_ffi.mjs:80, saturates at lines 88-90 and writes 0x7C00 (Infinity). The model takes 15, rounds the mantissa up to 1024, drops the carry and writes 0x7800 (32768).
  - Likewise the largest doubles below 2^-14 get exponent field 1 and a mantissa of -0 on the host, so they encode as 0x0400 (2^-14). The model puts them in the subnormal range, where the mantissa rounds up to 1024 and is dropped, giving 0x0000.
  - The statements about inputs other than binary16 values (`EncodeSaturates`, `MagnitudeCases`, `EncodeSubnormal`, `EncodeNormal`, the `Binary16Carry` bounds) are about the exact model.
- Signed zero. `Value` has one zero, so:
  - `-0` encodes as 0x0000, as the source's `num === 0` branch also does;
  - 0x8000 decodes to zero where the host gives `-0`.
- NaN payloads. There is a single NaN.
- Where the host's `parse_float` comes from. It is a parameter of `Parse`, returning any host number, so an infinity or NaN from it passes through.
- The arithmetic wrappers around host operators: `absolute_value`, `add`, `ceiling`, `divide`, `floor`, `max`, `min`, `multiply`, `negate`, `power`, `subtract`, `square_root`, and `rescue_bad_arith` (ieee_float_js.mjs:213).
- `to_string`. It formats through the host's float printer.
- `random`. It is a host random number.
- `finite`, `positive_infinity`, `negative_infinity` and `nan` (ieee_float_ffi.mjs:11-25). They are the `Value` constructors themselves.
- Text outside Unicode scalar values. A Dafny string is a sequence of Unicode scalar values, while a JavaScript string is a sequence of UTF-16 code units, so a text holding a lone surrogate cannot be given to `Parse`. `Trim` is unaffected: every code point it removes is one non-surrogate unit of the Basic Multilingual Plane.
- The bit operators. They are modelled on non-negative integers only, which is all the codec applies them to. 32-bit wrap-around of `<<` is not modelled, because no operand reaches bit 31.
- The `BitArray` wrapper. It is `seq<Byte>`, and its `length` is the sequence length.

## Findings

| source | as written | input that shows it | evidently intended | confidence | as-written member | corrected member |
|---|---|---|---|---|---|---|
| src/ieee_float_ffi.mjs:93-97 | `Math.round(fraction * 1024)` can give 1024. The packing `(fraction >> 8) & 0x03` and `fraction & 0xff` keeps only its low 10 bits, so the round-up is dropped instead of carried into the exponent field. | x = 4095/2048 (1.99951171875) encodes to 0x3C00, which decodes to 1.0 instead of 2.0 (0x4000). In the exact model the same loss also maps x just below 2^-14 to zero, and 65520 <= x < 65536 to 32768 instead of Infinity. On the host, the doubles nearest to those two powers of two are instead moved up by `Math.log2` (see "## Left out"). | Round to nearest: the carry raises the exponent field, so the encoded number is within half a spacing of x | not executed | Binary16Carry.DroppedCarry | Binary16Carry.CarryNearest |
