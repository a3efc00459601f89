/** The half-precision stub of layout/cuda_stubs/cuda_fp16.h, on raw bit patterns: a float
    is its 32-bit pattern (sign bit 31, exponent bits 23-30 biased by 127, mantissa bits
    0-22) and a half its 16-bit pattern (sign bit 15, exponent bits 10-14 biased by 15,
    mantissa bits 0-9), the layouts of the binary32 and binary16 interchange formats of
    IEEE 754-2008, section 3.4.  The stub converts between them by moving fields: the
    exponent is rebiased by 127 - 15 = 112, saturated at 31 and flushed to zero at or below
    0, and the mantissa is truncated to its top ten bits, with no rounding. */
module Fp16 {
  /** The biased exponent field of a float pattern (bits 23-30). */
  function FloatExp(u: bv32): bv8
  {
    ((u >> 23) & 0xff) as bv8
  }

  /** The top ten mantissa bits of a float pattern (bits 13-22), the ones a half keeps. */
  function FloatMantHigh(u: bv32): bv10
  {
    ((u >> 13) & 0x3ff) as bv10
  }

  /** The sign bit of a float pattern. */
  predicate FloatNegative(u: bv32)
  {
    u & 0x8000_0000 != 0
  }

  /** The biased exponent field of a half pattern (bits 10-14). */
  function HalfExp(h: bv16): bv5
  {
    ((h >> 10) & 0x1f) as bv5
  }

  /** The mantissa field of a half pattern (bits 0-9). */
  function HalfMant(h: bv16): bv10
  {
    (h & 0x3ff) as bv10
  }

  /** The sign bit of a half pattern. */
  predicate HalfNegative(h: bv16)
  {
    h & 0x8000 != 0
  }

  /** The constructor `__half(float)`: the sign is copied, the rebiased exponent e is
      flushed to a zero pattern when e <= 0 (sign dropped) and saturated at 31, and the
      mantissa keeps float bits 13-22. */
  function Encode(u: bv32): (h: bv16)
    ensures FloatExp(u) <= 112 ==> h == 0
  {
    var sign := ((u >> 16) & 0x8000) as bv16;
    var f := FloatExp(u);
    if f <= 112 then 0
    else
      var e := if f >= 143 then 31 else f - 112;
      sign | (((e as bv16) & 0x1f) << 10) | (((u >> 13) & 0x3ff) as bv16)
  }

  /** `operator float`: a pattern whose bits other than the sign are zero decodes to +0.0;
      otherwise the sign moves to bit 31, the exponent is rebiased by 112 and the mantissa
      moves up 13 bits. */
  function Decode(h: bv16): (u: bv32)
    ensures h & 0x7fff == 0 ==> u == 0
  {
    if h & 0x7fff == 0 then 0
    else
      var sign := ((h & 0x8000) as bv32) << 16;
      var e := ((h >> 10) & 0x1f) as bv32;
      var mant := ((h & 0x3ff) as bv32) << 13;
      sign | ((e - 15 + 127) << 23) | mant
  }

  /** A float whose rebiased exponent is positive encodes to a half with the same sign,
      the exponent saturated at 31, and the top ten mantissa bits, truncated. */
  lemma EncodeFields(u: bv32)
    requires FloatExp(u) > 112
    ensures HalfNegative(Encode(u)) <==> FloatNegative(u)
    ensures HalfExp(Encode(u)) as int == if FloatExp(u) as int - 112 >= 31 then 31 else FloatExp(u) as int - 112
    ensures HalfMant(Encode(u)) == FloatMantHigh(u)
  {
  }

  /** A non-zero half decodes to a float with the same sign, exponent field plus 112, its
      mantissa in float bits 13-22, and float bits 0-12 clear. */
  lemma DecodeFields(h: bv16)
    requires h & 0x7fff != 0
    ensures FloatNegative(Decode(h)) <==> HalfNegative(h)
    ensures FloatExp(Decode(h)) as int == HalfExp(h) as int + 112
    ensures FloatMantHigh(Decode(h)) == HalfMant(h)
    ensures Decode(h) & 0x1fff == 0
  {
  }

  /** Negative zero (0x8000) decodes to +0.0: the sign of a zero is lost. */
  lemma NegativeZeroLosesSign()
    ensures Decode(0x8000) == 0 && !FloatNegative(Decode(0x8000))
  {
  }

  /** Every half with exponent field 1 .. 31 survives decoding and re-encoding. */
  lemma RoundTrip(h: bv16)
    requires 1 <= HalfExp(h)
    ensures Encode(Decode(h)) == h
  {
    assert h & 0x7fff != 0;
    DecodeFields(h);
    EncodeFields(Decode(h));
    FieldsDetermineHalf(Encode(Decode(h)), h);
  }

  /** A half pattern is fixed by its sign, exponent and mantissa fields. */
  lemma FieldsDetermineHalf(a: bv16, b: bv16)
    requires HalfNegative(a) <==> HalfNegative(b)
    requires HalfExp(a) == HalfExp(b) && HalfMant(a) == HalfMant(b)
    ensures a == b
  {
  }

  /** A subnormal half (exponent field 0, mantissa non-zero) decodes to a float with
      exponent field 112, which re-encodes to the zero pattern. */
  lemma SubnormalFlushed(h: bv16)
    requires HalfExp(h) == 0 && HalfMant(h) != 0
    ensures FloatExp(Decode(h)) == 112
    ensures Encode(Decode(h)) == 0
  {
    assert h & 0x7fff != 0 by {
      assert (h & 0x3ff) != 0;
    }
    DecodeFields(h);
  }

  /** The type `__half`: its 16-bit pattern `x`. */
  datatype Half = Half(x: bv16)

  /** The type `__half_raw`: the same 16 bits. */
  datatype HalfRaw = HalfRaw(x: bv16)

  /** `__half_raw(const __half&)`: copies the pattern. */
  function RawOfHalf(h: Half): (r: HalfRaw)
    ensures r.x == h.x
  {
    HalfRaw(h.x)
  }

  /** `__half(__half_raw)`: copies the pattern. */
  function HalfOfRaw(r: HalfRaw): (h: Half)
    ensures h.x == r.x
  {
    Half(r.x)
  }

  /** `__half(float)` and `__float2half`: the encoder on the float's pattern. */
  function FloatToHalf(u: bv32): (h: Half)
    ensures FloatExp(u) <= 112 ==> h.x == 0
  {
    Half(Encode(u))
  }

  /** `operator float` and `__half2float`: the decoder on the half's pattern. */
  function HalfToFloat(h: Half): (u: bv32)
    ensures h.x & 0x7fff == 0 ==> u == 0
  {
    Decode(h.x)
  }

  /** Converting a half with exponent field 1 .. 31 to float and back, through the raw
      type as well, gives the same half. */
  lemma HalfRoundTrip(h: Half)
    requires 1 <= HalfExp(h.x)
    ensures FloatToHalf(HalfToFloat(h)) == h
    ensures HalfOfRaw(RawOfHalf(FloatToHalf(HalfToFloat(h)))) == h
  {
    RoundTrip(h.x);
  }
}
