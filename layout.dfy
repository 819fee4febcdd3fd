/**
 * Per-width constants of the parse side, the decomposition of a float's bit
 * pattern into exponent and mantissa, and the packing of an ExtendedFloat
 * (a 64-bit mantissa with a biased binary exponent) into a bit pattern.
 *
 * A float is represented by its bit pattern as returned by `to_bits`: a
 * binary32 pattern widened to 64 bits, or a binary64 pattern.  The layout is
 * the one of section 3.4 of IEEE 754-2019: sign bit, biased exponent field,
 * trailing significand field.
 */
module Layout {
  import opened Arith

  datatype Width = F32 | F64

  /** Width in bits of the interchange format. */
  function TotalBits(w: Width): nat { if w == F32 then 32 else 64 }

  /** Width in bits of the biased exponent field. */
  function ExponentBits(w: Width): nat { if w == F32 then 8 else 11 }

  function MaxDigits(w: Width): nat { if w == F32 then 114 else 769 }
  function SignMask(w: Width): u64 { if w == F32 then 0x80000000 else 0x8000000000000000 }
  function ExpMask(w: Width): u64 { if w == F32 then 0x7F800000 else 0x7FF0000000000000 }
  function HiddenBitMask(w: Width): u64 { if w == F32 then 0x00800000 else 0x0010000000000000 }
  function MantMask(w: Width): u64 { if w == F32 then 0x007FFFFF else 0x000FFFFFFFFFFFFF }
  function MantSize(w: Width): nat { if w == F32 then 23 else 52 }
  function ExpBias(w: Width): int { (if w == F32 then 127 else 1023) + MantSize(w) }
  function DenormalExp(w: Width): int { 1 - ExpBias(w) }
  function MaxExp(w: Width): int { (if w == F32 then 0xFF else 0x7FF) - ExpBias(w) }
  function CarryMask(w: Width): u64 { if w == F32 then 0x1000000 else 0x20000000000000 }
  function MinExpRoundToEven(w: Width): int { if w == F32 then -17 else -4 }
  function MaxExpRoundToEven(w: Width): int { if w == F32 then 10 else 23 }
  function MinExp(w: Width): int { if w == F32 then -127 else -1023 }
  function SmallestPowerOfTen(w: Width): int { if w == F32 then -65 else -342 }
  function LargestPowerOfTen(w: Width): int { if w == F32 then 38 else 308 }
  function MinExpFastPath(w: Width): int { if w == F32 then -10 else -22 }
  function MaxExpFastPath(w: Width): int { if w == F32 then 10 else 22 }
  function MaxExpDisguisedFastPath(w: Width): int { if w == F32 then 17 else 37 }

  /** Marker added to the exponent of a result the moderate path could not round. */
  const INVALID_FP: int := -0x8000

  /** `2_u64 << MANT_SIZE`. */
  function MaxMantissaFastPath(w: Width): nat { 2 * Pow2(MantSize(w)) }

  /** Biased exponent of infinity, in the units of ExtendedFloat.exp. */
  function InfinitePower(w: Width): int { MaxExp(w) + ExpBias(w) }

  /** Holds of the bit patterns `to_bits` can produce for the width. */
  predicate IsBits(w: Width, bits: u64) { bits < Pow2(TotalBits(w)) }

  // ----------------------------------------------------- the constants agree

  /**
   * The masks and sizes are the ranges of section 3.4 of IEEE 754-2019: the
   * sign bit on top, the exponent field below it, the trailing significand
   * field at the bottom, adding up to every bit of the format.
   */
  lemma MaskValues(w: Width)
    ensures MantSize(w) + ExponentBits(w) + 1 == TotalBits(w)
    ensures MantMask(w) == Pow2(MantSize(w)) - 1
    ensures HiddenBitMask(w) == MantMask(w) + 1
    ensures ExpMask(w) == (Pow2(ExponentBits(w)) - 1) * Pow2(MantSize(w))
    ensures SignMask(w) == Pow2(ExponentBits(w)) * Pow2(MantSize(w)) == Pow2(TotalBits(w) - 1)
    ensures Pow2(TotalBits(w)) == 2 * SignMask(w)
    ensures SignMask(w) + ExpMask(w) + MantMask(w) == Pow2(TotalBits(w)) - 1
  {
    Pow2Table();
  }

  /** SIGN_MASK, EXP_MASK and MANT_MASK are pairwise disjoint. */
  lemma MasksDisjoint(w: Width)
    ensures BitAnd(SignMask(w), ExpMask(w)) == 0 && BitAnd(SignMask(w), MantMask(w)) == 0
    ensures BitAnd(ExpMask(w), MantMask(w)) == 0
  {
    var m, e := MantSize(w), ExponentBits(w);
    var top, fm, p := Pow2(e), Pow2(e) - 1, Pow2(m);
    assert SignMask(w) == top * p && ExpMask(w) == fm * p && MantMask(w) == p - 1 by {
      MaskValues(w);
    }
    assert BitAnd(top * p, fm * p) == 0 by {
      AndDisjoint(fm, 1, e);
      BitZero(fm);
      ShiftedOps(top, fm, m);
    }
    AndDisjoint(p - 1, top, m);
    AndDisjoint(p - 1, fm, m);
  }

  /** INFINITE_POWER is the all-ones exponent field; CARRY_MASK is 2 << MANT_SIZE. */
  lemma DerivedConstants(w: Width)
    ensures InfinitePower(w) == Pow2(ExponentBits(w)) - 1
    ensures InfinitePower(w) == (if w == F32 then 0xFF else 0x7FF)
    ensures CarryMask(w) == MaxMantissaFastPath(w) == 2 * Pow2(MantSize(w))
  {
    Pow2Table();
  }

  // --------------------------------------------------------- fields of a float

  /** The biased exponent field. */
  function ExponentField(w: Width, bits: u64): nat
  {
    bits / Pow2(MantSize(w)) % Pow2(ExponentBits(w))
  }

  /** The trailing significand field. */
  function FractionField(w: Width, bits: u64): nat
  {
    bits % Pow2(MantSize(w))
  }

  /** `is_denormal`: the exponent field is zero (zero itself included). */
  predicate IsDenormal(w: Width, bits: u64)
  {
    BitAnd(bits, ExpMask(w)) == 0
  }

  /** `exponent`: the binary exponent of the integer significand `Mantissa`. */
  function Exponent(w: Width, bits: u64): int
  {
    if IsDenormal(w, bits) then DenormalExp(w)
    else BitAnd(bits, ExpMask(w)) / Pow2(MantSize(w)) - ExpBias(w)
  }

  /** `mantissa`: the trailing significand with the hidden bit for normal numbers. */
  function Mantissa(w: Width, bits: u64): (r: nat)
    ensures r < 2 * Pow2(MantSize(w)) < TWO64
  {
    var s := BitAnd(bits, MantMask(w));
    MaskValues(w);
    Pow2Table();
    assert s < Pow2(MantSize(w)) by {
      BitAndLowMask(bits, MantSize(w));
    }
    if !IsDenormal(w, bits) then s + HiddenBitMask(w) else s
  }

  lemma MaskedFields(w: Width, bits: u64)
    ensures BitAnd(bits, ExpMask(w)) == ExponentField(w, bits) * Pow2(MantSize(w))
    ensures BitAnd(bits, MantMask(w)) == FractionField(w, bits)
  {
    MaskValues(w);
    BitAndFieldMask(bits, MantSize(w), ExponentBits(w));
    BitAndLowMask(bits, MantSize(w));
  }

  /**
   * The decomposition read off the fields: a denormal (exponent field 0) has
   * exponent DENORMAL_EXP and no hidden bit, a normal number has exponent
   * field - EXP_BIAS and the hidden bit 2^MANT_SIZE added to its fraction.
   */
  lemma DecomposeFields(w: Width, bits: u64)
    ensures IsDenormal(w, bits) <==> ExponentField(w, bits) == 0
    ensures Exponent(w, bits) ==
      if ExponentField(w, bits) == 0 then DenormalExp(w) else ExponentField(w, bits) - ExpBias(w)
    ensures Mantissa(w, bits) ==
      FractionField(w, bits) + if ExponentField(w, bits) == 0 then 0 else Pow2(MantSize(w))
  {
    MaskedFields(w, bits);
    MaskValues(w);
    var f, p := ExponentField(w, bits), Pow2(MantSize(w));
    DivAddMultiple(f, 0, p);
    if f != 0 {
      MulAtLeast(f, p);
    }
  }

  // -------------------------------------------------------------- ExtendedFloat

  /**
   * A mantissa with a binary exponent.  Between the rounding steps `exp` is the
   * biased exponent field that `extended_to_float` packs above the mantissa.
   * Rust stores `exp` in an i32; every value the model produces stays far
   * inside that range, so it is kept unbounded here.
   */
  datatype ExtendedFloat = ExtendedFloat(mant: u64, exp: int)

  /** `from_bits`: a binary32 pattern keeps only the low 32 bits of the word. */
  function FromBits(w: Width, u: u64): (r: u64)
    ensures IsBits(w, r)
    ensures u < Pow2(TotalBits(w)) ==> r == u
  {
    Pow2Table();
    if w == F32 then u % TWO32 else u
  }

  /**
   * `extended_to_float`: `mant | (exp as u64) << MANT_SIZE`; the cast wraps a
   * negative exponent and the shift drops bits above bit 63.
   */
  function ExtendedToFloat(w: Width, x: ExtendedFloat): (r: u64)
    ensures IsBits(w, r)
  {
    var shifted := (x.exp % TWO64) * Pow2(MantSize(w)) % TWO64;
    var word := BitOr(x.mant, shifted);
    Pow2Table();
    BitBound(x.mant, shifted, 64);
    FromBits(w, word)
  }

  /**
   * Packing a mantissa below 2^MANT_SIZE with an exponent that fits the field
   * puts `exp` in the exponent field and `mant` in the fraction field, with a
   * clear sign bit.
   */
  lemma ExtendedToFloatFields(w: Width, x: ExtendedFloat)
    requires x.mant < Pow2(MantSize(w))
    requires 0 <= x.exp < Pow2(ExponentBits(w))
    ensures ExtendedToFloat(w, x) == x.mant + x.exp * Pow2(MantSize(w)) < SignMask(w)
    ensures ExponentField(w, ExtendedToFloat(w, x)) == x.exp
    ensures FractionField(w, ExtendedToFloat(w, x)) == x.mant
  {
    var m, e := MantSize(w), ExponentBits(w);
    var p := Pow2(m);
    MaskValues(w);
    Pow2Table();
    var packed := x.mant + x.exp * p;
    assert x.exp * p <= (Pow2(e) - 1) * p by {
      MulMonotone(x.exp, p, Pow2(e) - 1, p);
    }
    MulDistrib(Pow2(e), -1, p);
    assert packed < SignMask(w);
    assert x.exp % TWO64 == x.exp;
    assert (x.exp * p) % TWO64 == x.exp * p;
    BitOrDisjoint(x.mant, x.exp, m);
    DivAddMultiple(x.exp, x.mant, p);
    SmallDiv(x.mant, p);
    SmallDiv(x.exp, Pow2(e));
  }

  /**
   * The one overlapping case: a subnormal that rounds up to 2^MANT_SIZE comes
   * with exponent 1, and the or of the two yields the smallest normal number.
   */
  lemma CarryIntoSmallestNormal(w: Width)
    ensures ExtendedToFloat(w, ExtendedFloat(HiddenBitMask(w), 1)) == HiddenBitMask(w)
    ensures ExponentField(w, HiddenBitMask(w)) == 1 && FractionField(w, HiddenBitMask(w)) == 0
  {
    var m, e := MantSize(w), ExponentBits(w);
    var p := Pow2(m);
    assert HiddenBitMask(w) == p && p < TWO64 / 2 && Pow2(e) > 1 && Pow2(TotalBits(w)) > p by {
      MaskValues(w);
      Pow2Table();
    }
    assert (1 % TWO64) * p % TWO64 == p;
    assert BitOr(p, p) == p by {
      BitOrSetBit(p, m);
    }
    assert FromBits(w, p) == p;
    assert ExtendedToFloat(w, ExtendedFloat(p, 1)) == p;
    assert p / p == 1 && p % p == 0 by {
      DivAddMultiple(1, 0, p);
    }
    assert ExponentField(w, p) == 1 by {
      SmallDiv(1, Pow2(e));
    }
  }

  /**
   * Unpacking then packing restores a non-negative finite pattern: for a
   * normal number the hidden bit is dropped again and the biased exponent is
   * Exponent + EXP_BIAS, for a denormal the exponent field is 0.
   */
  lemma UnpackPack(w: Width, bits: u64)
    requires bits < SignMask(w)
    ensures !IsDenormal(w, bits) ==>
      ExtendedToFloat(w, ExtendedFloat(Mantissa(w, bits) - HiddenBitMask(w), Exponent(w, bits) + ExpBias(w))) == bits
    ensures IsDenormal(w, bits) ==>
      ExtendedToFloat(w, ExtendedFloat(Mantissa(w, bits), 0)) == bits
  {
    var m, e := MantSize(w), ExponentBits(w);
    var p := Pow2(m);
    var f, t := ExponentField(w, bits), FractionField(w, bits);
    assert bits / p < Pow2(e) && HiddenBitMask(w) == p by {
      MaskValues(w);
      DivBelow(bits, p, Pow2(e));
    }
    assert f == bits / p by {
      SmallDiv(bits / p, Pow2(e));
    }
    assert bits == t + f * p;
    DecomposeFields(w, bits);
    if IsDenormal(w, bits) {
      ExtendedToFloatFields(w, ExtendedFloat(t, 0));
    } else {
      ExtendedToFloatFields(w, ExtendedFloat(t, f));
    }
  }

  /** `-f` for a float: flips the sign bit. */
  function Negate(w: Width, bits: u64): (r: u64)
    ensures IsBits(w, bits) ==> IsBits(w, r)
  {
    XorSignBound(w, bits);
    BitXor(bits, SignMask(w))
  }

  lemma XorSignBound(w: Width, bits: u64)
    ensures BitXor(bits, SignMask(w)) < TWO64
    ensures IsBits(w, bits) ==> BitXor(bits, SignMask(w)) < Pow2(TotalBits(w))
  {
    MaskValues(w);
    Pow2Table();
    BitBound(bits, SignMask(w), 64);
    if IsBits(w, bits) {
      BitBound(bits, SignMask(w), TotalBits(w));
    }
  }

  /** Negating a non-negative pattern sets the sign bit and keeps every other bit. */
  lemma NegateSetsSign(w: Width, bits: u64)
    requires bits < SignMask(w)
    ensures Negate(w, bits) == bits + SignMask(w)
  {
    var k := TotalBits(w) - 1;
    var p := Pow2(k);
    MaskValues(w);
    assert SignMask(w) == 0 + 1 * p && bits == bits + 0 * p;
    XorSplit(bits, 0, 0, 1, k);
    BitZero(bits);
    BitZero(1);
    assert BitXor(bits, SignMask(w)) == bits + p;
  }
}
