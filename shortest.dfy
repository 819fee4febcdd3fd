/**
 * The shortest-digits engine of the format side for binary32: `to_decimal`
 * with its two cases `compute_nearest_normal` and `compute_nearest_shorter`
 * (the Dragonbox method), the bit-field helpers they use, `to_chars` and the
 * dispatch of `Buffer::format` on non-finite values.
 *
 * A float with binary exponent e is scaled by the cached power of ten
 * 10^(-minus_k), minus_k = floor(e * log10 2) - KAPPA, and 2^beta; the
 * scaled endpoints of its rounding interval are then compared in integer
 * arithmetic.  The facts proved here are local: every cache index and shift
 * amount is in range for every exponent of the format, no subtraction goes
 * below zero, the multiply-and-shift helpers compute the exact quotients and
 * bit fields they stand for, and the result always fits what `write_f32`
 * accepts.  That the result is the shortest correctly rounded decimal rests
 * on how closely the cache approximates powers of ten, and is not stated.
 */
module Shortest {
  import opened Arith
  import opened DecimalText
  import opened F32
  import opened ToChars
  import Layout

  // ------------------------------------------------------------ logarithms

  /** `floor_log10_pow2(e)` = floor(e * log10 2), as a 20-bit fixed-point product. */
  function FloorLog10Pow2(e: int): (r: int)
    requires -2620 <= e <= 2620
    ensures -0x8000_0000 <= e * 315653 < 0x8000_0000
    ensures -789 <= r <= 788
  {
    e * 315653 / 0x10_0000
  }

  /** `floor_log2_pow10(e)` = floor(e * log2 10), as a 19-bit fixed-point product. */
  function FloorLog2Pow10(e: int): (r: int)
    requires -1233 <= e <= 1233
    ensures -0x8000_0000 <= e * 1741647 < 0x8000_0000
    ensures -4097 <= r <= 4096
  {
    e * 1741647 / 0x8_0000
  }

  /** `floor_log10_pow2_minus_log10_4_over_3(e)` = floor(e * log10 2 - log10(4/3)). */
  function FloorLog10Pow2MinusLog10FourThirds(e: int): (r: int)
    requires -2985 <= e <= 2936
    ensures -0x8000_0000 <= e * 631305 - 261663 < 0x8000_0000
    ensures -900 <= r <= 883
  {
    (e * 631305 - 261663) / 0x20_0000
  }

  /** The binary exponents of finite nonzero binary32 values, in the form `to_decimal` passes them. */
  predicate InRange(e: int)
  {
    MIN_EXPONENT - MANTISSA_BITS as int <= e <= 254 + EXPONENT_BIAS - MANTISSA_BITS as int
  }

  /** minus_k of the normal-interval case. */
  function NormalMinusK(e: int): int
    requires InRange(e)
  {
    FloorLog10Pow2(e) - KAPPA
  }

  /** beta of the normal-interval case. */
  function NormalBeta(e: int): int
    requires InRange(e)
  {
    e + FloorLog2Pow10(1 - FloorLog10Pow2(e))
  }

  /** minus_k of the shorter-interval case. */
  function ShorterMinusK(e: int): int
    requires InRange(e)
  {
    FloorLog10Pow2MinusLog10FourThirds(e)
  }

  /** beta of the shorter-interval case. */
  function ShorterBeta(e: int): int
    requires InRange(e)
  {
    e + FloorLog2Pow10(-FloorLog10Pow2MinusLog10FourThirds(e))
  }

  /**
   * For every binary32 exponent, the normal case reads the cache inside
   * [MIN_K, MAX_K] and shifts by a beta between 3 and 6.
   */
  lemma NormalScale(e: int)
    requires InRange(e)
    ensures MIN_K <= -NormalMinusK(e) <= MAX_K
    ensures -46 <= NormalMinusK(e) <= 30
    ensures 3 <= NormalBeta(e) <= 6
  {
  }

  /**
   * For every binary32 exponent, the shorter case reads the cache inside
   * [MIN_K, MAX_K] and shifts by a beta between 0 and 3.
   */
  lemma ShorterScale(e: int)
    requires InRange(e)
    ensures MIN_K <= -ShorterMinusK(e) <= MAX_K
    ensures -45 <= ShorterMinusK(e) <= 31
    ensures 0 <= ShorterBeta(e) <= 3
  {
  }

  // ------------------------------------------------------------ bit fields

  /** `extract_exponent_bits`: the 8-bit biased exponent field. */
  function ExtractExponentBits(u: u32): (r: u32)
    ensures r == u / Pow2(MANTISSA_BITS) % Pow2(EXPONENT_BITS) && r < 0x100
  {
    BitAndLowMask(u / Pow2(MANTISSA_BITS), EXPONENT_BITS);
    Pow2Table();
    BitAnd(u / Pow2(MANTISSA_BITS), Pow2(EXPONENT_BITS) - 1)
  }

  /** The 32-bit left shift x << n: bits moved past bit 31 are lost. */
  function Shl32(x: nat, n: nat): u32
  {
    x * Pow2(n) % TWO32
  }

  /** `remove_exponent_bits(u, exponent_bits)`: u with exponent_bits, moved to the field, xor-ed out. */
  function RemoveExponentBits(u: u32, exponentBits: u32): u32
  {
    BitXorBounded(u, Shl32(exponentBits, MANTISSA_BITS));
    BitXor(u, Shl32(exponentBits, MANTISSA_BITS))
  }

  /** The xor of two 32-bit values is a 32-bit value. */
  lemma BitXorBounded(a: u32, b: u32)
    ensures BitXor(a, b) < TWO32
  {
    Pow2Table();
    BitBound(a, b, 32);
  }

  /**
   * Removing the field `extract_exponent_bits` read clears exactly the
   * exponent field: the sign bit and the 23 fraction bits stay.
   */
  lemma ExponentFieldRemoved(u: u32)
    ensures RemoveExponentBits(u, ExtractExponentBits(u)) == u / 0x8000_0000 * 0x8000_0000 + u % 0x80_0000
  {
    Pow2Table();
    var lo, c := u % 0x80_0000, u / 0x80_0000;
    var f := ExtractExponentBits(u);
    assert f == c % 0x100;
    assert Shl32(f, MANTISSA_BITS) == f * 0x80_0000;
    assert u == lo + c * 0x80_0000;
    DivDivGeneral(u, 0x80_0000, 0x100);
    XorField(lo, c, f, c / 0x100);
  }

  /** Xor-ing the field value f at bit 23 out of lo + c * 2^23, where c is f plus s * 2^8, leaves lo + s * 2^31. */
  lemma XorField(lo: nat, c: nat, f: nat, s: nat)
    requires lo < 0x80_0000 && f < 0x100 && c == f + s * 0x100
    ensures BitXor(lo + c * 0x80_0000, f * 0x80_0000) == lo + s * 0x8000_0000
  {
    var p := Pow2(23);
    assert p == 0x80_0000 by { Pow2Table(); }
    assert BitXor(lo + c * p, 0 + f * p) == BitXor(lo, 0) + BitXor(c, f) * p by {
      XorSplit(lo, c, 0, f, 23);
    }
    XorHigh(c, f, s);
    BitZero(lo);
  }

  /** Xor-ing f out of f + s * 2^8 leaves s * 2^8. */
  lemma XorHigh(c: nat, f: nat, s: nat)
    requires f < 0x100 && c == f + s * 0x100
    ensures BitXor(c, f) == s * 0x100
  {
    var p := Pow2(8);
    assert p == 0x100 by { Pow2Table(); }
    var x := BitXor(f + s * p, f + 0 * p);
    assert x == BitXor(f, f) + BitXor(s, 0) * p by {
      XorSplit(f, s, f, 0, 8);
    }
    assert BitXor(f, f) == 0 by { BitXorSelf(f); }
    assert BitXor(s, 0) == s by { BitZero(s); }
    assert f + s * p == c && f + 0 * p == f;
  }

  /** `remove_sign_bit_and_shift`: u << 1, which drops the sign bit. */
  function RemoveSignBitAndShift(u: u32): (r: u32)
    ensures r == 2 * (u % Pow2(31))
  {
    Pow2Table();
    Shl32(u, 1)
  }

  /** `is_nonzero`: some bit other than the sign bit is set. */
  predicate IsNonzero(u: u32)
  {
    Shl32(u, 1) != 0
  }

  /** `is_negative`: the sign bit is set. */
  predicate IsNegative(u: u32)
  {
    !(u < Pow2(MANTISSA_BITS + EXPONENT_BITS))
  }

  /** `has_even_mantissa_bits`. */
  predicate HasEvenMantissaBits(u: u32)
  {
    u % 2 == 0
  }

  /** The three sign and magnitude tests say what their names say. */
  lemma SignTests(u: u32)
    ensures IsNonzero(u) <==> u % 0x8000_0000 != 0
    ensures IsNegative(u) <==> u >= 0x8000_0000
    ensures RemoveSignBitAndShift(u) == 2 * (u % 0x8000_0000)
  {
    Pow2Table();
  }

  // ------------------------------------------------------------ products

  /**
   * `upper_bits(x, y)`: x * y without its low 32 bits, assembled from the
   * products of x with the two halves of y; the result is exact.
   */
  function UpperBits(x: u32, y: u64): (r: u64)
    ensures r == x * y / TWO32
  {
    UpperBitsExact(x, y);
    x * (y / TWO32) + x * (y % TWO32) / TWO32
  }

  lemma UpperBitsExact(x: u32, y: u64)
    ensures x * (y / TWO32) + x * (y % TWO32) / TWO32 == x * y / TWO32 < TWO64
  {
    var hi, lo := y / TWO32, y % TWO32;
    assert x * y == (x * hi) * TWO32 + x * lo by {
      assert y == hi * TWO32 + lo;
      MulDistrib(hi * TWO32, lo, x);
      MulAssoc(x, hi, TWO32);
    }
    MulNonneg(x, hi);
    MulNonneg(x, lo);
    DivAddMultiple(x * hi, x * lo, TWO32);
    assert x * y < TWO32 * TWO64 by {
      if x > 0 {
        MulStrict(y, TWO64, x);
        MulStrict(x, TWO32, TWO64);
      }
    }
    DivBelow(x * y, TWO32, TWO64);
  }

  /** `lower_bits(x, y)`: the wrapping 64-bit product. */
  function LowerBits(x: u32, y: u64): u64
  {
    x * y % TWO64
  }

  /**
   * `compute_mul(u, cache)`: the integer part of u * cache / 2^64, and
   * whether the 32 bits below the point that upper_bits keeps are all zero.
   */
  function ComputeMul(u: u32, cache: u64): (r: (u32, bool))
    ensures r.0 == u * cache / TWO64
    ensures r.1 <==> u * cache / TWO32 % TWO32 == 0
  {
    var p := UpperBits(u, cache);
    assert p / TWO32 == u * cache / TWO64 by {
      MulNonneg(u, cache);
      DivDiv(u * cache, 32, 32);
      Pow2Table();
    }
    DivBelow(p, TWO32, TWO32);
    (p / TWO32, p % TWO32 == 0)
  }

  /** `compute_delta(cache, beta)`: the top beta + 1 bits of the cache entry. */
  function ComputeDelta(cache: u64, beta: int): (r: u32)
    requires 0 <= beta <= 31
    ensures r == cache / Pow2(63 - beta) < Pow2(beta + 1)
  {
    DeltaBits(cache, beta);
    cache / TWO32 / Pow2(31 - beta)
  }

  lemma DeltaBits(cache: u64, beta: nat)
    requires beta <= 31
    ensures cache / TWO32 / Pow2(31 - beta) == cache / Pow2(63 - beta) < Pow2(beta + 1) <= TWO32
  {
    Pow2Table();
    DivDiv(cache, 32, 31 - beta);
    PowAdd(2, beta + 1, 63 - beta);
    DivBelow(cache, Pow2(63 - beta), Pow2(beta + 1));
    PowMonotone(2, beta + 1, 32);
  }

  /**
   * `compute_mul_parity(u, cache, beta)` reads the wrapping product
   * u * cache scaled by 2^(beta - 64): its first component is the parity of
   * the integer part, bit 64 - beta of the product; its second says that the
   * 32 bits right below the point, bits 32 - beta to 63 - beta, are zero.
   */
  function ComputeMulParity(u: u32, cache: u64, beta: int): (r: (bool, bool))
    requires 1 <= beta <= 31
    ensures r.0 <==> LowerBits(u, cache) / Pow2(64 - beta) % 2 == 1
    ensures r.1 <==> LowerBits(u, cache) % Pow2(64 - beta) < Pow2(32 - beta)
  {
    var p := LowerBits(u, cache);
    var hi, lo := p / TWO32, p % TWO32;
    ParityBit(p, beta);
    IntegerBits(p, beta);
    (BitAnd(Shr(hi, 32 - beta), 1) != 0, BitOr(Shl32(hi, beta), Shr(lo, 32 - beta)) == 0)
  }

  lemma ParityBit(p: u64, beta: nat)
    requires 1 <= beta <= 31
    ensures BitAnd(Shr(p / TWO32, 32 - beta), 1) != 0 <==> p / Pow2(64 - beta) % 2 == 1
  {
    Pow2Table();
    DivDiv(p, 32, 32 - beta);
    var q: nat := Shr(p, 64 - beta);
    BitAndLowMask(q, 1);
  }

  lemma IntegerBits(p: u64, beta: nat)
    requires 1 <= beta <= 31
    ensures Pow2(32 - beta) > 0 && Pow2(64 - beta) > 0
    ensures BitOr(Shl32(p / TWO32, beta), Shr(p % TWO32, 32 - beta)) == 0
            <==> p % Pow2(64 - beta) < Pow2(32 - beta)
  {
    Pow2Table();
    PowPositive(2, 64 - beta);
    var hi: nat, lo: nat := p / TWO32, p % TWO32;
    var d := Pow2(32 - beta);
    var low: nat := Shr(lo, 32 - beta);
    var top: nat := hi % d;
    assert Shl32(hi, beta) == top * Pow2(beta) by {
      PowAdd(2, beta, 32 - beta);
      MulModScaled(hi, Pow2(beta), d);
    }
    assert p % Pow2(64 - beta) == top * TWO32 + lo by {
      PowAdd(2, 32, 32 - beta);
      ModSplit(p, TWO32, d);
    }
    BitOrZero(Shl32(hi, beta), low);
    PowMonotone(2, 32 - beta, 32);
    IntegerBitsCases(top, lo, low, Pow2(beta), d);
  }

  lemma IntegerBitsCases(top: nat, lo: nat, low: nat, b: nat, d: nat)
    requires b > 0 && 0 < d <= TWO32 && lo < TWO32 && low == lo / d
    ensures (top * b == 0 && low == 0) <==> top * TWO32 + lo < d
  {
    if top > 0 {
      MulAtLeast(top, TWO32);
      MulAtLeast(top, b);
    }
    if lo >= d {
      DivBounds(lo, d);
      MulAtLeast(1, d);
    } else {
      SmallDiv(lo, d);
    }
  }

  /** (x * a) % (d * a) == (x % d) * a. */
  lemma MulModScaled(x: nat, a: nat, d: nat)
    requires a > 0 && d > 0
    ensures x * a % (a * d) == x % d * a
  {
    assert x * a == (x / d) * (a * d) + x % d * a by {
      assert x == (x / d) * d + x % d;
      MulDistrib((x / d) * d, x % d, a);
      MulAssoc(x / d, d, a);
    }
    MulStrict(x % d, d, a);
    DivUnique(x * a, a * d, x / d, x % d * a);
  }

  /** An or is zero exactly when both operands are. */
  lemma {:induction false} BitOrZero(a: nat, b: nat)
    ensures BitOr(a, b) == 0 <==> a == 0 && b == 0
    decreases a + b
  {
    if a != 0 || b != 0 {
      Unfold(a, b);
      BitOrZero(a / 2, b / 2);
    }
  }

  /**
   * `check_divisibility_and_divide_by_pow10(n)`: multiply by MAGIC_NUMBER;
   * the bits above SHIFT_AMOUNT are n / 10, and the bits below it are under
   * MAGIC_NUMBER exactly when 10 divides n, for every n up to 1000.
   */
  function CheckDivisibility(n: u32): (r: (u32, bool))
    requires n * MAGIC_NUMBER < TWO32
    ensures n <= 1000 ==> r.0 == n / 10 && (r.1 <==> n % 10 == 0)
  {
    var m := n * MAGIC_NUMBER;
    Pow2Table();
    BitAndLowMask(m, SHIFT_AMOUNT);
    MagicTen(n);
    (m / Pow2(SHIFT_AMOUNT), BitAnd(m, Pow2(SHIFT_AMOUNT) - 1) < MAGIC_NUMBER)
  }

  lemma MagicTen(n: nat)
    ensures n <= 1000 ==> n * 6554 / 0x1_0000 == n / 10
    ensures n <= 1000 ==> (n * 6554 % 0x1_0000 < 6554 <==> n % 10 == 0)
  {
    if n <= 1000 {
      var q, d := n / 10, n % 10;
      assert n * 6554 == q * 0x1_0000 + (4 * q + 6554 * d);
      DivUnique(n * 6554, 0x1_0000, q, 4 * q + 6554 * d);
    }
  }

  // ------------------------------------------------------------ normal interval

  /**
   * The arguments `to_decimal` passes to `compute_nearest_normal`: two_fc is
   * twice the significand, with the hidden bit for a normal value, so it is
   * even, nonzero and below 2^25; e is a binary32 exponent.
   */
  predicate NormalInput(twoFc: int, e: int)
  {
    2 <= twoFc < 0x200_0000 && twoFc % 2 == 0 && InRange(e)
  }

  /** The cache entry of the normal case: 10^(-minus_k), scaled into [2^63, 2^64). */
  function NormalCache(e: int): u64
    requires InRange(e)
  {
    NormalScale(e);
    Get(-NormalMinusK(e))
  }

  /** deltai: the width of the rounding interval at the scale of zi. */
  function NormalDelta(e: int): int
    requires InRange(e)
  {
    NormalScale(e);
    NormalCache(e) / Pow2(63 - NormalBeta(e))
  }

  /** The right endpoint 2 * fc + 1, scaled: its integer part zi is this over 2^64. */
  function NormalZ(twoFc: int, e: int): int
    requires NormalInput(twoFc, e)
  {
    NormalScale(e);
    (twoFc + 1) * Pow2(NormalBeta(e)) * NormalCache(e)
  }

  /** The parity of the integer part of the scaled 2 * fc + d, from the wrapping product. */
  predicate EndpointParity(twoFc: int, d: int, e: int)
    requires NormalInput(twoFc, e) && -1 <= d <= 0
  {
    NormalScale(e);
    LowerBits(twoFc + d, NormalCache(e)) / Pow2(64 - NormalBeta(e)) % 2 == 1
  }

  /** Whether the scaled 2 * fc + d has its 32 bits below the point equal to zero. */
  predicate EndpointInteger(twoFc: int, d: int, e: int)
    requires NormalInput(twoFc, e) && -1 <= d <= 0
  {
    NormalScale(e);
    LowerBits(twoFc + d, NormalCache(e)) % Pow2(64 - NormalBeta(e)) < Pow2(32 - NormalBeta(e))
  }

  /** zi: the integer part of the scaled right endpoint. */
  function NormalZi(twoFc: int, e: int): int
    requires NormalInput(twoFc, e)
  {
    NormalZ(twoFc, e) / TWO64
  }

  /** Whether the 32 bits of the scaled right endpoint right below the point are zero. */
  predicate ZInteger(twoFc: int, e: int)
    requires NormalInput(twoFc, e)
  {
    NormalZ(twoFc, e) / TWO32 % TWO32 == 0
  }

  /**
   * The big-divisor case: the scaled interval [zi - deltai, zi] holds the
   * multiple of 100 zi - zi mod 100; its right end counts only when it is
   * included (an even significand) and its left end only when the parity of
   * the scaled left endpoint 2 * fc - 1, or its integrality with the
   * endpoint included, lets it in.
   */
  predicate BigDivisorTakes(zi: int, zInteger: bool, delta: int, xParity: bool, xInteger: bool, even: bool)
  {
    var r := zi % 100;
    (r < delta && !(r == 0 && zInteger && !even))
    || (r == delta && (xParity || (xInteger && even)))
  }

  /**
   * The tenth of c rounded as the small-divisor case rounds it: c / 10 when
   * c is no multiple of 10; at a multiple of 10, one less when the parity of
   * the true value disagrees with the parity of c, or when c / 10 is odd and
   * the true value an integer (ties to even).
   */
  function RoundedTenth(c: int, parity: bool, integer: bool): (r: int)
    ensures c - 10 <= 10 * r <= c
    ensures c % 10 == 0 && parity == (c % 2 == 0) && integer ==> r % 2 == 0
  {
    var y := c / 10;
    TenthParity(c);
    if c % 10 != 0 then y
    else if parity != (c % 2 == 0) || (y % 2 != 0 && integer) then y - 1
    else y
  }

  lemma TenthParity(c: int)
    ensures c - 10 < 10 * (c / 10) <= c
    ensures c % 10 == 0 ==> c % 2 == 0
  {
    if c % 10 == 0 {
      assert c == 2 * (5 * (c / 10));
    }
  }

  /**
   * The result of the normal case from the quantities its front computes:
   * zi / 100 with exponent minus_k + 2 in the big-divisor case, otherwise
   * the rounded tenth of zi - deltai / 2 + 5 with exponent minus_k + 1.
   */
  function NearestFrom(zi: int, zInteger: bool, delta: int, xParity: bool, xInteger: bool,
                       yParity: bool, yInteger: bool, even: bool, minusK: int): (r: (int, int))
    requires 0 < delta < zi && zi - delta / 2 >= 8
    ensures r.1 == minusK + KAPPA + 1 || r.1 == minusK + KAPPA
    ensures r.1 == minusK + KAPPA + 1 ==> zi - delta <= 100 * r.0 <= zi
    ensures r.1 == minusK + KAPPA ==> zi - delta / 2 - 5 <= 10 * r.0 <= zi - delta / 2 + 5
    ensures 0 < zi % 100 < delta ==> r.1 == minusK + KAPPA + 1
    ensures zi % 100 == 0 && zInteger && !even ==> r.1 == minusK + KAPPA
    ensures r.0 >= 1
  {
    if BigDivisorTakes(zi, zInteger, delta, xParity, xInteger, even) then (zi / 100, minusK + KAPPA + 1)
    else (RoundedTenth(zi - delta / 2 + 5, yParity, yInteger), minusK + KAPPA)
  }

  /** What `compute_nearest_normal` returns for 2 * fc and the binary exponent e. */
  function NearestNormal(twoFc: int, e: int, even: bool): (int, int)
    requires NormalInput(twoFc, e)
  {
    NormalMagnitudes(twoFc, e);
    NearestFrom(NormalZi(twoFc, e), ZInteger(twoFc, e), NormalDelta(e),
                EndpointParity(twoFc, -1, e), EndpointInteger(twoFc, -1, e),
                EndpointParity(twoFc, 0, e), EndpointInteger(twoFc, 0, e), even, NormalMinusK(e))
  }

  /** The magnitudes of the normal case: zi fits in 31 bits, deltai in 7, and the centre is at least 8. */
  lemma NormalMagnitudes(twoFc: int, e: int)
    requires NormalInput(twoFc, e)
    ensures 8 <= NormalDelta(e) < 128
    ensures 12 <= NormalZi(twoFc, e) < 0x8000_0000
    ensures NormalZi(twoFc, e) - NormalDelta(e) / 2 >= 8 && NormalZi(twoFc, e) > NormalDelta(e)
  {
    NormalScale(e);
    var beta := NormalBeta(e);
    BetaPowers(beta);
    MagnitudeArith(twoFc + 1, NormalCache(e), Pow2(beta), Pow2(64 - beta), Pow2(63 - beta),
                   NormalZ(twoFc, e), NormalDelta(e));
  }

  /** The powers of two a shift by beta in [3, 6] involves. */
  lemma BetaPowers(beta: int)
    requires 3 <= beta <= 6
    ensures 8 <= Pow2(beta) <= 64 && Pow2(beta) * Pow2(64 - beta) == TWO64
    ensures Pow2(63 - beta) * 2 == Pow2(64 - beta)
  {
    PowMonotone(2, 3, beta);
    PowMonotone(2, beta, 6);
    PowAdd(2, beta, 64 - beta);
    PowAdd(2, 63 - beta, 1);
    Pow2Of64();
  }

  /** The arithmetic of NormalMagnitudes, with b = 2^beta, D = 2^(64 - beta) and h = D / 2. */
  lemma MagnitudeArith(a: nat, c: nat, b: nat, D: nat, h: nat, z: int, delta: int)
    requires 3 <= a < 0x200_0000 && 8 <= b <= 64 && b * D == TWO64 && h * 2 == D
    requires 0x8000_0000_0000_0000 <= c < TWO64
    requires z == a * b * c && delta == c / h
    ensures 8 <= delta < 128
    ensures 12 <= z / TWO64 < 0x8000_0000
    ensures z / TWO64 - delta / 2 >= 8 && z / TWO64 > delta
  {
    assert delta / 2 == c / D by {
      DivDivGeneral(c, h, 2);
    }
    assert delta < 128 by {
      assert c < 128 * h by {
        MulMonotone(b, D, 64, D);
      }
      DivBelow(c, h, 128);
    }
    assert z / TWO64 == a * c / D by {
      assert z == b * (a * c) by {
        MulAssoc(a, b, c);
        MulSwap(a, b, c);
      }
      MulNonneg(a, c);
      CancelScale(a * c, b, D);
    }
    ScaledEndpointBounds(a, c, D, b);
  }

  /** (x * b) / (b * D) == x / D. */
  lemma CancelScale(x: nat, b: nat, D: nat)
    requires b > 0 && D > 0
    ensures b * x / (b * D) == x / D
  {
    DivDivGeneral(b * x, b, D);
    assert b * x / b == x by { DivUnique(b * x, b, x, 0); }
  }

  /** The bounds of zi = a * c / D behind NormalMagnitudes. */
  lemma ScaledEndpointBounds(a: nat, c: nat, D: nat, b: nat)
    requires 3 <= a < 0x200_0000 && 8 <= b <= 64 && b * D == TWO64
    requires 0x8000_0000_0000_0000 <= c < TWO64
    ensures 12 <= a * c / D < 0x8000_0000
    ensures a * c / D - c / D >= 8
    ensures c / D >= 4 && a * c / D >= 3 * (c / D)
  {
    assert D > 0;
    var q := c / D;
    assert q >= 4 by {
      MulMonotone(8, D, b, D);
      DivAtLeast(c, D, 4);
    }
    assert a * c >= (3 * q) * D by {
      assert c == q * D + c % D;
      MulMonotone(3, c, a, c);
      MulAssoc(3, q, D);
    }
    DivAtLeast(a * c, D, 3 * q);
    assert a * c < 0x8000_0000 * D by {
      MulStrict(a, 0x200_0000, c);
      MulStrict(c, TWO64, 0x200_0000);
      MulMonotone(b, D, 64, D);
      MulMonotone(0x200_0000, TWO64, 0x200_0000, 64 * D);
      MulAssoc(0x200_0000, 64, D);
    }
    DivBelow(a * c, D, 0x8000_0000);
  }

  /** A quotient at least n: x >= n * d gives x / d >= n. */
  lemma DivAtLeast(x: nat, d: nat, n: nat)
    requires d > 0 && x >= n * d
    ensures x / d >= n
  {
    if x / d < n {
      assert x == (x / d) * d + x % d;
      MulMonotone(x / d + 1, d, n, d);
    }
  }

  /** `prefer_round_down`: an odd significand. */
  predicate PreferRoundDown(mantissa: int)
  {
    mantissa % 2 != 0
  }

  /**
   * `compute_nearest_normal`: the front computes minus_k, the cache entry,
   * beta, deltai and the scaled right endpoint; NormalRound does the rest.
   */
  method ComputeNearestNormal(twoFc: u32, exponent: int, hasEvenMantissaBits: bool)
    returns (mantissa: u32, exp: int)
    requires NormalInput(twoFc, exponent)
    ensures (mantissa, exp) == NearestNormal(twoFc, exponent, hasEvenMantissaBits)
  {
    NormalScale(exponent);
    var minusK := FloorLog10Pow2(exponent) - KAPPA;
    var cache := Get(-minusK);
    var beta := exponent + FloorLog2Pow10(-minusK);
    assert minusK == NormalMinusK(exponent);
    assert beta == NormalBeta(exponent);
    NormalCacheAt(exponent, minusK);
    var deltai := ComputeDelta(cache, beta);
    NormalShift(twoFc, beta);
    var (zi, isZInteger) := ComputeMul(Shl32(BitOr(twoFc, 1), beta), cache);
    NormalFront(twoFc, exponent);
    mantissa, exp := NormalRound(twoFc, minusK, cache, beta, deltai, zi, isZInteger, hasEvenMantissaBits,
                                 EndpointParity(twoFc, -1, exponent), EndpointInteger(twoFc, -1, exponent),
                                 EndpointParity(twoFc, 0, exponent), EndpointInteger(twoFc, 0, exponent));
  }

  /**
   * The rest of `compute_nearest_normal`: the labelled loop runs once and is
   * a labelled block here; leaving it by `break` falls through to the
   * small-divisor case.  The parities of the scaled endpoints are those
   * compute_mul_parity reports.
   */
  method NormalRound(twoFc: u32, minusK: int, cache: u64, beta: int, deltai: u32, zi: u32, isZInteger: bool,
                     hasEvenMantissaBits: bool, ghost xParity: bool, ghost xInteger: bool,
                     ghost yParity: bool, ghost yInteger: bool)
    returns (mantissa: u32, exp: int)
    requires 2 <= twoFc && 1 <= beta <= 31 && 8 <= deltai < 128 && deltai < zi && zi - deltai / 2 >= 8
    requires ComputeMulParity(twoFc - 1, cache, beta) == (xParity, xInteger)
    requires ComputeMulParity(twoFc, cache, beta) == (yParity, yInteger)
    ensures (mantissa, exp) == NearestFrom(zi, isZInteger, deltai, xParity, xInteger, yParity, yInteger,
                                           hasEvenMantissaBits, minusK)
  {
    var includeLeftEndpoint := hasEvenMantissaBits;
    var includeRightEndpoint := hasEvenMantissaBits;
    mantissa := zi / BIG_DIVISOR;
    var r: u32 := zi - BIG_DIVISOR * mantissa;
    QuotientBy100(zi, mantissa, r);
    label smallDivisorCase: {
      if r < deltai {
        if r == 0 && (isZInteger && !includeRightEndpoint) {
          mantissa := mantissa - 1;
          r := BIG_DIVISOR;
          break smallDivisorCase;
        }
      } else if r > deltai {
        break smallDivisorCase;
      } else {
        var (xiParity, isXInteger) := ComputeMulParity(twoFc - 1, cache, beta);
        if !(xiParity || (isXInteger && includeLeftEndpoint)) {
          break smallDivisorCase;
        }
      }
      assert BigDivisorTakes(zi, isZInteger, deltai, xParity, xInteger, hasEvenMantissaBits);
      return mantissa, minusK + KAPPA + 1;
    }
    assert !BigDivisorTakes(zi, isZInteger, deltai, xParity, xInteger, hasEvenMantissaBits);
    mantissa := SmallDivisorCase(twoFc, mantissa, r, cache, beta, deltai, zi, yParity, yInteger);
    exp := minusK + KAPPA;
  }

  lemma NormalCacheAt(e: int, minusK: int)
    requires InRange(e) && minusK == NormalMinusK(e)
    ensures MIN_K <= -minusK <= MAX_K && Get(-minusK) == NormalCache(e)
  {
    NormalScale(e);
  }

  /** The quotient and remainder by 100 as `compute_nearest_normal` computes them. */
  lemma QuotientBy100(zi: int, q: int, r: int)
    requires zi >= 12 && q == zi / 100 && r == zi - 100 * q
    ensures r == zi % 100 && 0 <= r < 100
    ensures r == 0 ==> q >= 1
  {
  }

  /** The quantities the front of `compute_nearest_normal` computes are those of the specification. */
  lemma NormalFront(twoFc: int, e: int)
    requires NormalInput(twoFc, e)
    ensures 3 <= NormalBeta(e) <= 6
    ensures 12 <= NormalZi(twoFc, e) < 0x8000_0000 && NormalZi(twoFc, e) - NormalDelta(e) / 2 >= 8
    ensures 8 <= NormalDelta(e) < NormalZi(twoFc, e)
    ensures ComputeMul(Shl32(BitOr(twoFc, 1), NormalBeta(e)), NormalCache(e)) == (NormalZi(twoFc, e), ZInteger(twoFc, e))
    ensures ComputeDelta(NormalCache(e), NormalBeta(e)) == NormalDelta(e) < 128
    ensures ComputeMulParity(twoFc - 1, NormalCache(e), NormalBeta(e)) == (EndpointParity(twoFc, -1, e), EndpointInteger(twoFc, -1, e))
    ensures ComputeMulParity(twoFc, NormalCache(e), NormalBeta(e)) == (EndpointParity(twoFc, 0, e), EndpointInteger(twoFc, 0, e))
  {
    NormalScale(e);
    NormalMagnitudes(twoFc, e);
    NormalShift(twoFc, NormalBeta(e));
  }

  /**
   * The tail of `compute_nearest_normal` after the labelled loop: big is the
   * quotient by 100 and r the remainder (100 when the quotient of a
   * multiple of 100 was lowered); the digit is approximated from r and
   * corrected by the parity of the scaled 2 * fc.
   */
  method SmallDivisorCase(twoFc: u32, big: u32, r: u32, cache: u64, beta: int, deltai: u32,
                          ghost zi: int, ghost parity: bool, ghost integer: bool)
    returns (mantissa: u32)
    requires 1 <= beta <= 31 && 12 <= zi < TWO32 && deltai < 128 && zi - deltai / 2 >= 8
    requires (r == zi % 100 && big == zi / 100 && r >= deltai)
             || (zi % 100 == 0 && r == 100 && big == zi / 100 - 1)
    requires ComputeMulParity(twoFc, cache, beta) == (parity, integer)
    ensures mantissa == RoundedTenth(zi - deltai / 2 + 5, parity, integer)
  {
    ghost var c := zi - deltai / 2 + 5;
    ghost var y := c / 10;
    SmallDivisorArith(zi, deltai, r, big);
    mantissa := big * 10;
    var dist: u32 := r - deltai / 2 + SMALL_DIVISOR / 2;
    ApproxParity(dist);
    var approxYParity := BitAnd(BitXor(dist, SMALL_DIVISOR / 2), 1) != 0;
    var (q, divisible) := CheckDivisibility(dist);
    mantissa := mantissa + q;
    assert mantissa == y >= 1;
    if divisible {
      var (yiParity, isYInteger) := ComputeMulParity(twoFc, cache, beta);
      if yiParity != approxYParity {
        mantissa := mantissa - 1;
      } else if PreferRoundDown(mantissa) && isYInteger {
        mantissa := mantissa - 1;
      }
    }
  }

  /** two_fc | 1 is two_fc + 1 for an even two_fc. */
  lemma OrOne(twoFc: nat)
    requires twoFc % 2 == 0
    ensures BitOr(twoFc, 1) == twoFc + 1
  {
    Pow2Table();
    BitOrDisjoint(1, twoFc / 2, 1);
    OrCommutes(1, twoFc);
  }

  /** two_fc | 1, shifted by beta, is 2 * fc + 1 scaled by 2^beta, with no bit lost. */
  lemma NormalShift(twoFc: int, beta: int)
    requires 2 <= twoFc < 0x200_0000 && twoFc % 2 == 0 && 3 <= beta <= 6
    ensures Shl32(BitOr(twoFc, 1), beta) == (twoFc + 1) * Pow2(beta) < 0x8000_0000
  {
    OrOne(twoFc);
    BetaPowers(beta);
    ShiftFits(twoFc + 1, Pow2(beta));
  }

  lemma ShiftFits(a: nat, b: nat)
    requires a < 0x200_0000 && 0 < b <= 64
    ensures a * b < 0x8000_0000 && (a * b) % TWO32 == a * b
  {
    MulStrict(a, 0x200_0000, b);
    MulMonotone(0x200_0000, b, 0x200_0000, 64);
  }

  /**
   * The small-divisor digit: r is zi mod 100 (or 100 after lowering the
   * quotient of a multiple of 100), so dist = r - deltai / 2 + 5 is the
   * scaled centre plus 5 taken modulo 100, and 10 * big + dist / 10 its
   * tenth.
   */
  lemma SmallDivisorArith(zi: int, delta: int, r: int, big: int)
    requires 12 <= zi && 0 <= delta < 128 && zi - delta / 2 >= 8
    requires (r == zi % 100 && big == zi / 100 && r >= delta)
             || (zi % 100 == 0 && r == 100 && big == zi / 100 - 1)
    ensures 5 <= r - delta / 2 + 5 <= 105
    ensures 10 * big + (r - delta / 2 + 5) / 10 == (zi - delta / 2 + 5) / 10
    ensures (r - delta / 2 + 5) % 10 == (zi - delta / 2 + 5) % 10
    ensures (r - delta / 2 + 5) % 2 == (zi - delta / 2 + 5) % 2
    ensures 0 <= 10 * big && 10 * big + (r - delta / 2 + 5) / 10 <= zi
  {
    var dist := r - delta / 2 + 5;
    assert zi - delta / 2 + 5 == 100 * big + dist;
    DivAddMultiple(10 * big, dist, 10);
    DivAddMultiple(50 * big, dist, 2);
  }

  /** ((dist ^ 5) & 1) != 0 exactly for an even dist. */
  lemma ApproxParity(dist: nat)
    ensures BitAnd(BitXor(dist, 5), 1) != 0 <==> dist % 2 == 0
  {
    Pow2Table();
    var x := BitXor(dist, 5);
    assert x == BitXor(dist % 2, 1) + BitXor(dist / 2, 2) * 2 by {
      assert dist == dist % 2 + (dist / 2) * Pow2(1);
      assert 5 == 1 + 2 * Pow2(1);
      XorSplit(dist % 2, dist / 2, 1, 2, 1);
    }
    assert BitXor(dist % 2, 1) == 1 - dist % 2 by {
      Unfold(dist % 2, 1);
      Unfold(0, 0);
    }
    BitAndLowMask(x, 1);
  }

  // ------------------------------------------------------------ shorter interval

  const CASE_SHORTER_INTERVAL_LEFT_ENDPOINT_LOWER_THRESHOLD: int := 2
  const CASE_SHORTER_INTERVAL_LEFT_ENDPOINT_UPPER_THRESHOLD: int := 3

  /** `high()` of a 64-bit cache entry: its upper 32 bits. */
  function High(w: u64): (r: u32)
    ensures r * TWO32 <= w < (r + 1) * TWO32
  {
    w / TWO32
  }

  /** The shift amounts of the shorter case, 8 - beta and 7 - beta, for beta in [0, 3]. */
  lemma ShorterPowers(beta: int)
    requires 0 <= beta <= 3
    ensures Pow2(8 - beta) == 2 * Pow2(7 - beta) && 16 <= Pow2(7 - beta) <= 128
  {
    PowAdd(2, 7 - beta, 1);
    PowMonotone(2, 4, 7 - beta);
    PowMonotone(2, 7 - beta, 7);
    Pow2Table();
  }

  /**
   * `compute_left_endpoint_for_shorter_interval_case`: h - h / 2^25 at the
   * scale of zi, rounded down, where h is the high word of the cache entry.
   */
  function LeftEndpoint(cache: u64, beta: int): (r: u32)
    requires 0 <= beta <= 3
    ensures var h := High(cache);
            r * Pow2(8 - beta) <= h - h / 0x200_0000 < (r + 1) * Pow2(8 - beta)
  {
    var h := High(cache);
    Pow2Table();
    ShorterPowers(beta);
    FloorBounds(h - h / 0x200_0000, Pow2(8 - beta));
    Shr(h - Shr(h, MANTISSA_BITS + 2), 8 - beta)
  }

  /**
   * `compute_right_endpoint_for_shorter_interval_case`: h + h / 2^24 at the
   * scale of zi, rounded down; the 32-bit sum does not wrap because every
   * cache entry is below 0xff00_0000_0000_0000.
   */
  function RightEndpoint(cache: u64, beta: int): (r: u32)
    requires 0 <= beta <= 3 && cache < 0xff00_0000_0000_0000
    ensures var h := High(cache);
            && h + h / 0x100_0000 < TWO32
            && r * Pow2(8 - beta) <= h + h / 0x100_0000 < (r + 1) * Pow2(8 - beta)
  {
    var h := High(cache);
    RightSum(h, cache, beta);
    Shr(h + Shr(h, MANTISSA_BITS + 1), 8 - beta)
  }

  /** The right endpoint's sum stays below 2^32 and its quotient by 2^(8 - beta) brackets it. */
  lemma RightSum(h: nat, w: nat, beta: int)
    requires 0 <= beta <= 3 && h * TWO32 <= w < 0xff00_0000_0000_0000
    ensures Shr(h, MANTISSA_BITS + 1) == h / 0x100_0000
    ensures h + h / 0x100_0000 < TWO32
    ensures var s, d := h + h / 0x100_0000, Pow2(8 - beta);
            d >= 32 && s / d * d <= s < (s / d + 1) * d && s / d < TWO32
  {
    assert Pow2(24) == 0x100_0000 by {
      Pow2Table();
    }
    assert h < 0xff00_0000 by {
      DivBelow(h * TWO32, TWO32, 0xff00_0000);
    }
    var s, d := h + h / 0x100_0000, Pow2(8 - beta);
    assert d >= 32 by {
      ShorterPowers(beta);
    }
    FloorBounds(s, d);
    DivBelow(s, d, TWO32);
  }

  /**
   * `compute_round_up_for_shorter_interval_case`: h at the scale of zi,
   * rounded to the nearest integer with halves rounded up; at least 2^23
   * because the top bit of h is set.
   */
  function RoundUp(cache: u64, beta: int): (r: u32)
    requires 0 <= beta <= 3 && 0x8000_0000_0000_0000 <= cache
    ensures var h := High(cache);
            (2 * r - 1) * Pow2(7 - beta) <= h < (2 * r + 1) * Pow2(7 - beta)
    ensures 0x80_0000 <= r <= 0x800_0000
  {
    var h := High(cache);
    ShorterPowers(beta);
    FloorBounds(h, Pow2(7 - beta));
    RoundUpArith(h, Pow2(7 - beta), Shr(h, 7 - beta));
    (Shr(h, 7 - beta) + 1) / 2
  }

  lemma FloorBounds(x: nat, d: nat)
    requires d > 0
    ensures x / d * d <= x < (x / d + 1) * d
  {
  }

  lemma RoundUpArith(h: nat, d: nat, q: nat)
    requires 16 <= d <= 128 && q == h / d && 0x8000_0000 <= h < TWO32
    ensures (2 * ((q + 1) / 2) - 1) * d <= h < (2 * ((q + 1) / 2) + 1) * d
    ensures 0x80_0000 <= (q + 1) / 2 <= 0x800_0000
  {
    RoundUpBracket(h, d, q);
    assert 0x100_0000 <= q < 0x1000_0000 by {
      DivAtLeast(h, d, 0x100_0000);
      assert h < 0x1000_0000 * d by {
        MulMonotone(0x1000_0000, 16, 0x1000_0000, d);
      }
      DivBelow(h, d, 0x1000_0000);
    }
  }

  /** q = h / d rounded half up to an even multiple: h lies within d of 2 * ((q + 1) / 2) * d. */
  lemma RoundUpBracket(h: nat, d: nat, q: nat)
    requires d > 0 && q == h / d
    ensures (2 * ((q + 1) / 2) - 1) * d <= h < (2 * ((q + 1) / 2) + 1) * d
  {
    var r := (q + 1) / 2;
    assert q * d <= h < q * d + d;
    if q % 2 == 1 {
      assert 2 * r - 1 == q;
      MulDistrib(q, 2, d);
      MulDistrib(q, 1, d);
    } else {
      assert 2 * r == q;
      MulDistrib(q, -1, d);
      MulDistrib(q, 1, d);
    }
  }

  /** `is_left_endpoint_integer_shorter_interval`: the left endpoint is an integer for e in [2, 3]. */
  predicate IsLeftEndpointInteger(e: int)
  {
    CASE_SHORTER_INTERVAL_LEFT_ENDPOINT_LOWER_THRESHOLD <= e <= CASE_SHORTER_INTERVAL_LEFT_ENDPOINT_UPPER_THRESHOLD
  }

  /** The cache entry of the shorter case. */
  function ShorterCache(e: int): u64
    requires InRange(e)
  {
    ShorterScale(e);
    Get(-ShorterMinusK(e))
  }

  /**
   * The shorter case from its front: xi and zi are the scaled endpoints
   * (xi raised by one unless the left endpoint is an integer), m the scaled
   * value rounded half up.  If the interval holds a multiple of 10, its
   * tenth with exponent minus_k + 1; otherwise m with exponent minus_k, made
   * even at the tie exponent tieExponent and raised into the interval when
   * below it.
   */
  function ShorterFrom(xi: int, zi: int, m: int, minusK: int, tieExponent: int): (r: (int, int))
    ensures r.1 == minusK + 1 || r.1 == minusK
    ensures r.1 == minusK + 1 ==> xi <= 10 * r.0 <= zi
    ensures r.1 == minusK ==> m - 1 <= r.0 <= m + 1
    ensures r.1 == minusK && PreferRoundDown(m)
            && SHORTER_INTERVAL_TIE_LOWER_THRESHOLD <= tieExponent <= SHORTER_INTERVAL_TIE_UPPER_THRESHOLD
            ==> r.0 % 2 == 0
  {
    if zi / 10 * 10 >= xi then (zi / 10, minusK + 1)
    else if PreferRoundDown(m)
            && SHORTER_INTERVAL_TIE_LOWER_THRESHOLD <= tieExponent <= SHORTER_INTERVAL_TIE_UPPER_THRESHOLD
    then (m - 1, minusK)
    else if m < xi then (m + 1, minusK)
    else (m, minusK)
  }

  /** xi of the shorter case: the scaled left endpoint, raised by one unless it is an integer. */
  function ShorterXi(e: int): int
    requires InRange(e)
  {
    ShorterScale(e);
    LeftEndpoint(ShorterCache(e), ShorterBeta(e)) + (if IsLeftEndpointInteger(e) then 0 else 1)
  }

  function ShorterZi(e: int): int
    requires InRange(e)
  {
    ShorterScale(e);
    RightEndpoint(ShorterCache(e), ShorterBeta(e))
  }

  function ShorterRoundUp(e: int): int
    requires InRange(e)
  {
    ShorterScale(e);
    RoundUp(ShorterCache(e), ShorterBeta(e))
  }

  /**
   * `compute_nearest_shorter` as intended: the tie rule applies at the
   * binary exponent -35, where 2^-12 lies exactly halfway between two
   * candidates.
   */
  function NearestShorter(e: int): (int, int)
    requires InRange(e)
  {
    ShorterFrom(ShorterXi(e), ShorterZi(e), ShorterRoundUp(e), ShorterMinusK(e), e)
  }

  /**
   * `compute_nearest_shorter` as written: a local `exponent = minus_k`
   * shadows the binary exponent before the tie test, so the test compares
   * minus_k with the thresholds.
   */
  function NearestShorterAsWritten(e: int): (int, int)
    requires InRange(e)
  {
    ShorterFrom(ShorterXi(e), ShorterZi(e), ShorterRoundUp(e), ShorterMinusK(e), ShorterMinusK(e))
  }

  lemma ShorterCacheAt(e: int, minusK: int)
    requires InRange(e) && minusK == ShorterMinusK(e)
    ensures MIN_K <= -minusK <= MAX_K && Get(-minusK) == ShorterCache(e)
  {
    ShorterScale(e);
  }

  /**
   * `compute_nearest_shorter`, with the tie test on the binary exponent:
   * the front computes minus_k, beta, the cache entry and the scaled
   * endpoints; ShorterRound does the rest.
   */
  method ComputeNearestShorter(exponent: int) returns (mantissa: u32, exp: int)
    requires InRange(exponent)
    ensures (mantissa, exp) == NearestShorter(exponent)
  {
    ShorterScale(exponent);
    var minusK := FloorLog10Pow2MinusLog10FourThirds(exponent);
    var beta := exponent + FloorLog2Pow10(-minusK);
    assert minusK == ShorterMinusK(exponent);
    assert beta == ShorterBeta(exponent);
    ShorterCacheAt(exponent, minusK);
    var cache := Get(-minusK);
    var xi := LeftEndpoint(cache, beta);
    var zi := RightEndpoint(cache, beta);
    ShorterFront(cache, beta);
    mantissa, exp := ShorterRound(exponent, minusK, cache, beta, xi, zi);
  }

  /**
   * The rest of `compute_nearest_shorter`.  Both endpoints are included, so
   * the right endpoint is never lowered (the source's test of
   * `include_right_endpoint` is dead and left out) and the left one is
   * raised only when it is not an integer.
   */
  method ShorterRound(exponent: int, minusK: int, cache: u64, beta: int, xi: u32, zi: u32)
    returns (mantissa: u32, exp: int)
    requires 0 <= beta <= 3 && 0x8000_0000_0000_0000 <= cache && xi < 0x800_0000
    ensures (mantissa, exp) == ShorterFrom(xi + (if IsLeftEndpointInteger(exponent) then 0 else 1), zi,
                                           RoundUp(cache, beta), minusK, exponent)
  {
    var includeLeftEndpoint := true;
    var xi := xi;
    if !includeLeftEndpoint || !IsLeftEndpointInteger(exponent) {
      xi := xi + 1;
    }
    mantissa := zi / 10;
    if mantissa * 10 >= xi {
      return mantissa, minusK + 1;
    }
    mantissa := RoundUp(cache, beta);
    exp := minusK;
    ghost var m := mantissa as int;
    assert ShorterFrom(xi, zi, m, minusK, exponent).1 == minusK;
    if PreferRoundDown(mantissa)
       && exponent >= SHORTER_INTERVAL_TIE_LOWER_THRESHOLD && exponent <= SHORTER_INTERVAL_TIE_UPPER_THRESHOLD
    {
      mantissa := mantissa - 1;
      assert ShorterFrom(xi, zi, m, minusK, exponent) == (m - 1, minusK);
    } else if mantissa < xi {
      mantissa := mantissa + 1;
      assert ShorterFrom(xi, zi, m, minusK, exponent) == (m + 1, minusK);
    } else {
      assert ShorterFrom(xi, zi, m, minusK, exponent) == (m, minusK);
    }
  }

  /** The endpoints of the shorter case stay well inside 32 bits. */
  lemma ShorterFront(cache: u64, beta: int)
    requires 0 <= beta <= 3 && 0x8000_0000_0000_0000 <= cache < 0xff00_0000_0000_0000
    ensures 1 <= LeftEndpoint(cache, beta) < 0x800_0000 && RightEndpoint(cache, beta) < 0x800_0000
  {
    ShorterPowers(beta);
    Pow2Table();
    var h := High(cache);
    EndpointArith(h, Pow2(8 - beta), LeftEndpoint(cache, beta), RightEndpoint(cache, beta));
  }

  lemma EndpointArith(h: nat, d: nat, x: nat, z: nat)
    requires 0x8000_0000 <= h < 0xff00_0000 && 32 <= d <= 256
    requires x * d <= h - h / 0x200_0000 < (x + 1) * d && z * d <= h + h / 0x100_0000
    ensures 1 <= x < 0x800_0000 && z < 0x800_0000
  {
    MulMonotone(x, 32, x, d);
    MulMonotone(z, 32, z, d);
    MulMonotone(x + 1, d, x + 1, 256);
  }

  /**
   * At the binary exponent -35 (the float 2^-12) the code as written does
   * not apply the tie rule: minus_k is -11 there, outside the thresholds,
   * and the odd candidate 24414063 is kept.
   */
  lemma ShorterTieAsWritten()
    ensures NearestShorterAsWritten(-35) == (24414063, -11)
  {
    ShorterTieFront();
  }

  /**
   * With the test on the binary exponent, 2^-12, which is exactly
   * 24414062.5 * 10^-11, is rounded to the even neighbour 24414062.
   */
  lemma ShorterTieCorrected()
    ensures NearestShorter(-35) == (24414062, -11)
    ensures (2 * 24414062 + 1) * Pow2(11) == Pow10(11)
  {
    ShorterTieFront();
    Pow10Table();
    Pow2Table();
  }

  /** The front of the shorter case at the binary exponent -35. */
  lemma ShorterTieFront()
    ensures InRange(-35) && ShorterMinusK(-35) == -11 && ShorterBeta(-35) == 1
    ensures ShorterXi(-35) == 24414062 && ShorterZi(-35) == 24414063 && ShorterRoundUp(-35) == 24414063
  {
    assert ShorterMinusK(-35) == -11;
    assert ShorterBeta(-35) == 1;
    assert ShorterCache(-35) == 0xba43b740_00000000 by {
      EntryIsIndex(CACHE, 42);
      assert CACHE[42] == CACHE_EXACT[11];
    }
    Pow2Table();
    assert Pow2(7) == 128 && Pow2(6) == 64;
  }

  /** The result of the shorter case is nonzero, below 2^27 + 2, with exponent minus_k or minus_k + 1. */
  lemma ShorterBounds(e: int)
    requires InRange(e)
    ensures var r := NearestShorter(e);
            1 <= r.0 <= 0x800_0001 && ShorterMinusK(e) <= r.1 <= ShorterMinusK(e) + 1
  {
    ShorterScale(e);
    ShorterFront(ShorterCache(e), ShorterBeta(e));
  }

  /** The result of the normal case is nonzero, below 10^9, with exponent minus_k + 1 or minus_k + 2. */
  lemma NormalBounds(twoFc: int, e: int, even: bool)
    requires NormalInput(twoFc, e)
    ensures var r := NearestNormal(twoFc, e, even);
            1 <= r.0 < 1_000_000_000 && NormalMinusK(e) + 1 <= r.1 <= NormalMinusK(e) + 2
  {
    NormalMagnitudes(twoFc, e);
  }

  // ------------------------------------------------------------ to_decimal

  /** The biased exponent field of a binary32 bit pattern. */
  function FieldOf(bits: u32): int
  {
    bits / 0x80_0000 % 0x100
  }

  /** The fraction field of a binary32 bit pattern. */
  function FractionOf(bits: u32): int
  {
    bits % 0x80_0000
  }

  /** A finite value: its exponent field is not all ones. */
  predicate Finite(bits: u32)
  {
    FieldOf(bits) != 0xff
  }

  /**
   * What `to_decimal` computes for a finite nonzero value, with the tie test
   * of the shorter case corrected (NearestShorter): a normal value with a
   * zero fraction, a power of two, is handled by the shorter case at its
   * binary exponent field - 150; any other normal value by the normal case
   * with the hidden bit set; a subnormal by the normal case at the binary
   * exponent -149.  A tie keeps an even fraction.
   */
  function Decimal(bits: u32): (int, int)
    requires Finite(bits) && bits % 0x8000_0000 != 0
  {
    var field, frac := FieldOf(bits), FractionOf(bits);
    if field != 0 && frac == 0 then NearestShorter(field - 150)
    else if field != 0 then NearestNormal(2 * frac + 0x100_0000, field - 150, frac % 2 == 0)
    else NearestNormal(2 * frac, -149, frac % 2 == 0)
  }

  /**
   * What `to_decimal` computes as written: the shorter case takes its tie
   * test from the shadowing minus_k.  Only powers of two can differ from
   * Decimal.
   */
  function DecimalAsWritten(bits: u32): (r: (int, int))
    requires Finite(bits) && bits % 0x8000_0000 != 0
    ensures FieldOf(bits) == 0 || FractionOf(bits) != 0 ==> r == Decimal(bits)
  {
    var field, frac := FieldOf(bits), FractionOf(bits);
    if field != 0 && frac == 0 then NearestShorterAsWritten(field - 150)
    else Decimal(bits)
  }

  /** The float 2^-12, bits 0x39800000: as written 24414063e-11, corrected 24414062e-11. */
  lemma DecimalTieExample()
    ensures Finite(0x3980_0000) && FieldOf(0x3980_0000) == 115 && FractionOf(0x3980_0000) == 0
    ensures DecimalAsWritten(0x3980_0000) == (24414063, -11)
    ensures Decimal(0x3980_0000) == (24414062, -11)
  {
    ShorterTieAsWritten();
    ShorterTieCorrected();
  }

  /** The fields to_decimal decodes, and the two tests to_chars makes, read the bit pattern. */
  lemma DecodedFields(bits: u32)
    ensures ExtractExponentBits(bits) == FieldOf(bits)
    ensures RemoveExponentBits(bits, ExtractExponentBits(bits)) == bits / 0x8000_0000 * 0x8000_0000 + FractionOf(bits)
    ensures var s := RemoveExponentBits(bits, ExtractExponentBits(bits));
            && RemoveSignBitAndShift(s) == 2 * FractionOf(bits)
            && (HasEvenMantissaBits(s) <==> FractionOf(bits) % 2 == 0)
            && (IsNegative(s) <==> bits >= 0x8000_0000)
  {
    Pow2Table();
    ExponentFieldRemoved(bits);
    var s := RemoveExponentBits(bits, ExtractExponentBits(bits));
    SignTests(s);
  }

  /** two_fc | (1 << 24) sets the hidden bit above 2 * fraction. */
  lemma HiddenBit(twoFc: nat)
    requires twoFc < 0x100_0000
    ensures BitOr(twoFc, Shl32(1, MANTISSA_BITS + 1)) == twoFc + 0x100_0000
  {
    Pow2Table();
    BitOrDisjoint(twoFc, 1, 24);
  }

  /** The bits below the sign bit are the exponent field above the fraction field. */
  lemma LowBits(bits: u32)
    ensures bits % 0x8000_0000 == FieldOf(bits) * 0x80_0000 + FractionOf(bits)
    ensures 0 <= FieldOf(bits) < 0x100 && 0 <= FractionOf(bits) < 0x80_0000
  {
    ModSplit(bits, 0x80_0000, 0x100);
  }

  /** The arguments to_decimal passes on, read from the fields. */
  lemma NormalArguments(bits: u32)
    requires Finite(bits) && bits % 0x8000_0000 != 0
    ensures 0 <= FieldOf(bits) < 0xff && 0 <= FractionOf(bits) < 0x80_0000
    ensures FieldOf(bits) != 0 ==> InRange(FieldOf(bits) - 150)
    ensures FieldOf(bits) != 0 && FractionOf(bits) != 0 ==> NormalInput(2 * FractionOf(bits) + 0x100_0000, FieldOf(bits) - 150)
    ensures FieldOf(bits) == 0 ==> NormalInput(2 * FractionOf(bits), -149)
  {
    LowBits(bits);
  }

  /**
   * `to_decimal`: decodes the fields and dispatches to the shorter or the
   * normal case, the shorter one with its tie test corrected.
   */
  method ToDecimal(bits: u32) returns (mantissa: u32, exp: int)
    requires Finite(bits) && bits % 0x8000_0000 != 0
    ensures (mantissa, exp) == Decimal(bits)
  {
    ghost var field, frac := FieldOf(bits), FractionOf(bits);
    NormalArguments(bits);
    var exponentBits := ExtractExponentBits(bits);
    var signedMantissaBits := RemoveExponentBits(bits, exponentBits);
    var twoFc := RemoveSignBitAndShift(signedMantissaBits);
    assert exponentBits == field && twoFc == 2 * frac && (HasEvenMantissaBits(signedMantissaBits) <==> frac % 2 == 0) by {
      DecodedFields(bits);
    }
    var exponent: int := exponentBits;
    if exponent != 0 {
      exponent := exponent + EXPONENT_BIAS - MANTISSA_BITS as int;
      if twoFc == 0 {
        mantissa, exp := ComputeNearestShorter(exponent);
        return;
      }
      HiddenBit(twoFc);
      twoFc := BitOr(twoFc, Shl32(1, MANTISSA_BITS + 1));
    } else {
      exponent := MIN_EXPONENT - MANTISSA_BITS as int;
    }
    mantissa, exp := ComputeNearestNormal(twoFc, exponent, HasEvenMantissaBits(signedMantissaBits));
  }

  /** Nine digits at most below 10^9. */
  lemma NineDigitsAtMost(n: nat)
    requires n < 1_000_000_000
    ensures NumDigits(n) <= 9
  {
    NumDigitsBounds(n);
    if NumDigits(n) > 9 {
      Pow10Table();
      PowAdd(10, 8, 1);
      PowMonotone(10, 9, NumDigits(n) - 1);
    }
  }

  /**
   * The result of `to_decimal` is what `write_f32` accepts: a nonzero
   * significand of at most nine digits, and a decimal exponent of the
   * leading digit between -99 and 99 (in fact between -45 and 40).
   */
  lemma DecimalFits(bits: u32)
    requires Finite(bits) && bits % 0x8000_0000 != 0
    ensures var r := Decimal(bits);
            && 1 <= r.0 < 1_000_000_000
            && -45 <= r.1 + NumDigits(r.0) - 1 <= 40
  {
    var field, frac := FieldOf(bits), FractionOf(bits);
    var r := Decimal(bits);
    NormalArguments(bits);
    if field != 0 && frac == 0 {
      ShorterBounds(field - 150);
      ShorterScale(field - 150);
    } else if field != 0 {
      NormalBounds(2 * frac + 0x100_0000, field - 150, frac % 2 == 0);
      NormalScale(field - 150);
    } else {
      NormalBounds(2 * frac, -149, frac % 2 == 0);
      NormalScale(-149);
    }
    NineDigitsAtMost(r.0);
  }

  // ------------------------------------------------------------ to_chars

  /** "0E0", written for a zero of either sign. */
  const ZERO_TEXT: seq<u8> := [ZERO, LETTER_E, ZERO]

  /**
   * What `to_chars` writes for a finite value: `-` when the sign bit is
   * set, then the text of its magnitude.
   */
  function ToCharsText(bits: u32): seq<u8>
    requires Finite(bits)
  {
    (if bits >= 0x8000_0000 then [MINUS] else []) + MagnitudeText(bits)
  }

  /**
   * "0E0" for a zero (so -0.0 gives "-0E0"), otherwise the rendering of the
   * result of `to_decimal`.
   */
  function MagnitudeText(bits: u32): seq<u8>
    requires Finite(bits)
  {
    if bits % 0x8000_0000 == 0 then ZERO_TEXT
    else var r := Decimal(bits); DecimalFits(bits); F32Text(r.0, r.1)
  }

  /** The text of a finite value fits the buffer: at most MAX_BUFFER_LEN bytes. */
  lemma ToCharsLength(bits: u32)
    requires Finite(bits)
    ensures 2 <= |ToCharsText(bits)| <= MAX_BUFFER_LEN
  {
    if bits % 0x8000_0000 != 0 {
      var r := Decimal(bits);
      DecimalFits(bits);
      F32TextLength(r.0, r.1);
    }
  }

  /** A rendered significand and exponent take between 3 and 14 bytes. */
  lemma F32TextLength(mant: nat, exp: int)
    requires 1 <= mant < 1_000_000_000 && -100 < exp + NumDigits(mant) - 1 < 100
    ensures 2 <= |F32Text(mant, exp)| <= 14
  {
    NineDigitsAtMost(mant);
    var x := exp + NumDigits(mant) - 1;
    if x < 0 {
      SmallDigits(-x);
    } else {
      SmallDigits(x);
    }
  }

  /**
   * `to_chars`: writes the text of a finite value at buf[p..] and returns
   * the end of what it wrote; nothing outside the MAX_BUFFER_LEN bytes from
   * p changes.  The digits are those of Decimal, with the corrected tie test.
   */
  method FiniteToChars(bits: u32, buf: array<u8>, p: nat) returns (end: nat)
    requires Finite(bits) && p + MAX_BUFFER_LEN <= buf.Length
    modifies buf
    ensures p < end <= p + MAX_BUFFER_LEN && buf[p..end] == ToCharsText(bits)
    ensures SameOutside(old(buf[..]), buf[..], p, p + MAX_BUFFER_LEN)
  {
    var exponentBits := ExtractExponentBits(bits);
    var s := RemoveExponentBits(bits, exponentBits);
    assert IsNegative(s) <==> bits >= 0x8000_0000 by {
      DecodedFields(bits);
    }
    var q := p;
    if IsNegative(s) {
      buf[q] := MINUS;
      q := q + 1;
    }
    ghost var before := buf[..];
    end := WriteMagnitude(bits, buf, q);
    KeepsFront(before, buf[..], q, q + 14, p, end);
  }

  /** A write that starts at q keeps what lies before it, in front of what it wrote. */
  lemma KeepsFront(before: seq<u8>, after: seq<u8>, q: int, hi: int, p: int, end: int)
    requires SameOutside(before, after, q, hi) && 0 <= p <= q <= end <= |after|
    ensures after[p..end] == before[p..q] + after[q..end]
  {
    KeepsSlice(before, after, q, hi, p, q);
    assert after[p..end] == after[p..q] + after[q..end];
  }

  /** The digits part of `to_chars`: "0E0" for a zero, else the decimal form of Decimal. */
  method WriteMagnitude(bits: u32, buf: array<u8>, q: nat) returns (end: nat)
    requires Finite(bits) && q + 14 <= buf.Length
    modifies buf
    ensures q < end <= q + 14 && buf[q..end] == MagnitudeText(bits)
    ensures SameOutside(old(buf[..]), buf[..], q, q + 14)
  {
    SignTests(bits);
    if IsNonzero(bits) {
      var significand, exponent := ToDecimal(bits);
      DecimalFits(bits);
      end := WriteF32(significand, exponent, buf, q);
    } else {
      forall i | 0 <= i < 3 {
        buf[q + i] := ZERO_TEXT[i];
      }
      end := q + 3;
    }
  }

  // ------------------------------------------------------------ the cache

  /**
   * For 0 <= k <= 27 the entry for 10^k is exact: 10^k scaled by the power
   * of two 2^(63 - floor_log2_pow10(k)) that puts its top bit at bit 63 (a
   * division by that power, which leaves no remainder, from k = 20 on).
   */
  lemma {:induction false} ExactCacheEntry(k: int)
    requires 0 <= k <= 27
    ensures var s := 63 - FloorLog2Pow10(k);
            if s >= 0 then Get(k) == Pow10(k) * Pow2(s) else Get(k) * Pow2(-s) == Pow10(k)
  {
    if k == 0 {
      ExactRun(k);
      Pow2Table();
    } else {
      ExactCacheEntry(k - 1);
      ExactStep(k);
      var s, s' := 63 - FloorLog2Pow10(k), 63 - FloorLog2Pow10(k - 1);
      var d := s' - s;
      assert Pow10(k) == 10 * Pow10(k - 1);
      if s >= 0 {
        PowAdd(2, s, d);
        ScaleUp(Get(k), Get(k - 1), Pow10(k - 1), Pow2(s), Pow2(d));
      } else if s' >= 0 {
        assert s' == 0 && -s == d;
      } else {
        PowAdd(2, -s', d);
        ScaleDown(Get(k), Get(k - 1), Pow10(k - 1), Pow2(-s'), Pow2(d));
      }
    }
  }

  /** From e * q == 10 * e' and e' == t * p * q: e == 10 * t * p. */
  lemma ScaleUp(e: int, e': int, t: int, p: int, q: int)
    requires q > 0 && e * q == 10 * e' && e' == t * (p * q)
    ensures e == 10 * t * p
  {
    assert e * q == (10 * t * p) * q;
  }

  /** From e * q == 10 * e' and e' * p == t: e * (p * q) == 10 * t. */
  lemma ScaleDown(e: int, e': int, t: int, p: int, q: int)
    requires e * q == 10 * e' && e' * p == t
    ensures e * (p * q) == 10 * t
  {
    assert e * (p * q) == (e * q) * p;
  }

  /**
   * Consecutive exact entries: floor_log2_pow10 grows by 3 or 4 from k - 1
   * to k, and the entry for 10^k is ten times the one for 10^(k-1), divided
   * by 2 to that growth.
   */
  lemma ExactStep(k: int)
    requires 1 <= k <= 27
    ensures var d := FloorLog2Pow10(k) - FloorLog2Pow10(k - 1);
            (d == 3 || d == 4) && Get(k) as int * Pow2(d) == 10 * Get(k - 1) as int
  {
    ExactRun(k);
    ExactRun(k - 1);
    assert Pow2(3) == 8 && Pow2(4) == 16 by {
      assert Pow(2, 2) == 4;
      assert Pow(2, 4) == 2 * Pow(2, 3);
    }
    if k <= 7 {
      ExactRowsTo7(k);
    } else if k <= 13 {
      ExactRowsTo13(k);
    } else if k <= 20 {
      ExactRowsTo20(k);
    } else {
      ExactRowsTo27(k);
    }
  }

  lemma ExactRowsTo7(k: int)
    requires 1 <= k <= 7
    ensures var d := FloorLog2Pow10(k) - FloorLog2Pow10(k - 1);
            (d == 3 && CACHE_EXACT[k] as int * 8 == 10 * CACHE_EXACT[k - 1] as int)
            || (d == 4 && CACHE_EXACT[k] as int * 16 == 10 * CACHE_EXACT[k - 1] as int)
  {
    if k == 1 {
      assert FloorLog2Pow10(1) == 3 && FloorLog2Pow10(0) == 0;
      assert CACHE_EXACT[1] as int * 8 == 10 * CACHE_EXACT[0] as int;
    }
    else if k == 2 {
      assert FloorLog2Pow10(2) == 6 && FloorLog2Pow10(1) == 3;
      assert CACHE_EXACT[2] as int * 8 == 10 * CACHE_EXACT[1] as int;
    }
    else if k == 3 {
      assert FloorLog2Pow10(3) == 9 && FloorLog2Pow10(2) == 6;
      assert CACHE_EXACT[3] as int * 8 == 10 * CACHE_EXACT[2] as int;
    }
    else if k == 4 {
      assert FloorLog2Pow10(4) == 13 && FloorLog2Pow10(3) == 9;
      assert CACHE_EXACT[4] as int * 16 == 10 * CACHE_EXACT[3] as int;
    }
    else if k == 5 {
      assert FloorLog2Pow10(5) == 16 && FloorLog2Pow10(4) == 13;
      assert CACHE_EXACT[5] as int * 8 == 10 * CACHE_EXACT[4] as int;
    }
    else if k == 6 {
      assert FloorLog2Pow10(6) == 19 && FloorLog2Pow10(5) == 16;
      assert CACHE_EXACT[6] as int * 8 == 10 * CACHE_EXACT[5] as int;
    }
    else {
      assert FloorLog2Pow10(7) == 23 && FloorLog2Pow10(6) == 19;
      assert CACHE_EXACT[7] as int * 16 == 10 * CACHE_EXACT[6] as int;
    }
  }

  lemma ExactRowsTo13(k: int)
    requires 8 <= k <= 13
    ensures var d := FloorLog2Pow10(k) - FloorLog2Pow10(k - 1);
            (d == 3 && CACHE_EXACT[k] as int * 8 == 10 * CACHE_EXACT[k - 1] as int)
            || (d == 4 && CACHE_EXACT[k] as int * 16 == 10 * CACHE_EXACT[k - 1] as int)
  {
    if k == 8 {
      assert FloorLog2Pow10(8) == 26 && FloorLog2Pow10(7) == 23;
      assert CACHE_EXACT[8] as int * 8 == 10 * CACHE_EXACT[7] as int;
    }
    else if k == 9 {
      assert FloorLog2Pow10(9) == 29 && FloorLog2Pow10(8) == 26;
      assert CACHE_EXACT[9] as int * 8 == 10 * CACHE_EXACT[8] as int;
    }
    else if k == 10 {
      assert FloorLog2Pow10(10) == 33 && FloorLog2Pow10(9) == 29;
      assert CACHE_EXACT[10] as int * 16 == 10 * CACHE_EXACT[9] as int;
    }
    else if k == 11 {
      assert FloorLog2Pow10(11) == 36 && FloorLog2Pow10(10) == 33;
      assert CACHE_EXACT[11] as int * 8 == 10 * CACHE_EXACT[10] as int;
    }
    else if k == 12 {
      assert FloorLog2Pow10(12) == 39 && FloorLog2Pow10(11) == 36;
      assert CACHE_EXACT[12] as int * 8 == 10 * CACHE_EXACT[11] as int;
    }
    else {
      assert FloorLog2Pow10(13) == 43 && FloorLog2Pow10(12) == 39;
      assert CACHE_EXACT[13] as int * 16 == 10 * CACHE_EXACT[12] as int;
    }
  }

  lemma ExactRowsTo20(k: int)
    requires 14 <= k <= 20
    ensures var d := FloorLog2Pow10(k) - FloorLog2Pow10(k - 1);
            (d == 3 && CACHE_EXACT[k] as int * 8 == 10 * CACHE_EXACT[k - 1] as int)
            || (d == 4 && CACHE_EXACT[k] as int * 16 == 10 * CACHE_EXACT[k - 1] as int)
  {
    if k == 14 {
      assert FloorLog2Pow10(14) == 46 && FloorLog2Pow10(13) == 43;
      assert CACHE_EXACT[14] as int * 8 == 10 * CACHE_EXACT[13] as int;
    }
    else if k == 15 {
      assert FloorLog2Pow10(15) == 49 && FloorLog2Pow10(14) == 46;
      assert CACHE_EXACT[15] as int * 8 == 10 * CACHE_EXACT[14] as int;
    }
    else if k == 16 {
      assert FloorLog2Pow10(16) == 53 && FloorLog2Pow10(15) == 49;
      assert CACHE_EXACT[16] as int * 16 == 10 * CACHE_EXACT[15] as int;
    }
    else if k == 17 {
      assert FloorLog2Pow10(17) == 56 && FloorLog2Pow10(16) == 53;
      assert CACHE_EXACT[17] as int * 8 == 10 * CACHE_EXACT[16] as int;
    }
    else if k == 18 {
      assert FloorLog2Pow10(18) == 59 && FloorLog2Pow10(17) == 56;
      assert CACHE_EXACT[18] as int * 8 == 10 * CACHE_EXACT[17] as int;
    }
    else if k == 19 {
      assert FloorLog2Pow10(19) == 63 && FloorLog2Pow10(18) == 59;
      assert CACHE_EXACT[19] as int * 16 == 10 * CACHE_EXACT[18] as int;
    }
    else {
      assert FloorLog2Pow10(20) == 66 && FloorLog2Pow10(19) == 63;
      assert CACHE_EXACT[20] as int * 8 == 10 * CACHE_EXACT[19] as int;
    }
  }

  lemma ExactRowsTo27(k: int)
    requires 21 <= k <= 27
    ensures var d := FloorLog2Pow10(k) - FloorLog2Pow10(k - 1);
            (d == 3 && CACHE_EXACT[k] as int * 8 == 10 * CACHE_EXACT[k - 1] as int)
            || (d == 4 && CACHE_EXACT[k] as int * 16 == 10 * CACHE_EXACT[k - 1] as int)
  {
    if k == 21 {
      assert FloorLog2Pow10(21) == 69 && FloorLog2Pow10(20) == 66;
      assert CACHE_EXACT[21] as int * 8 == 10 * CACHE_EXACT[20] as int;
    }
    else if k == 22 {
      assert FloorLog2Pow10(22) == 73 && FloorLog2Pow10(21) == 69;
      assert CACHE_EXACT[22] as int * 16 == 10 * CACHE_EXACT[21] as int;
    }
    else if k == 23 {
      assert FloorLog2Pow10(23) == 76 && FloorLog2Pow10(22) == 73;
      assert CACHE_EXACT[23] as int * 8 == 10 * CACHE_EXACT[22] as int;
    }
    else if k == 24 {
      assert FloorLog2Pow10(24) == 79 && FloorLog2Pow10(23) == 76;
      assert CACHE_EXACT[24] as int * 8 == 10 * CACHE_EXACT[23] as int;
    }
    else if k == 25 {
      assert FloorLog2Pow10(25) == 83 && FloorLog2Pow10(24) == 79;
      assert CACHE_EXACT[25] as int * 16 == 10 * CACHE_EXACT[24] as int;
    }
    else if k == 26 {
      assert FloorLog2Pow10(26) == 86 && FloorLog2Pow10(25) == 83;
      assert CACHE_EXACT[26] as int * 8 == 10 * CACHE_EXACT[25] as int;
    }
    else {
      assert FloorLog2Pow10(27) == 89 && FloorLog2Pow10(26) == 86;
      assert CACHE_EXACT[27] as int * 8 == 10 * CACHE_EXACT[26] as int;
    }
  }

  /** The entry for 10^-1 is 2^67 / 10 rounded up: the least integer whose tenfold reaches 2^67. */
  lemma TenthCacheEntry()
    ensures Pow2(67) < 10 * Get(-1) < Pow2(67) + 10
    ensures Get(-1) == 0xcccc_cccc_cccc_cccd
  {
    ExactRun(-1);
    assert Pow2(67) == 0x8_0000_0000_0000_0000 by {
      Pow2Table();
      PowAdd(2, 64, 3);
      assert Pow(2, 3) == 8 by {
        assert Pow(2, 2) == 4;
      }
    }
  }

  // ------------------------------------------------------------ non-finite values and Buffer

  /** "NaN", "inf" and "-inf": the fixed texts of the non-finite values. */
  const NAN_TEXT: seq<u8> := [0x4e, 0x61, 0x4e]
  const INFINITY_TEXT: seq<u8> := [0x69, 0x6e, 0x66]
  const NEG_INFINITY_TEXT: seq<u8> := [MINUS, 0x69, 0x6e, 0x66]

  /** `is_nonfinite`: every bit of the exponent field is set. */
  predicate IsNonfinite(bits: u32)
  {
    BitAnd(bits, EXPONENT_MASK) == EXPONENT_MASK
  }

  /** The exponent mask test is the test on the exponent field: an infinity or a NaN. */
  lemma NonfiniteField(bits: u32)
    ensures IsNonfinite(bits) <==> !Finite(bits)
  {
    assert BitAnd(bits, EXPONENT_MASK) == FieldOf(bits) * 0x80_0000 by {
      Layout.MaskedFields(Layout.F32, bits);
      Pow2Table();
    }
  }

  /** `format_nonfinite`: "NaN" when a fraction bit is set, else "-inf" or "inf" by the sign bit. */
  function FormatNonfinite(bits: u32): seq<u8>
  {
    if BitAnd(bits, MANTISSA_MASK) != 0 then NAN_TEXT
    else if BitAnd(bits, SIGN_MASK) != 0 then NEG_INFINITY_TEXT
    else INFINITY_TEXT
  }

  /** The two mask tests of `format_nonfinite` read the fraction field and the sign bit. */
  lemma NonfiniteTests(bits: u32)
    ensures BitAnd(bits, MANTISSA_MASK) != 0 <==> FractionOf(bits) != 0
    ensures BitAnd(bits, SIGN_MASK) != 0 <==> bits >= 0x8000_0000
  {
    assert BitAnd(bits, MANTISSA_MASK) == FractionOf(bits) by {
      Layout.MaskedFields(Layout.F32, bits);
      Pow2Table();
    }
    SignBitSet(bits, BitAnd(bits, SIGN_MASK));
  }

  lemma SignBitSet(bits: u32, a: int)
    requires a == BitAnd(bits, SIGN_MASK)
    ensures a != 0 <==> bits >= 0x8000_0000
  {
    var c := bits / 0x8000_0000;
    assert a == c % 2 * 0x8000_0000 by {
      BitAndSingleBit(bits, 31);
      Pow2Table();
    }
    assert c == 0 || c == 1;
  }

  /**
   * A non-finite value is shown as "NaN" exactly when its fraction is
   * nonzero, whatever its sign; an infinity as "-inf" exactly when its sign
   * bit is set, otherwise "inf".
   */
  lemma NonfiniteText(bits: u32)
    requires !Finite(bits)
    ensures FormatNonfinite(bits) == NAN_TEXT <==> FractionOf(bits) != 0
    ensures FormatNonfinite(bits) == NEG_INFINITY_TEXT <==> FractionOf(bits) == 0 && bits >= 0x8000_0000
    ensures FormatNonfinite(bits) == INFINITY_TEXT <==> FractionOf(bits) == 0 && bits < 0x8000_0000
  {
    NonfiniteTests(bits);
    assert NAN_TEXT[0] != NEG_INFINITY_TEXT[0] && NAN_TEXT[0] != INFINITY_TEXT[0];
    assert NEG_INFINITY_TEXT[0] != INFINITY_TEXT[0];
  }

  /** What `Buffer::format` returns: the fixed text of a non-finite value, else what `to_chars` writes. */
  function FormatText(bits: u32): seq<u8>
  {
    NonfiniteField(bits);
    if IsNonfinite(bits) then FormatNonfinite(bits) else ToCharsText(bits)
  }

  /**
   * The text of every value fits the buffer, and starts with `-` exactly
   * when the sign bit is set, except for a NaN, which never shows its sign.
   */
  lemma FormatTextShape(bits: u32)
    ensures 2 <= |FormatText(bits)| <= MAX_BUFFER_LEN
    ensures FormatText(bits)[0] == MINUS <==> bits >= 0x8000_0000 && !(!Finite(bits) && FractionOf(bits) != 0)
  {
    NonfiniteField(bits);
    if IsNonfinite(bits) {
      NonfiniteText(bits);
    } else {
      ToCharsLength(bits);
      if bits < 0x8000_0000 {
        LeadingDigit(bits);
      }
    }
  }

  /** The text of a nonnegative finite value starts with a digit. */
  lemma LeadingDigit(bits: u32)
    requires Finite(bits) && bits < 0x8000_0000
    ensures |ToCharsText(bits)| > 0 && ToCharsText(bits)[0] != MINUS
  {
    ToCharsLength(bits);
    if bits % 0x8000_0000 != 0 {
      var r := Decimal(bits);
      DecimalFits(bits);
      F32TextStartsWithDigit(r.0, r.1);
    }
  }

  /** A rendered significand starts with its leading digit. */
  lemma F32TextStartsWithDigit(mant: nat, exp: int)
    requires 1 <= mant
    ensures |F32Text(mant, exp)| > 0 && F32Text(mant, exp)[0] == Digits(mant)[0] && IsDigit(Digits(mant)[0])
  {
    var run := NineDigitRun(mant);
    assert |run| >= 1 && run[0] == Digits(mant)[0];
    assert WithPoint(run)[0] == run[0];
  }

  /**
   * `Buffer`: the MAX_BUFFER_LEN bytes `format` writes a finite value into;
   * the text it returns for a finite value is the written prefix.
   */
  class Buffer {
    var bytes: array<u8>

    /** `Buffer::new`: a buffer of MAX_BUFFER_LEN bytes. */
    constructor ()
      ensures fresh(bytes) && bytes.Length == MAX_BUFFER_LEN
    {
      bytes := new u8[MAX_BUFFER_LEN];
    }

    /**
     * `Buffer::format`: the fixed text of a non-finite value, which leaves
     * the bytes alone; a finite value is written at the start of the bytes
     * and the written prefix returned (its digits those of Decimal).
     */
    method Format(bits: u32) returns (s: seq<u8>)
      requires bytes.Length == MAX_BUFFER_LEN
      modifies bytes
      ensures s == FormatText(bits) && |s| <= MAX_BUFFER_LEN
      ensures Finite(bits) ==> s == bytes[..|s|]
      ensures !Finite(bits) ==> unchanged(bytes)
    {
      NonfiniteField(bits);
      if IsNonfinite(bits) {
        FormatTextShape(bits);
        return FormatNonfinite(bits);
      }
      var n := FiniteToChars(bits, bytes, 0);
      s := bytes[..n];
    }
  }
}
