/**
 * The moderate path (Eisel-Lemire): the decimal significand w and exponent q
 * are turned into a binary significand by one or two 64 x 64 -> 128-bit
 * multiplications with a truncated 128-bit power of five, then rounded to
 * MANT_SIZE + 1 bits.  When the truncation could have changed the rounding,
 * `moderate` returns a result marked with the exponent offset INVALID_FP,
 * which the exact path then finishes.
 *
 * The table POWER_OF_FIVE_128 is not part of this model: it is a parameter,
 * a sequence of word pairs indexed by q - SMALLEST_POWER_OF_FIVE, whose first
 * word is multiplied first.  Only its length is relied on, except where a
 * lemma says otherwise.
 */
module Moderate {
  import opened Arith
  import opened Layout
  import opened Rounding
  import opened Tokens

  const SMALLEST_POWER_OF_FIVE: int := -342
  const LARGEST_POWER_OF_FIVE: int := 308

  /** The word pairs of the 128-bit powers of five, one per q in [-342, 308]. */
  predicate IsPowerOfFiveTable(t: seq<(u64, u64)>)
  {
    |t| == LARGEST_POWER_OF_FIVE - SMALLEST_POWER_OF_FIVE + 1
  }

  /** Both widths look q up only inside the table. */
  lemma PowerOfTenRange(fw: Width)
    ensures SMALLEST_POWER_OF_FIVE <= SmallestPowerOfTen(fw) <= LargestPowerOfTen(fw) <= LARGEST_POWER_OF_FIVE
  {
  }

  // ------------------------------------------------------------------ power

  /**
   * `power(q)`: q * 217706 >> 16, plus 63.  217706 / 2^16 is log2(10) in
   * 16-bit fixed point; the i32 product wraps and the shift is arithmetic,
   * that is a floor division.
   */
  function Power(q: i32): int
  {
    Wrap32(q * 217706) / 0x1_0000 + 63
  }

  /** Inside the i32 range of the product, power(q) is floor(q * 217706 / 2^16) + 63. */
  lemma PowerExact(q: i32)
    requires -9864 <= q <= 9864
    ensures Power(q) == q * 217706 / 0x1_0000 + 63
  {
    Wrap32Small(q * 217706);
  }

  /**
   * Over the table's range each step of q adds 3 or 4 to power(q), as each
   * factor 10 adds 3.32 binary digits; power(0) is 63.
   */
  lemma PowerStep(q: i32)
    requires SMALLEST_POWER_OF_FIVE <= q < LARGEST_POWER_OF_FIVE
    ensures 3 <= Power(q + 1) - Power(q) <= 4
    ensures Power(0) == 63
  {
    PowerExact(q);
    PowerExact(q + 1);
    var x := q * 217706;
    assert (q + 1) * 217706 == x + 217706;
    FloorStep(x, 217706, 0x1_0000);
  }

  /** Adding c to x adds floor(c / d) or one more to floor(x / d). */
  lemma FloorStep(x: int, c: nat, d: nat)
    requires d > 0
    ensures c / d <= (x + c) / d - x / d <= c / d + 1
  {
    var a, b := x / d, c / d;
    var r, s := x % d, c % d;
    assert x + c == (a + b) * d + (r + s);
    if r + s < d {
      DivUnique(x + c, d, a + b, r + s);
    } else {
      DivUnique(x + c, d, a + b + 1, r + s - d);
    }
  }

  /** Over the table's range power(q) lies in [-1074, 1086]. */
  lemma PowerRange(q: i32)
    requires SMALLEST_POWER_OF_FIVE <= q <= LARGEST_POWER_OF_FIVE
    ensures -1074 <= Power(q) <= 1086
  {
    PowerExact(q);
  }

  // ------------------------------------------------------------ the product

  /** `full_mult(a, b)`: the 128-bit product as (low word, high word). */
  function FullMult(a: u64, b: u64): (r: (u64, u64))
    ensures r.1 * TWO64 + r.0 == a * b
  {
    ProductBelow(a, b);
    var p := a * b;
    DivBelow(p, TWO64, TWO64);
    (p % TWO64, p / TWO64)
  }

  /** The product of two 64-bit words is below 2^128 and leaves room for one more word. */
  lemma ProductBelow(a: u64, b: u64)
    ensures 0 <= a * b <= (TWO64 - 1) * (TWO64 - 1) < TWO64 * TWO64 - TWO64
  {
    MulMonotone(a, b, TWO64 - 1, TWO64 - 1);
  }

  /**
   * The 128-bit value `compute_product_approx` returns as (lo, hi): w times
   * the first word of the table entry, and, when the low 64 - precision bits
   * of its high word are all ones (the truncation could show there), plus
   * the high word of w times the second word.
   */
  function ProductApproxValue(e: (u64, u64), w: u64, precision: nat): (v: nat)
    ensures v < TWO64 * TWO64
  {
    var first := w * e.0;
    var second := w * e.1;
    var lowBits := if precision < 64 then Pow2(64 - precision) else TWO64;
    ProductBelow(w, e.0);
    ProductBelow(w, e.1);
    DivBelow(second, TWO64, TWO64);
    if first / TWO64 % lowBits == lowBits - 1 then first + second / TWO64 else first
  }

  /**
   * The value is the top 128 bits of w times the 128-bit power of five
   * (first word high, second word low), less at most 2^64 - 1; when the
   * second multiplication is done it is exact.
   */
  lemma ProductApproxBounds(e: (u64, u64), w: u64, precision: nat)
    ensures var exact := w * (e.0 * TWO64 + e.1) / TWO64;
            ProductApproxValue(e, w, precision) <= exact < ProductApproxValue(e, w, precision) + TWO64
    ensures var first := w * e.0;
            var lowBits := if precision < 64 then Pow2(64 - precision) else TWO64;
            first / TWO64 % lowBits == lowBits - 1 ==>
              ProductApproxValue(e, w, precision) == w * (e.0 * TWO64 + e.1) / TWO64
  {
    var first, second := w * e.0, w * e.1;
    ProductBelow(w, e.1);
    assert w * (e.0 * TWO64 + e.1) == first * TWO64 + second by {
      MulDistrib(e.0 * TWO64, e.1, w);
      MulSwap(w, e.0, TWO64);
    }
    DivAddMultiple(first, second, TWO64);
    DivBelow(second, TWO64, TWO64);
  }

  /**
   * `compute_product_approx`: the first product, and when its high word ends
   * in all ones below the precision mask, the high word of the second
   * product added with a wrapping add whose carry goes into the high word.
   */
  method ComputeProductApprox(t: seq<(u64, u64)>, q: int, w: u64, precision: nat) returns (lo: u64, hi: u64)
    requires IsPowerOfFiveTable(t) && SMALLEST_POWER_OF_FIVE <= q <= LARGEST_POWER_OF_FIVE
    ensures hi * TWO64 + lo == ProductApproxValue(t[q - SMALLEST_POWER_OF_FIVE], w, precision)
  {
    var mask: nat := if precision < 64 then Shr(TWO64 - 1, precision) else TWO64 - 1;
    var lowBits: nat := if precision < 64 then Pow2(64 - precision) else TWO64;
    assert mask == lowBits - 1 by {
      if precision < 64 {
        MaxShifted(precision);
      }
    }
    var index := q - SMALLEST_POWER_OF_FIVE;
    var (lo5, hi5) := t[index];
    var (firstLo, firstHi) := FullMult(w, lo5);
    lo, hi := firstLo, firstHi;
    assert hi < TWO64 - 1 by {
      ProductBelow(w, lo5);
      DivBelow(w * lo5, TWO64, TWO64 - 1);
    }
    var topBits := BitAnd(firstHi, mask);
    assert topBits == firstHi % lowBits by {
      if precision < 64 {
        BitAndLowMask(firstHi, 64 - precision);
      } else {
        Pow2Of64();
        BitAndLowMask(firstHi, 64);
      }
    }
    if topBits == mask {
      var (_, secondHi) := FullMult(w, hi5);
      lo := (firstLo + secondHi) % TWO64;
      if secondHi > lo {
        hi := firstHi + 1;
      }
      CarryAdd(firstLo, secondHi, lo, hi, firstHi);
    }
  }

  /** u64::MAX >> p is 2^(64 - p) - 1. */
  lemma MaxShifted(p: nat)
    requires p < 64
    ensures Shr(TWO64 - 1, p) == Pow2(64 - p) - 1
  {
    var d, e := Pow2(p), Pow2(64 - p);
    assert e * d == TWO64 by {
      Pow2Of64();
      PowAdd(2, 64 - p, p);
    }
    MulDistrib(e, -1, d);
    assert TWO64 - 1 == (e - 1) * d + (d - 1);
    DivUnique(TWO64 - 1, d, Pow2(64 - p) - 1, d - 1);
  }

  /**
   * A wrapping add of two words whose carry is detected by the sum being
   * below an addend: the pair (high + carry, sum) is the full sum.
   */
  lemma CarryAdd(a: u64, b: u64, sum: u64, hi: nat, hi0: nat)
    requires sum == (a + b) % TWO64
    requires hi == if b > sum then hi0 + 1 else hi0
    ensures hi * TWO64 + sum == hi0 * TWO64 + a + b
  {
    if a + b < TWO64 {
      SmallDiv(a + b, TWO64);
    } else {
      DivUnique(a + b, TWO64, 1, a + b - TWO64);
    }
  }

  // ---------------------------------------------------------- compute_float

  /** `m += m & 1; m >>= 1`: m / 2 rounded to the nearest integer, ties up. */
  function RoundHalfUp(m: nat): (r: nat)
    ensures 2 * r - 1 <= m <= 2 * r
    ensures r <= m || m == 0
  {
    (m + m % 2) / 2
  }

  /** Bit 63 of the high word: 1 when the product's top bit is already set. */
  function UpperBit(hi: u64): nat
  {
    hi / Pow2(63)
  }

  /** The shift that keeps MANT_SIZE + 2 bits of the high word. */
  function KeepShift(fw: Width, hi: u64): nat
  {
    UpperBit(hi) + 64 - MantSize(fw) - 3
  }

  /** The biased binary exponent of the product before rounding: power(q) + upperbit - lz - MIN_EXP. */
  function Power2(fw: Width, q: i32, hi: u64, lz: nat): int
  {
    Power(q) + UpperBit(hi) - lz - MinExp(fw)
  }

  /**
   * The round-to-even exception: the kept bits end in 01, no bit of the high
   * word below them is set, the low word is at most 1 and q is in the range
   * where the truncated power of five is exact enough for this to mean an
   * exact tie, which must round to even (down) rather than up.
   */
  predicate ExactTie(fw: Width, q: i32, lo: u64, hi: u64)
  {
    var s := KeepShift(fw, hi);
    var m := Shr(hi, s);
    && lo <= 1
    && MinExpRoundToEven(fw) <= q <= MaxExpRoundToEven(fw)
    && m % 4 == 1
    && m * Pow2(s) == hi
  }

  /**
   * The float `compute_float` makes of the product (lo, hi) of the normalised
   * significand (shifted left by lz) with the power of five.  A subnormal
   * result (power2 <= 0) keeps the bits above the extra shift 1 - power2 and
   * rounds them half up, the exponent field becoming 1 if that reached
   * 2^MANT_SIZE; a shift of 64 or more gives zero.  A normal result rounds the
   * MANT_SIZE + 2 kept bits half up, after the exact-tie correction; a carry
   * into bit MANT_SIZE + 1 raises the exponent, an exponent reaching
   * INFINITE_POWER gives infinity, and the hidden bit is dropped.
   */
  function RoundProductValue(fw: Width, q: i32, lo: u64, hi: u64, lz: nat): (r: ExtendedFloat)
  {
    var m := Shr(hi, KeepShift(fw, hi));
    var p2 := Power2(fw, q, hi, lz);
    DivBounds(hi, Pow2(KeepShift(fw, hi)));
    if p2 <= 0 then SubnormalValue(fw, m, p2)
    else NormalValue(fw, if ExactTie(fw, q, lo, hi) then m - 1 else m, p2)
  }

  /** The subnormal branch, for the kept bits m and power2 <= 0. */
  function SubnormalValue(fw: Width, m: u64, p2: int): ExtendedFloat
    requires p2 <= 0
  {
    if 1 - p2 >= 64 then ExtendedFloat(0, 0)
    else
      var n := RoundHalfUp(Shr(m, 1 - p2));
      assert n < TWO64;
      ExtendedFloat(n, if n >= Pow2(MantSize(fw)) then 1 else 0)
  }

  /** The normal branch, for the kept bits m after the tie correction and power2 > 0. */
  function NormalValue(fw: Width, m: u64, p2: int): ExtendedFloat
  {
    var n := RoundHalfUp(m);
    var e := if n >= 2 * Pow2(MantSize(fw)) then p2 + 1 else p2;
    if e >= InfinitePower(fw) then ExtendedFloat(0, InfinitePower(fw))
    else
      ModAtMost(n, Pow2(MantSize(fw)));
      ExtendedFloat(n % Pow2(MantSize(fw)), e)
  }

  /** The kept bits number MANT_SIZE + 2 at most, and the shift leaves room for them. */
  lemma KeptBits(fw: Width, hi: u64)
    ensures UpperBit(hi) <= 1 && KeepShift(fw, hi) + MantSize(fw) + 2 == 63 + UpperBit(hi)
    ensures Shr(hi, KeepShift(fw, hi)) < 4 * Pow2(MantSize(fw))
    ensures Pow2(62) <= hi ==> 2 * Pow2(MantSize(fw)) <= Shr(hi, KeepShift(fw, hi))
  {
    var u, s, ms := UpperBit(hi), KeepShift(fw, hi), MantSize(fw);
    Pow2Table();
    DivBelow(hi, Pow2(63), 2);
    assert Pow2(ms + 2) * Pow2(s) == Pow2(63 + u) && Pow2(ms + 2) == 4 * Pow2(ms) by {
      PowAdd(2, ms + 2, s);
      PowAdd(2, ms, 2);
    }
    assert hi < Pow2(63 + u) by {
      if u == 0 {
        assert hi < Pow2(63);
      }
    }
    DivBelow(hi, Pow2(s), Pow2(ms + 2));
    if Pow2(62) <= hi {
      assert Pow2(ms + 1) * Pow2(s) <= hi by {
        PowAdd(2, ms + 1, s);
        if u == 0 {
          assert ms + 1 + s == 62;
        } else {
          assert ms + 1 + s == 63;
        }
      }
      PowAdd(2, ms, 1);
      DivMonotone(Pow2(ms + 1) * Pow2(s), hi, Pow2(s));
      DivAddMultiple(Pow2(ms + 1), 0, Pow2(s));
    }
  }

  /** Division by a positive number is monotone. */
  lemma DivMonotone(x: nat, y: nat, d: nat)
    requires d > 0 && x <= y
    ensures x / d <= y / d
  {
    if x / d > y / d {
      MulMonotone(y / d + 1, d, x / d, d);
    }
  }

  /**
   * The second half of `compute_float`, from the product (lo, hi) to the
   * rounded float, with the shifts and masks of the source.
   */
  method RoundProduct(fw: Width, q: i32, lo: u64, hi: u64, lz: nat) returns (r: ExtendedFloat)
    ensures r == RoundProductValue(fw, q, lo, hi, lz)
  {
    var ms := MantSize(fw);
    var upperbit := Shr(hi, 63);
    var shift := upperbit + 64 - ms - 3;
    assert shift == KeepShift(fw, hi);
    var mant: u64 := Shr(hi, shift);
    assert mant < 4 * Pow2(ms) by {
      KeptBits(fw, hi);
    }
    var power2 := Power(q) + upperbit - lz - MinExp(fw);
    assert power2 == Power2(fw, q, hi, lz);
    if power2 <= 0 {
      r := RoundSubnormal(fw, mant, power2);
      return;
    }
    var tie := lo <= 1 && q >= MinExpRoundToEven(fw) && q <= MaxExpRoundToEven(fw)
      && BitAnd(mant, 3) == 1 && Shl64(mant, shift) == hi;
    assert tie == ExactTie(fw, q, lo, hi) by {
      LowBits(mant, 2);
      KeptBitsExact(hi, shift);
    }
    ghost var m := mant;
    if tie {
      ClearLowBit(mant);
      mant := BitAnd(mant, TWO64 - 1 - 1);
    }
    assert mant == if ExactTie(fw, q, lo, hi) then m - 1 else m;
    r := RoundNormal(fw, mant, power2);
    assert r == NormalValue(fw, if ExactTie(fw, q, lo, hi) then m - 1 else m, Power2(fw, q, hi, lz));
  }

  /** The subnormal branch of `compute_float`. */
  method RoundSubnormal(fw: Width, mant0: u64, power2: int) returns (r: ExtendedFloat)
    requires power2 <= 0
    ensures r == SubnormalValue(fw, mant0, power2)
  {
    if -power2 + 1 >= 64 {
      return ExtendedFloat(0, 0);
    }
    var mant := Shr(mant0, -power2 + 1);
    mant := mant + LowBit(mant);
    mant := Shr(mant, 1);
    var hidden := Shl64(1, MantSize(fw));
    assert hidden == Pow2(MantSize(fw)) by {
      Pow2Below64(MantSize(fw));
    }
    var exp := if mant >= hidden then 1 else 0;
    r := ExtendedFloat(mant, exp);
  }

  /** The normal branch of `compute_float`, after the tie correction. */
  method RoundNormal(fw: Width, mant0: u64, power2: int) returns (r: ExtendedFloat)
    requires mant0 < 4 * Pow2(MantSize(fw))
    ensures r == NormalValue(fw, mant0, power2)
  {
    var ms := MantSize(fw);
    var hidden := Shl64(1, ms);
    var carry := Shl64(2, ms);
    assert hidden == Pow2(ms) && carry == 2 * hidden by {
      HiddenAndCarry(ms);
    }
    var exp := power2;
    var mant := mant0 + LowBit(mant0);
    mant := Shr(mant, 1);
    ghost var n := mant;
    assert n <= carry;
    if mant >= carry {
      mant := hidden;
      exp := exp + 1;
    }
    ghost var fixed := mant;
    AndNotBit(mant, ms);
    mant := BitAnd(mant, TWO64 - 1 - hidden);
    assert mant == n % hidden by {
      ClearTopBit(n, fixed, mant, ms);
    }
    if exp >= InfinitePower(fw) {
      return ExtendedFloat(0, InfinitePower(fw));
    }
    r := ExtendedFloat(mant, exp);
  }

  /** `x & !1` clears the low bit. */
  lemma ClearLowBit(x: u64)
    ensures BitAnd(x, TWO64 - 1 - 1) == x - x % 2
  {
    AndNotBit(x, 0);
    assert Pow2(0) == 1;
  }

  /** `1 << k` and `2 << k` for the mantissa sizes. */
  lemma HiddenAndCarry(k: nat)
    requires k < 63
    ensures Shl64(1, k) == Pow2(k) && Shl64(2, k) == 2 * Pow2(k)
  {
    Pow2Below64(k + 1);
    assert Pow2(k + 1) == 2 * Pow2(k);
    SmallDiv(Pow2(k), TWO64);
    SmallDiv(2 * Pow2(k), TWO64);
  }

  /** `x & 1`, the low bit. */
  function LowBit(x: nat): (b: nat)
    ensures b == x % 2
  {
    LowBits(x, 1);
    BitAnd(x, 1)
  }

  /** `x & (2^k - 1)` is x mod 2^k, for k of 1 and 2. */
  lemma LowBits(x: nat, k: nat)
    requires 1 <= k <= 2
    ensures BitAnd(x, Pow2(k) - 1) == x % Pow2(k) && Pow2(1) == 2 && Pow2(2) == 4
  {
    BitAndLowMask(x, k);
    assert Pow2(1) == 2 && Pow2(2) == 4;
  }

  /** `m << s` with m the kept bits of hi is hi with the bits below s cleared, so it never wraps. */
  lemma KeptBitsExact(hi: u64, s: nat)
    ensures Shl64(Shr(hi, s), s) == Shr(hi, s) * Pow2(s)
  {
    SplitAt(hi, s);
    SmallDiv(Shr(hi, s) * Pow2(s), TWO64);
  }

  /** Clearing bit k of n <= 2^(k+1) after the carry fix-up leaves n mod 2^k. */
  lemma ClearTopBit(n: nat, fixed: nat, cleared: nat, k: nat)
    requires n <= 2 * Pow2(k)
    requires fixed == if n >= 2 * Pow2(k) then Pow2(k) else n
    requires cleared == fixed - (fixed / Pow2(k) % 2) * Pow2(k)
    ensures cleared == n % Pow2(k)
  {
    var p := Pow2(k);
    if n >= 2 * p {
      DivAddMultiple(1, 0, p);
      DivAddMultiple(2, 0, p);
    } else if n >= p {
      DivAddMultiple(1, n - p, p);
      SmallDiv(n - p, p);
    } else {
      SmallDiv(n, p);
    }
  }

  /** `w << lz` with lz the leading zeros of w: the significand with its top bit set. */
  function Normalize(w: u64): (r: u64)
    requires w > 0
    ensures Pow2(63) <= r && r == w * Pow2(LeadingZeros64(w))
  {
    LeadingZerosNormalises(w);
    SmallDiv(w * Pow2(LeadingZeros64(w)), TWO64);
    Shl64(w, LeadingZeros64(w))
  }

  /**
   * What `compute_float(q, w)` returns: zero for a zero significand or q
   * below SMALLEST_POWER_OF_TEN, infinity for q above LARGEST_POWER_OF_TEN,
   * and otherwise the rounding of the product of the normalised significand
   * with the power of five.
   */
  function ComputeFloatValue(fw: Width, t: seq<(u64, u64)>, q: i32, w: u64): ExtendedFloat
    requires IsPowerOfFiveTable(t)
  {
    if w == 0 || q < SmallestPowerOfTen(fw) then ExtendedFloat(0, 0)
    else if q > LargestPowerOfTen(fw) then ExtendedFloat(0, InfinitePower(fw))
    else
      var v := ProductApproxValue(t[q - SMALLEST_POWER_OF_FIVE], Normalize(w), MantSize(fw) + 3);
      DivBelow(v, TWO64, TWO64);
      RoundProductValue(fw, q, v % TWO64, v / TWO64, LeadingZeros64(w))
  }

  /** `compute_float`. */
  method ComputeFloat(fw: Width, t: seq<(u64, u64)>, q: i32, w0: u64) returns (r: ExtendedFloat)
    requires IsPowerOfFiveTable(t)
    ensures r == ComputeFloatValue(fw, t, q, w0)
  {
    var fpZero := ExtendedFloat(0, 0);
    var fpInf := ExtendedFloat(0, InfinitePower(fw));
    if w0 == 0 || q < SmallestPowerOfTen(fw) {
      return fpZero;
    } else if q > LargestPowerOfTen(fw) {
      return fpInf;
    }
    var lz := LeadingZeros64(w0);
    var w := Shl64(w0, lz);
    assert w == Normalize(w0);
    PowerOfTenRange(fw);
    var lo, hi := ComputeProductApprox(t, q, w, MantSize(fw) + 3);
    ghost var v := ProductApproxValue(t[q - SMALLEST_POWER_OF_FIVE], w, MantSize(fw) + 3);
    assert v / TWO64 == hi && v % TWO64 == lo by {
      DivAddMultiple(hi, lo, TWO64);
      SmallDiv(lo, TWO64);
    }
    r := RoundProduct(fw, q, lo, hi, lz);
  }

  /**
   * Every result of `compute_float` has a shape `extended_to_float` expects
   * and a non-negative exponent: zero, infinity, a subnormal with exponent 0
   * or 1 (1 exactly when rounding reached 2^MANT_SIZE), or a normal number
   * without hidden bit and exponent in (0, INFINITE_POWER).
   */
  lemma RoundProductShapes(fw: Width, q: i32, lo: u64, hi: u64, lz: nat)
    ensures var r := RoundProductValue(fw, q, lo, hi, lz);
            && Packable(fw, r) && r.exp >= 0
            && (Power2(fw, q, hi, lz) <= 0 ==>
                  r.mant <= Pow2(MantSize(fw)) && (r.exp == 1 <==> r.mant == Pow2(MantSize(fw))) && r.exp <= 1)
            && (Power2(fw, q, hi, lz) > 0 ==>
                  r == ExtendedFloat(0, InfinitePower(fw)) || (r.mant < Pow2(MantSize(fw)) && 0 < r.exp < InfinitePower(fw)))
  {
    var m := Shr(hi, KeepShift(fw, hi));
    var p2 := Power2(fw, q, hi, lz);
    KeptBits(fw, hi);
    if p2 <= 0 {
      assert RoundProductValue(fw, q, lo, hi, lz) == SubnormalValue(fw, m, p2);
      SubnormalValueShape(fw, m, p2);
    } else {
      var tie := ExactTie(fw, q, lo, hi);
      if tie {
        TieKeepsOne(fw, q, lo, hi);
      }
      var m': u64 := if tie then m - 1 else m;
      assert RoundProductValue(fw, q, lo, hi, lz) == NormalValue(fw, m', p2);
      NormalValueBounds(fw, m', p2);
    }
  }

  /** The kept bits of an exact tie are not zero, so the tie correction stays non-negative. */
  lemma TieKeepsOne(fw: Width, q: i32, lo: u64, hi: u64)
    requires ExactTie(fw, q, lo, hi)
    ensures Shr(hi, KeepShift(fw, hi)) >= 1
  {
    var m := Shr(hi, KeepShift(fw, hi));
    assert m % 4 == 1;
    assert m != 0;
  }

  /** A subnormal result has at most the hidden bit, and exponent 1 exactly when it has it. */
  lemma SubnormalValueShape(fw: Width, m: u64, p2: int)
    requires p2 <= 0 && m < 4 * Pow2(MantSize(fw))
    ensures var r := SubnormalValue(fw, m, p2);
            && Packable(fw, r) && 0 <= r.exp <= 1
            && r.mant <= Pow2(MantSize(fw)) && (r.exp == 1 <==> r.mant == Pow2(MantSize(fw)))
  {
    var ms := MantSize(fw);
    MaskValues(fw);
    if 1 - p2 < 64 {
      var k := 1 - p2;
      var m' := Shr(m, k);
      assert m' < 2 * Pow2(ms) by {
        DivMonotone(m, 4 * Pow2(ms) - 1, Pow2(k));
        ShiftedAtLeastOne(4 * Pow2(ms) - 1, k, 2 * Pow2(ms));
      }
    }
  }

  /** A normal result is infinity or a mantissa below the hidden bit with an exponent in range. */
  lemma NormalValueBounds(fw: Width, m: u64, p2: int)
    requires 0 < p2 && m < 4 * Pow2(MantSize(fw))
    ensures var r := NormalValue(fw, m, p2);
            && Packable(fw, r) && r.exp >= 0
            && (r == ExtendedFloat(0, InfinitePower(fw)) || (r.mant < Pow2(MantSize(fw)) && 0 < r.exp < InfinitePower(fw)))
  {
    var ms := MantSize(fw);
    MaskValues(fw);
    var n := RoundHalfUp(m);
    assert n <= 2 * Pow2(ms);
    ModAtMost(n, Pow2(ms));
  }

  /** Shifting right by at least one halves the bound. */
  lemma ShiftedAtLeastOne(x: nat, k: nat, b: nat)
    requires k >= 1 && x < 2 * b
    ensures x / Pow2(k) < b
  {
    PowAdd(2, 1, k - 1);
    assert Pow2(1) == 2;
    DivDiv(x, 1, k - 1);
    DivBelow(x, 2, b);
    DivBounds(x / 2, Pow2(k - 1));
  }

  /** The cases of `compute_float`: zero, infinity, or one of the shapes of RoundProductShapes. */
  lemma ComputeFloatShapes(fw: Width, t: seq<(u64, u64)>, q: i32, w: u64)
    requires IsPowerOfFiveTable(t)
    ensures Packable(fw, ComputeFloatValue(fw, t, q, w)) && ComputeFloatValue(fw, t, q, w).exp >= 0
    ensures w == 0 || q < SmallestPowerOfTen(fw) ==> ComputeFloatValue(fw, t, q, w) == ExtendedFloat(0, 0)
    ensures w != 0 && q > LargestPowerOfTen(fw) ==> ComputeFloatValue(fw, t, q, w) == ExtendedFloat(0, InfinitePower(fw))
  {
    MaskValues(fw);
    if w != 0 && SmallestPowerOfTen(fw) <= q <= LargestPowerOfTen(fw) {
      var v := ProductApproxValue(t[q - SMALLEST_POWER_OF_FIVE], Normalize(w), MantSize(fw) + 3);
      DivBelow(v, TWO64, TWO64);
      RoundProductShapes(fw, q, v % TWO64, v / TWO64, LeadingZeros64(w));
    }
  }

  /**
   * With a normalised significand and a table word with its top bit set (as a
   * power of five scaled to 128 bits has), the product's high word has one
   * of its top two bits set.
   */
  lemma ProductTopBits(e: (u64, u64), w: u64, precision: nat)
    requires Pow2(63) <= w && Pow2(63) <= e.0
    ensures Pow2(62) <= ProductApproxValue(e, w, precision) / TWO64
  {
    Pow2Table();
    MulMonotone(Pow2(63), Pow2(63), w, e.0);
    assert Pow2(63) * Pow2(63) == Pow2(62) * TWO64 by {
      PowAdd(2, 63, 63);
      PowAdd(2, 62, 64);
    }
    DivMonotone(Pow2(62) * TWO64, ProductApproxValue(e, w, precision), TWO64);
    DivAddMultiple(Pow2(62), 0, TWO64);
  }

  /**
   * In the normal branch a high word with one of its top two bits set gives
   * a rounded significand that still has its hidden bit: the hidden bit plus
   * the stored mantissa, doubled when the exponent took the carry, is the
   * rounded value of the kept bits.
   */
  lemma NormalKeepsHiddenBit(fw: Width, q: i32, lo: u64, hi: u64, lz: nat)
    requires Pow2(62) <= hi && Power2(fw, q, hi, lz) > 0
    ensures var r := RoundProductValue(fw, q, lo, hi, lz);
            var p2 := Power2(fw, q, hi, lz);
            var m := Shr(hi, KeepShift(fw, hi));
            var n := RoundHalfUp(if ExactTie(fw, q, lo, hi) then m - 1 else m);
            r != ExtendedFloat(0, InfinitePower(fw)) ==>
              (r.exp == p2 || r.exp == p2 + 1) && (Pow2(MantSize(fw)) + r.mant) * (if r.exp == p2 then 1 else 2) == n
  {
    var m := Shr(hi, KeepShift(fw, hi));
    KeptBits(fw, hi);
    var tie := ExactTie(fw, q, lo, hi);
    if tie {
      TieKeepsOne(fw, q, lo, hi);
    }
    var m': u64 := if tie then m - 1 else m;
    NormalValueShape(fw, m', Power2(fw, q, hi, lz));
  }

  /** A normal result keeps the hidden bit: n is the mantissa with it, doubled on a carry. */
  lemma NormalValueShape(fw: Width, m: u64, p2: int)
    requires 2 * Pow2(MantSize(fw)) - 1 <= m < 4 * Pow2(MantSize(fw))
    ensures var r := NormalValue(fw, m, p2);
            var n := RoundHalfUp(m);
            r != ExtendedFloat(0, InfinitePower(fw)) ==>
              (r.exp == p2 || r.exp == p2 + 1) && (Pow2(MantSize(fw)) + r.mant) * (if r.exp == p2 then 1 else 2) == n
  {
    var p := Pow2(MantSize(fw));
    var n := RoundHalfUp(m);
    assert p <= n <= 2 * p;
    if n < 2 * p {
      DivAddMultiple(1, n - p, p);
      SmallDiv(n - p, p);
    } else {
      DivAddMultiple(2, 0, p);
    }
  }

  // ---------------------------------------------------------- compute_error

  /**
   * `compute_error_scaled(q, w, lz)`: w shifted left once more when its top
   * bit is clear, with the exponent power(q) + EXP_BIAS - hilz - lz - 62
   * marked by INVALID_FP.  For the exponents of the table the mark makes the
   * exponent negative, which no result of `compute_float` is.
   */
  function ComputeErrorScaled(fw: Width, q: i32, w: u64, lz: int): (r: ExtendedFloat)
    ensures Pow2(63) <= w ==> r.mant == w
    ensures Pow2(62) <= w < Pow2(63) ==> r.mant == 2 * w
    ensures SMALLEST_POWER_OF_FIVE <= q <= LARGEST_POWER_OF_FIVE && 0 <= lz ==> r.exp < 0
    ensures r.exp - INVALID_FP == Power(q) + ExpBias(fw) - (if Pow2(63) <= w then 0 else 1) - lz - 62
  {
    var top := Shr(w, 63);
    var hilz := BitXor(top, 1);
    var w' := Shl64(w, hilz);
    TopBitShift(w);
    var power2 := Power(q) + ExpBias(fw) - hilz - lz - 62;
    assert SMALLEST_POWER_OF_FIVE <= q <= LARGEST_POWER_OF_FIVE ==> Power(q) <= 1086 by {
      if SMALLEST_POWER_OF_FIVE <= q <= LARGEST_POWER_OF_FIVE {
        PowerRange(q);
      }
    }
    ExtendedFloat(w', power2 + INVALID_FP)
  }

  /** `(w >> 63) ^ 1` is 1 exactly when the top bit is clear, and shifting by it sets the top bit of w >= 2^62. */
  lemma TopBitShift(w: u64)
    ensures var hilz := BitXor(Shr(w, 63), 1);
            && hilz == (if Pow2(63) <= w then 0 else 1)
            && (Pow2(63) <= w ==> Shl64(w, hilz) == w)
            && (Pow2(62) <= w < Pow2(63) ==> Shl64(w, hilz) == 2 * w)
  {
    var top := Shr(w, 63);
    Pow2Table();
    DivBelow(w, Pow2(63), 2);
    assert top == 1 <==> Pow2(63) <= w by {
      if Pow2(63) <= w {
        DivMonotone(Pow2(63), w, Pow2(63));
        DivAddMultiple(1, 0, Pow2(63));
      } else {
        SmallDiv(w, Pow2(63));
      }
    }
    FlipBit(top);
    if Pow2(63) <= w {
      assert Pow2(0) == 1;
      SmallDiv(w, TWO64);
    } else if Pow2(62) <= w {
      assert Pow2(1) == 2;
      SmallDiv(2 * w, TWO64);
    }
  }

  /** `b ^ 1` flips a single bit. */
  lemma FlipBit(b: nat)
    requires b <= 1
    ensures BitXor(b, 1) == 1 - b
  {
    Unfold(b, 1);
    Unfold(b / 2, 0);
  }

  /**
   * `compute_error(q, w)`: the high word of the product of the normalised
   * significand with the power of five, unrounded, for the exact path to
   * finish.  A zero significand shifts by 64, which a release build masks
   * to a shift by 0.
   */
  function ComputeError(fw: Width, t: seq<(u64, u64)>, q: i32, w: u64): (r: ExtendedFloat)
    requires IsPowerOfFiveTable(t) && SMALLEST_POWER_OF_FIVE <= q <= LARGEST_POWER_OF_FIVE
    ensures r.exp < 0
  {
    var lz := LeadingZeros64(w);
    var normalized := if w == 0 then 0 else Normalize(w);
    var v := ProductApproxValue(t[q - SMALLEST_POWER_OF_FIVE], normalized, MantSize(fw) + 3);
    DivBelow(v, TWO64, TWO64);
    var hi := v / TWO64;
    ComputeErrorScaled(fw, q, hi, lz)
  }

  // --------------------------------------------------------------- moderate

  /**
   * `moderate`: compute_float(exp, mant); when digits were dropped from the
   * significand (many_digits) and rounding mant and mant + 1 disagree, the
   * truncation decides the result, so the unrounded product is returned with
   * the INVALID_FP mark instead.  A negative exponent marks exactly that case.
   * The lexer's significand has nineteen digits when many_digits holds, so
   * it is not zero and mant + 1 does not wrap.
   */
  method Moderate(fw: Width, t: seq<(u64, u64)>, num: Number) returns (fp: ExtendedFloat)
    requires IsPowerOfFiveTable(t)
    requires num.manyDigits ==> 0 < num.mant < TWO64 - 1
    ensures fp.exp < 0 <==>
      num.manyDigits && ComputeFloatValue(fw, t, num.exp, num.mant) != ComputeFloatValue(fw, t, num.exp, num.mant + 1)
    ensures fp.exp >= 0 ==> fp == ComputeFloatValue(fw, t, num.exp, num.mant) && Packable(fw, fp)
    ensures fp.exp < 0 ==> SMALLEST_POWER_OF_FIVE <= num.exp <= LARGEST_POWER_OF_FIVE && fp == ComputeError(fw, t, num.exp, num.mant)
  {
    fp := ComputeFloat(fw, t, num.exp, num.mant);
    ComputeFloatShapes(fw, t, num.exp, num.mant);
    if num.manyDigits && fp.exp >= 0 {
      var next := ComputeFloat(fw, t, num.exp, num.mant + 1);
      if fp != next {
        ComputeFloatShapes(fw, t, num.exp, num.mant + 1);
        PowerOfTenRange(fw);
        fp := ComputeError(fw, t, num.exp, num.mant);
      }
    }
  }
}
