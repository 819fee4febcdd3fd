/**
 * Rounding an ExtendedFloat to the precision of the target format.
 *
 * The Rust functions take the ExtendedFloat by `&mut` and update its two
 * fields step by step; here they are methods taking the old value and
 * returning the new one.  The callback that `round` receives is one of the two
 * shift-and-round steps, which is what `Rounder` enumerates: `round_down`, or
 * `round_nearest_tie_even` with the closure that decides, from
 * (is_odd, is_halfway, is_above), whether to round up.
 */
module Rounding {
  import opened Arith
  import opened Layout

  datatype Rounder =
    | Down
    | NearestTieEven(decide: (bool, bool, bool) -> bool)

  /** The value `round_down` produces: the mantissa shifted right, the exponent raised. */
  function Truncate(fp: ExtendedFloat, shift: nat): ExtendedFloat
  {
    ExtendedFloat(fp.mant / Pow2(shift), fp.exp + shift)
  }

  /** The halfway point of the bits shifted out: 2^(shift - 1), and 0 for shift 0. */
  function Halfway(shift: nat): nat
  {
    if shift == 0 then 0 else Pow2(shift - 1)
  }

  /**
   * The value `round_nearest_tie_even` produces: the truncated mantissa plus
   * one when `decide` says so, given the low bit of the truncated mantissa and
   * how the dropped bits compare with the halfway point.  The increment wraps
   * like the plain `+=` of a release build; it can only do so for shift 0.
   */
  function Nearest(fp: ExtendedFloat, shift: nat, decide: (bool, bool, bool) -> bool): ExtendedFloat
  {
    var q := fp.mant / Pow2(shift);
    var t := fp.mant % Pow2(shift);
    var up := decide(q % 2 == 1, t == Halfway(shift), t > Halfway(shift));
    ExtendedFloat((q + if up then 1 else 0) % TWO64, fp.exp + shift)
  }

  /** The value the callback `cb(fp, shift)` produces. */
  function Apply(cb: Rounder, fp: ExtendedFloat, shift: nat): ExtendedFloat
  {
    match cb
    case Down => Truncate(fp, shift)
    case NearestTieEven(decide) => Nearest(fp, shift, decide)
  }

  /** `round_down`: truncates the low `shift` bits. */
  method RoundDown(fp: ExtendedFloat, shift: int) returns (r: ExtendedFloat)
    requires 0 <= shift <= 64
    ensures r == Truncate(fp, shift)
    ensures r.mant * Pow2(shift) <= fp.mant < (r.mant + 1) * Pow2(shift)
  {
    var p := Pow2(shift);
    var q := fp.mant / p;
    assert q < TWO64 && (shift == 64 ==> q == 0) by {
      NearestFacts(fp.mant, shift);
    }
    r := fp;
    r := r.(mant := if shift == 64 then 0 else q);
    r := r.(exp := r.exp + shift);
    FloorBounds(fp.mant, p);
  }

  /** The quotient of a division is the floor: q * d <= x < (q + 1) * d. */
  lemma FloorBounds(x: nat, d: nat)
    requires d > 0
    ensures (x / d) * d <= x < (x / d + 1) * d
  {
  }

  /** The floor bounds determine the quotient. */
  lemma FloorUnique(x: nat, d: nat, q: nat)
    requires d > 0 && q * d <= x < (q + 1) * d
    ensures q == x / d
  {
    DivUnique(x, d, q, x - q * d);
  }

  /** The floor bounds RoundDown promises pin its result down to `Truncate`. */
  lemma RoundDownIsTruncate(fp: ExtendedFloat, shift: nat, r: ExtendedFloat)
    requires shift <= 64
    requires r.exp == fp.exp + shift
    requires r.mant * Pow2(shift) <= fp.mant < (r.mant + 1) * Pow2(shift)
    ensures r == Truncate(fp, shift)
  {
    FloorUnique(fp.mant, Pow2(shift), r.mant);
  }

  /**
   * `round_nearest_tie_even`: shifts right by `shift` and adds the rounding
   * decision, taken from the low bit of the shifted mantissa and from how the
   * dropped bits (selected with the mask 2^shift - 1) compare with the halfway
   * point 2^(shift - 1).
   */
  method RoundNearestTieEven(fp: ExtendedFloat, shift: int, decide: (bool, bool, bool) -> bool)
    returns (r: ExtendedFloat)
    requires 0 <= shift <= 64
    ensures r == Nearest(fp, shift, decide)
  {
    var p := Pow2(shift);
    var q := fp.mant / p;
    assert q < TWO64 && (shift == 64 ==> q == 0) by {
      NearestFacts(fp.mant, shift);
    }
    r := fp;
    r := r.(mant := if shift == 64 then 0 else q);
    r := r.(exp := r.exp + shift);

    var mask: nat := if shift == 64 then TWO64 - 1 else p - 1;
    var halfway: nat := if shift == 0 then 0 else Pow2(shift - 1);
    var truncatedBits := BitAnd(fp.mant, mask);
    assert truncatedBits == fp.mant % p by {
      NearestFacts(fp.mant, shift);
      BitAndLowMask(fp.mant, shift);
    }
    var isAbove := truncatedBits > halfway;
    var isHalfway := truncatedBits == halfway;

    var isOdd := BitAnd(r.mant, 1) == 1;
    assert isOdd <==> q % 2 == 1 by {
      BitAndLowMask(r.mant, 1);
      Pow2Table();
    }
    var up := decide(isOdd, isHalfway, isAbove);
    r := r.(mant := (r.mant + if up then 1 else 0) % TWO64);
  }

  /** Bounds on a 64-bit mantissa shifted right by `shift`. */
  lemma ShiftFacts(m: u64, shift: nat)
    requires shift <= 64
    ensures 0 <= m / Pow2(shift) <= m
    ensures shift > 0 ==> m / Pow2(shift) < TWO64 - 1
    ensures shift == 64 ==> Pow2(shift) == TWO64 && m / Pow2(shift) == 0
  {
    DivBounds(m, Pow2(shift));
    if shift > 0 {
      var q := m / Pow2(shift);
      assert q < Pow2(64 - shift) by {
        ShiftedBelow(m, shift);
      }
      assert Pow2(64 - shift) <= Pow2(63) by {
        PowMonotone(2, 64 - shift, 63);
      }
      Pow2Table();
    }
  }

  /**
   * The facts linking the bit tests of `round_nearest_tie_even` to
   * arithmetic: the dropped bits are m % 2^shift, and comparing them with the
   * halfway point is comparing twice them with 2^shift.
   */
  lemma NearestFacts(m: u64, shift: nat)
    requires shift <= 64
    ensures var q := m / Pow2(shift);
            var t := m - q * Pow2(shift);
            t == m % Pow2(shift) &&
            (shift > 0 ==> (t == Pow2(shift - 1) <==> 2 * t == Pow2(shift))) &&
            (shift > 0 ==> (t > Pow2(shift - 1) <==> 2 * t > Pow2(shift))) &&
            (shift == 0 ==> t == 0)
    ensures m / Pow2(shift) <= m
    ensures shift > 0 ==> m / Pow2(shift) < TWO64 - 1
    ensures shift == 64 ==> Pow2(shift) == TWO64 && m / Pow2(shift) == 0
  {
    ShiftFacts(m, shift);
    var p := Pow2(shift);
    var q := m / p;
    var t := m - q * p;
    assert t == m % p by { DivModPow2(m, shift); }
    if shift == 0 {
      assert p == 1;
    } else {
      assert p == 2 * Pow2(shift - 1);
    }
  }

  /** The usual tie-to-even decision: up when above halfway, or at halfway with an odd mantissa. */
  function TieEven(isOdd: bool, isHalfway: bool, isAbove: bool): bool
  {
    isAbove || (isOdd && isHalfway)
  }

  /**
   * With the usual decision, `Nearest` is round-to-nearest, ties-to-even
   * (roundTiesToEven, section 4.3.1 of IEEE 754-2019) of mant / 2^shift:
   * the result is within half a unit of it, and an exact tie picks the even
   * neighbour.
   */
  lemma NearestTieEvenRounds(fp: ExtendedFloat, shift: nat)
    requires 0 < shift <= 64
    ensures var r := Nearest(fp, shift, TieEven).mant;
            var d: int := r * Pow2(shift) - fp.mant;
            2 * d <= Pow2(shift) && 0 <= 2 * d + Pow2(shift) &&
            ((2 * d == Pow2(shift) || 2 * d + Pow2(shift) == 0) ==> r % 2 == 0)
  {
    var p, h := Pow2(shift), Halfway(shift);
    var q, t := fp.mant / p, fp.mant % p;
    var r := q + if TieEven(q % 2 == 1, t == h, t > h) then 1 else 0;
    assert 0 <= q < TWO64 - 1 by {
      ShiftFacts(fp.mant, shift);
    }
    assert r % TWO64 == r by {
      SmallDiv(r, TWO64);
    }
    assert Nearest(fp, shift, TieEven).mant == r % TWO64;
    var d: int := r * p - fp.mant;
    assert 2 * d <= p && 0 <= 2 * d + p && ((2 * d == p || 2 * d + p == 0) ==> r % 2 == 0) by {
      DivModPow2(fp.mant, shift);
      TieEvenStep(fp.mant, q, t, p, h, r);
    }
  }

  /** The arithmetic of one tie-to-even step on the quotient q and remainder t of m / p. */
  lemma TieEvenStep(m: int, q: int, t: int, p: int, h: int, r: int)
    requires p == 2 * h && h >= 1 && 0 <= t < p && m == q * p + t
    requires r == q + if TieEven(q % 2 == 1, t == h, t > h) then 1 else 0
    ensures 2 * (r * p - m) <= p && 0 <= 2 * (r * p - m) + p
    ensures (2 * (r * p - m) == p || 2 * (r * p - m) + p == 0) ==> r % 2 == 0
  {
    if r == q + 1 {
      assert r * p - m == p - t by {
        MulDistrib(q, 1, p);
      }
    } else {
      assert r * p - m == -t;
    }
  }

  /** The callback step: `cb(fp, shift)`. */
  method ApplyRounder(cb: Rounder, fp: ExtendedFloat, shift: int) returns (r: ExtendedFloat)
    requires 0 <= shift <= 64
    ensures r == Apply(cb, fp, shift)
  {
    match cb {
      case Down =>
        r := RoundDown(fp, shift);
      case NearestTieEven(decide) =>
        r := RoundNearestTieEven(fp, shift, decide);
    }
  }

  // ---------------------------------------------------------------- round

  /** `64 - MANT_SIZE - 1`: the shift that leaves MANT_SIZE + 1 significant bits. */
  function MantissaShift(w: Width): nat { 64 - MantSize(w) - 1 }

  function Min(a: int, b: int): int { if a < b then a else b }

  /** Holds when the carry bit CARRY_MASK (bit MANT_SIZE + 1) is set. */
  predicate HasCarry(w: Width, mant: nat)
  {
    mant / CarryMask(w) % 2 == 1
  }

  /** The value `round` produces, branch by branch. */
  function RoundSpec(w: Width, fp: ExtendedFloat, cb: Rounder): ExtendedFloat
  {
    var ms := MantissaShift(w);
    if -fp.exp >= ms then
      var a := Apply(cb, fp, Min(-fp.exp + 1, 64));
      ExtendedFloat(a.mant, if a.mant >= HiddenBitMask(w) then 1 else 0)
    else
      var a := Apply(cb, fp, ms);
      var c := if HasCarry(w, a.mant) then ExtendedFloat(a.mant / 2, a.exp + 1) else a;
      if c.exp >= InfinitePower(w) then ExtendedFloat(0, InfinitePower(w))
      else
        ModAtMost(c.mant, Pow2(MantSize(w)));
        ExtendedFloat(c.mant % Pow2(MantSize(w)), c.exp)
  }

  /**
   * The shapes `extended_to_float` expects: infinity (mantissa 0, exponent
   * INFINITE_POWER); a mantissa without hidden bit below 2^MANT_SIZE under a
   * biased exponent in [0, INFINITE_POWER); or a subnormal that rounded up to
   * exactly 2^MANT_SIZE, which comes with exponent 1.
   */
  predicate Packable(w: Width, r: ExtendedFloat)
  {
    (r.mant == 0 && r.exp == InfinitePower(w))
    || (r.mant < Pow2(MantSize(w)) && 0 <= r.exp < InfinitePower(w))
    || (r.mant == Pow2(MantSize(w)) && r.exp == 1)
  }

  /**
   * `round`: rounds fp to MANT_SIZE + 1 significant bits with the callback,
   * handling the subnormal range (fp.exp <= -(64 - MANT_SIZE - 1)), the carry
   * out of the top bit, overflow to infinity, and clearing the hidden bit.
   */
  method Round(w: Width, fp: ExtendedFloat, cb: Rounder) returns (r: ExtendedFloat)
    ensures r == RoundSpec(w, fp, cb)
    ensures Packable(w, r)
    ensures -fp.exp >= MantissaShift(w) ==> r.exp == 0 || r.exp == 1
  {
    var fpInf := ExtendedFloat(0, InfinitePower(w));
    var mantissaShift := 64 - MantSize(w) - 1;
    r := fp;
    if -r.exp >= mantissaShift {
      var shift := -r.exp + 1;
      r := ApplyRounder(cb, r, Min(shift, 64));
      r := r.(exp := if r.mant >= HiddenBitMask(w) then 1 else 0);
      RoundSpecPackable(w, fp, cb);
      return;
    }

    r := ApplyRounder(cb, r, mantissaShift);

    var carryMask := CarryMask(w);
    CarryBit(w, r.mant);
    if BitAnd(r.mant, carryMask) == carryMask {
      r := r.(mant := r.mant / 2);
      r := r.(exp := r.exp + 1);
    }

    if r.exp >= InfinitePower(w) {
      r := fpInf;
      RoundSpecPackable(w, fp, cb);
      return;
    }

    MaskValues(w);
    BitAndLowMask(r.mant, MantSize(w));
    r := r.(mant := BitAnd(r.mant, MantMask(w)));
    RoundSpecPackable(w, fp, cb);
  }

  lemma CarryBit(w: Width, mant: nat)
    ensures BitAnd(mant, CarryMask(w)) == CarryMask(w) <==> HasCarry(w, mant)
  {
    DerivedConstants(w);
    PowAdd(2, 1, MantSize(w));
    BitAndSingleBit(mant, MantSize(w) + 1);
  }

  /** A callback with a positive shift leaves at most the truncated mantissa plus one. */
  lemma ApplyBounds(cb: Rounder, fp: ExtendedFloat, shift: nat)
    requires 0 < shift <= 64
    ensures Apply(cb, fp, shift).exp == fp.exp + shift
    ensures fp.mant / Pow2(shift) <= Apply(cb, fp, shift).mant <= fp.mant / Pow2(shift) + 1
  {
    var q := fp.mant / Pow2(shift);
    assert 0 <= q < TWO64 - 1 by {
      ShiftFacts(fp.mant, shift);
    }
    match cb {
      case Down =>
      case NearestTieEven(decide) =>
        assert q % TWO64 == q && (q + 1) % TWO64 == q + 1 by {
          SmallDiv(q, TWO64);
          SmallDiv(q + 1, TWO64);
        }
    }
  }

  /** Every result of `round` has one of the shapes `extended_to_float` expects. */
  lemma RoundSpecPackable(w: Width, fp: ExtendedFloat, cb: Rounder)
    ensures Packable(w, RoundSpec(w, fp, cb))
    ensures -fp.exp >= MantissaShift(w) ==> RoundSpec(w, fp, cb).exp in {0, 1}
  {
    var ms := MantissaShift(w);
    var m := MantSize(w);
    MaskValues(w);
    DerivedConstants(w);
    if -fp.exp >= ms {
      var s := Min(-fp.exp + 1, 64);
      ApplyBounds(cb, fp, s);
      ShiftedBelow(fp.mant, s);
      PowMonotone(2, 64 - s, m);
    } else {
      ApplyBounds(cb, fp, ms);
    }
  }
}
