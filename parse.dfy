/**
 * `parse`, the entry point of the parse side: it lexes the literal, tries
 * the fast path, then the moderate (Eisel-Lemire) path, and when that path
 * could not round the value, the exact path `slow`; the result is packed
 * into the bits of the format and negated for a leading `-`.
 *
 * The fast path is native floating-point arithmetic; here it is a
 * parameter, a function from the token to the bits it produced, or None
 * when it does not apply.  The tables POWER_OF_FIVE_128 and LARGE_POW5 are
 * parameters constrained by IsPowerOfFiveTable and LargePow5Table.  Every
 * `unwrap` that panics is a None result.
 */
module Parse {
  import opened Arith
  import opened Layout
  import opened Rounding
  import opened Tokens
  import opened BigInt
  import opened Moderate
  import opened Slow

  /** The significand of a well-formed literal fits in 64 bits, and has nineteen digits when truncated. */
  lemma MantFits(d: seq<u8>)
    requires !Malformed(d)
    ensures 0 <= Mant(d) < TWO64
    ensures ManyDigits(d) ==> MINIMAL_NINETEEN_DIGIT_INTEGER <= Mant(d) < 10 * MINIMAL_NINETEEN_DIGIT_INTEGER
  {
    if ManyDigits(d) {
      ManyDigitsTruncates(d);
      Pow10Table();
    }
  }

  /** The token `parse_into_tokens` produces for a well-formed literal. */
  function TokenOf(d: seq<u8>): (tok: Number)
    requires |d| < 0x1000_0000 && !Malformed(d)
    ensures AllDigits(tok.integer) && AllDigits(tok.fraction)
    ensures tok.manyDigits ==> MINIMAL_NINETEEN_DIGIT_INTEGER <= tok.mant < 10 * MINIMAL_NINETEEN_DIGIT_INTEGER
  {
    MantFits(d);
    PartsAreDigitRuns(d);
    Number(Saturate32(Exp(d)), Mant(d), Lex(d).signLen == 1, ManyDigits(d), Integer(d), Fraction(d))
  }

  /** A truncated significand has nineteen digits, so it is nonzero and mant + 1 does not wrap. */
  predicate NineteenDigits(tok: Number)
  {
    tok.manyDigits ==> MINIMAL_NINETEEN_DIGIT_INTEGER <= tok.mant < 10 * MINIMAL_NINETEEN_DIGIT_INTEGER
  }

  /** Whether `moderate` hands the token on to `slow`: its error result, exp < 0. */
  predicate Undecided(w: Width, t: seq<(u64, u64)>, tok: Number)
    requires IsPowerOfFiveTable(t) && NineteenDigits(tok)
  {
    Pow10Table();
    tok.manyDigits && ComputeFloatValue(w, t, tok.exp, tok.mant) != ComputeFloatValue(w, t, tok.exp, tok.mant + 1)
  }

  /**
   * A token the moderate path cannot decide has its exponent inside the
   * table: below it both significands round to zero, above it both to
   * infinity.
   */
  lemma UndecidedRange(w: Width, t: seq<(u64, u64)>, tok: Number)
    requires IsPowerOfFiveTable(t) && NineteenDigits(tok) && Undecided(w, t, tok)
    ensures SMALLEST_POWER_OF_FIVE <= tok.exp <= LARGEST_POWER_OF_FIVE
  {
    Pow10Table();
    ComputeFloatShapes(w, t, tok.exp, tok.mant);
    ComputeFloatShapes(w, t, tok.exp, tok.mant + 1);
    PowerOfTenRange(w);
  }

  /** The moderate path's error result with the INVALID_FP mark taken off, as `slow` receives it. */
  function Rescued(w: Width, t: seq<(u64, u64)>, tok: Number): ExtendedFloat
    requires IsPowerOfFiveTable(t) && NineteenDigits(tok) && Undecided(w, t, tok)
  {
    UndecidedRange(w, t, tok);
    var fp := ComputeError(w, t, tok.exp, tok.mant);
    ExtendedFloat(fp.mant, fp.exp - INVALID_FP)
  }

  /** `-f` applied for a negative literal. */
  function Signed(w: Width, bits: u64, neg: bool): u64
  {
    if neg then Negate(w, bits) else bits
  }

  /**
   * What `parse` produces for the token of a well-formed literal: the fast
   * path's bits when it has them; otherwise the moderate result packed and
   * signed; and for a token the moderate path cannot decide, the packed and
   * signed result of `slow`, or None when `slow` overflows.
   */
  function ParseValue(w: Width, t: seq<(u64, u64)>, fast: Number -> Option<u64>, tok: Number): Option<u64>
    requires IsPowerOfFiveTable(t) && NineteenDigits(tok) && AllDigits(tok.integer) && AllDigits(tok.fraction)
  {
    if fast(tok).Some? then fast(tok)
    else if !Undecided(w, t, tok) then
      Some(Signed(w, ExtendedToFloat(w, ComputeFloatValue(w, t, tok.exp, tok.mant)), tok.neg))
    else
      var fp := Rescued(w, t, tok);
      UndecidedRange(w, t, tok);
      if SlowOverflows(w, tok, fp) then None
      else Some(Signed(w, ExtendedToFloat(w, SlowValue(w, tok, fp)), tok.neg))
  }

  /** A packable rounding result packs below the sign bit. */
  lemma PackedBelowSign(w: Width, fp: ExtendedFloat)
    requires Packable(w, fp)
    ensures ExtendedToFloat(w, fp) < SignMask(w)
  {
    MaskValues(w);
    Pow2Table();
    if fp.mant == Pow2(MantSize(w)) && fp.exp == 1 {
      var p := Pow2(MantSize(w));
      assert fp.exp % TWO64 * p % TWO64 == p;
      BitOrSetBit(p, MantSize(w));
    } else {
      ExtendedToFloatFields(w, fp);
    }
  }

  /** The exact path's value is a packable rounding result. */
  lemma SlowValuePackable(w: Width, tok: Number, fp: ExtendedFloat)
    requires AllDigits(tok.integer) && AllDigits(tok.fraction)
    ensures Packable(w, SlowValue(w, tok, fp))
  {
    var (v, e) := ScaledDigits(w, tok);
    if e >= 0 {
      RoundSpecPackable(w, ExtendedFloat(TopWord(v * Pow10(e)), BitLen(v * Pow10(e)) - 64 + ExpBias(w)),
                        NearestTieEven(PositiveDecide(Sticky(v * Pow10(e)))));
    } else {
      var h := HalfwayAbove(w, fp);
      RoundSpecPackable(w, fp, NearestTieEven(NegativeDecide(Cmp(RealSide(v, e, h.exp), TheorSide(h.mant, e, h.exp)))));
    }
  }

  /**
   * Unless the fast path answered, the result is a bit pattern of the format
   * whose sign bit is set exactly for a negative literal.
   */
  lemma ParseSign(w: Width, t: seq<(u64, u64)>, fast: Number -> Option<u64>, tok: Number)
    requires IsPowerOfFiveTable(t) && NineteenDigits(tok) && AllDigits(tok.integer) && AllDigits(tok.fraction)
    requires fast(tok).None? && ParseValue(w, t, fast, tok).Some?
    ensures var bits := ParseValue(w, t, fast, tok).value;
            && IsBits(w, bits)
            && (bits >= SignMask(w) <==> tok.neg)
  {
    var u: u64;
    if !Undecided(w, t, tok) {
      Pow10Table();
      ComputeFloatShapes(w, t, tok.exp, tok.mant);
      u := ExtendedToFloat(w, ComputeFloatValue(w, t, tok.exp, tok.mant));
      PackedBelowSign(w, ComputeFloatValue(w, t, tok.exp, tok.mant));
    } else {
      var fp := Rescued(w, t, tok);
      SlowValuePackable(w, tok, fp);
      u := ExtendedToFloat(w, SlowValue(w, tok, fp));
      PackedBelowSign(w, SlowValue(w, tok, fp));
    }
    var bits := ParseValue(w, t, fast, tok).value;
    assert bits == Signed(w, u, tok.neg);
    MaskValues(w);
    if tok.neg {
      NegateSetsSign(w, u);
    }
  }

  /** A literal with more than nineteen significant digits has a nonzero significant value. */
  lemma SignificantPositive(d: seq<u8>)
    requires ManyDigits(d)
    ensures DecimalValue(Significant(Integer(d), Fraction(d))) > 0
  {
    var s := Digits(d);
    var k := |s| - TakeCount(s, 0);
    assert Mant(d) * Pow10(k) <= DecimalValue(s) && Mant(d) > 0 by {
      ManyDigitsTruncates(d);
      Pow10Table();
    }
    assert Mant(d) * Pow10(k) > 0 by {
      PowPositive(10, k);
      ProductPositive(Mant(d), Pow10(k));
    }
    PartsAreDigitRuns(d);
    SignificantStripsZeros(Integer(d), Fraction(d));
  }

  lemma ProductPositive(a: int, b: int)
    requires a > 0 && b > 0
    ensures a * b > 0
  {
  }

  /**
   * The part of `parse` after the fast path: the moderate path, redone by
   * `slow` when it marks its result with a negative exponent; the result is
   * packed and negated for a negative literal.
   */
  method Dispatch(fw: Width, tok: Number, ghost fast: Number -> Option<u64>, t: seq<(u64, u64)>, largePow5: seq<u64>, largeStep: nat)
    returns (r: Option<u64>)
    requires IsPowerOfFiveTable(t) && LargePow5Table(largePow5, largeStep)
    requires NineteenDigits(tok) && AllDigits(tok.integer) && AllDigits(tok.fraction)
    requires tok.manyDigits ==> DecimalValue(Significant(tok.integer, tok.fraction)) > 0
    requires fast(tok).None?
    ensures r == ParseValue(fw, t, fast, tok)
  {
    Pow10Table();
    var fp := Moderate.Moderate(fw, t, tok);
    if fp.exp < 0 {
      fp := ExtendedFloat(fp.mant, fp.exp - INVALID_FP);
      assert fp == Rescued(fw, t, tok);
      var slow := Slow.Slow(fw, tok, fp, largePow5, largeStep);
      if slow.None? {
        return None;
      }
      fp := slow.value;
    }
    var f := ExtendedToFloat(fw, fp);
    if tok.neg {
      f := Negate(fw, f);
    }
    return Some(f);
  }

  /**
   * `parse`: None for a malformed literal (the `unwrap` of the tokens) and
   * when `slow` panics; otherwise the fast path's bits, or the packed and
   * signed result of the moderate path, redone by `slow` when the moderate
   * path marks it with a negative exponent.
   */
  method Parse(fw: Width, d: seq<u8>, fast: Number -> Option<u64>, t: seq<(u64, u64)>, largePow5: seq<u64>, largeStep: nat)
    returns (r: Option<u64>)
    requires |d| < 0x1000_0000
    requires IsPowerOfFiveTable(t) && LargePow5Table(largePow5, largeStep)
    ensures Malformed(d) ==> r.None?
    ensures !Malformed(d) ==> r == ParseValue(fw, t, fast, TokenOf(d))
  {
    var tokens := ParseIntoTokens(d);
    if tokens.None? {
      return None;
    }
    var tok := tokens.value;
    assert tok == TokenOf(d);
    if tok.manyDigits {
      SignificantPositive(d);
    }
    var value := fast(tok);
    if value.Some? {
      return value;
    }
    r := Dispatch(fw, tok, fast, t, largePow5, largeStep);
  }
}
