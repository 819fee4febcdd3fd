# float-rs: a verified model of decimal ↔ binary floating-point conversion

float-rs converts in both directions between decimal text and IEEE 754 binary floating point.

**Parsing (`from_bytes`).** It reads decimal text into binary32 or binary64 values:
- it lexes the literal into a sign, digit runs and an exponent;
- it tries the fast path first;
- it then tries the moderate path, Eisel-Lemire: a 128-bit product with a table of powers of five;
- when that path cannot decide the rounding, it falls back to the exact slow path, which compares big integers of 64-bit limbs;
- it packs the rounded result into the bits of the format.

**Formatting (`to_bytes`).** It prints binary32 values as the shortest decimal that reads back to the same value:
- Dragonbox computes the decimal significand and exponent;
- the digits are written in scientific notation (`1.25E-3`) with precomputed digit-pair tables.

This project models that core in Dafny and proves what each step computes. Modules follow the source files:

| module | file | models |
|---|---|---|
| `Arith` | arith.dfy | powers, bit operations on naturals, decimal digit runs (helpers) |
| `Layout` | layout.dfy | `from_bytes/common.rs`: the layout constants of both formats, field access, `extended_to_float` |
| `Rounding` | rounding.dfy | `from_bytes/rounding.rs` |
| `Scanner` | scanner.dfy | the eight-digit SWAR helpers of `from_bytes/parse.rs` |
| `Tokens` | tokens.dfy | `parse_into_tokens` |
| `Parse` | parse.dfy | `parse` |
| `Moderate` | moderate.dfy | `from_bytes/moderate.rs` |
| `BigInt` | bigint.dfy | `from_bytes/bigint.rs`, with `StackVec` as a class over an array of limbs |
| `Slow` | slow.dfy | `from_bytes/slow.rs` |
| `F32` | f32.dfy | `to_bytes/f32.rs`: the constants and the cache of scaled powers of ten |
| `Shortest` | shortest.dfy | `to_bytes/common.rs`: Dragonbox, `to_chars`, `Buffer` |
| `DecimalText` | decimal_text.dfy | the decimal text `to_chars.rs` produces, as functions on digit sequences |
| `ToChars` | to_chars.dfy | `to_bytes/to_chars.rs`: the digit writers, as methods on a byte array |

How the Rust code is represented:
- Unsigned integers are naturals with explicit bounds.
- Wrapping arithmetic is written out with `%`, for example `Wrap32` and `Rmant`.
- Each `Option`-returning or panicking operation has a `None` result.
- Code that writes through raw pointers becomes a method that writes into an `array<u8>` at an offset. Its contract gives the bytes written and states that nothing outside its window changes.

## Model

| member | source | states |
|---|---|---|
| Layout.MaskValues | src/from_bytes/common.rs:79-151 | The sign, exponent and trailing-significand masks of both formats are the three adjacent bit ranges of IEEE 754. Together they cover every bit of the word. |
| Layout.MasksDisjoint | src/from_bytes/common.rs:79-126 | SIGN_MASK, EXP_MASK and MANT_MASK share no bit. |
| Layout.DerivedConstants | src/from_bytes/common.rs:24-30 | INFINITE_POWER is the all-ones exponent field (0xFF, 0x7FF). CARRY_MASK and MAX_MANTISSA_FAST_PATH are both 2 << MANT_SIZE. |
| Layout.Mantissa | src/from_bytes/common.rs:68-76 | `mantissa` is below 2^(MANT_SIZE+1). |
| Layout.MaskedFields | src/from_bytes/common.rs:58-76 | Masking with EXP_MASK and MANT_MASK extracts the exponent field (in place) and the fraction field. |
| Layout.DecomposeFields | src/from_bytes/common.rs:54-76 | `is_denormal` holds exactly when the exponent field is zero. `exponent` is DENORMAL_EXP or field − EXP_BIAS. `mantissa` adds the hidden bit exactly for normal numbers. |
| Layout.FromBits | src/from_bytes/common.rs:107-109 | `from_bits` yields a pattern of the format's width and keeps a pattern that already fits. |
| Layout.ExtendedToFloatFields | src/from_bytes/common.rs:165-169 | `extended_to_float` places exp in the exponent field and mant in the fraction field, below the sign bit. |
| Layout.CarryIntoSmallestNormal | src/from_bytes/common.rs:165-169 | A mantissa equal to the hidden bit with exponent 1 packs to the smallest normal number: field 1, fraction 0. |
| Layout.UnpackPack | src/from_bytes/common.rs:54-76 | Packing `mantissa` (hidden bit removed) and the biased `exponent` of a non-negative pattern gives the pattern back. |
| Layout.NegateSetsSign | src/from_bytes/parse.rs:32-34 | Negating a non-negative pattern sets the sign bit and changes nothing else. |
| F32.F32Masks | src/to_bytes/f32.rs:11-18 | The binary32 masks of the formatter equal those of the parser's layout, are disjoint, and cover the word. |
| F32.CacheEntryBounds | src/to_bytes/f32.rs:44-123 | Every cache entry has its top bit set and its top byte below 0xFF. |
| F32.Get | src/to_bytes/f32.rs:39-42 | `get(k)` for k in [MIN_K, MAX_K] returns an entry in [2^63, 0xFF00…0). |
| F32.ExactRun | src/to_bytes/f32.rs:75-103 | get(0..27) reads the exact entries and get(−1) the entry 0xcccc_cccc_cccc_cccd. |
| Rounding.RoundDown | src/from_bytes/rounding.rs:65-71 | `round_down` leaves the floor of mant / 2^shift: r·2^shift ≤ mant < (r+1)·2^shift. |
| Rounding.RoundDownIsTruncate | src/from_bytes/rounding.rs:65-71 | Those floor bounds determine the result uniquely. |
| Rounding.RoundNearestTieEven | src/from_bytes/rounding.rs:38-63 | `round_nearest_tie_even` computes the nearest-rounding function with the callback's (is_odd, is_halfway, is_above) decision. |
| Rounding.NearestFacts | src/from_bytes/rounding.rs:38-63 | The truncated bits are mant mod 2^shift. The halfway and above tests compare them with exactly half of 2^shift. |
| Rounding.NearestTieEvenRounds | src/from_bytes/rounding.rs:38-63 | With the tie-to-even callback the result is within half a unit of the exact quotient. On an exact tie it is even. |
| Rounding.ApplyRounder | src/from_bytes/rounding.rs:22 | The callback step `cb(fp, shift)` agrees with its specification. |
| Rounding.ApplyBounds | src/from_bytes/rounding.rs:22 | A callback raises the exponent by shift and leaves the truncated mantissa or that plus one. |
| Rounding.CarryBit | src/from_bytes/rounding.rs:24-28 | The CARRY_MASK test detects a mantissa that overflowed into 2^(MANT_SIZE+1). |
| Rounding.Round | src/from_bytes/rounding.rs:3-36 | `round` gives a result `extended_to_float` can pack: mant below the hidden bit and exp at most INFINITE_POWER. A subnormal input ends with exponent 0 or 1. |
| Rounding.RoundSpecPackable | src/from_bytes/rounding.rs:3-36 | For every input and callback, the result of `round` has one of those packable shapes. |
| Scanner.EightDigitsBits | src/from_bytes/parse.rs:66-70 | The SWAR test `is_made_of_eight_digits_fast_` on a word holds exactly when each of its eight bytes is an ASCII digit. |
| Scanner.IsMadeOfEightDigitsFastIff | src/from_bytes/parse.rs:66-74 | On the little-endian word read from eight bytes, the test holds exactly when all eight are digits. |
| Scanner.SwarDigits | src/from_bytes/parse.rs:49-60 | `parse_eight_digits_unrolled_` on eight ASCII digits gives their decimal value, with no intermediate step wrapping. |
| Scanner.ParseEightDigitsValue | src/from_bytes/parse.rs:42-60 | Reading eight digit bytes and combining them gives the decimal value of the run. |
| Scanner.ParseEightDigits | src/from_bytes/parse.rs:62-64 | `parse_eight_digits_unrolled` returns the decimal value of its eight digits. |
| Tokens.DigitRun | src/from_bytes/parse.rs:98-101 | A digit run from k ends at the end of the input or at a non-digit. |
| Tokens.Lex | src/from_bytes/parse.rs:76-149 | The lexer's boundaries (sign, integer part, fraction, exponent) are ordered positions within the input. |
| Tokens.ExpAccumMeaning | src/from_bytes/parse.rs:138-143 | The exponent loop with the source's cap 0x10000000, in unbounded integers, is exact for exponents below 10·cap, stays at or above the cap from the cap on, and is always below 10·cap. |
| Tokens.ExpAccumAgrees | src/from_bytes/parse.rs:138-143 | The i32 loop as written agrees with the unbounded loop wherever that stays below 2^31. |
| Tokens.ExpAccumAsWrittenOverflows | src/from_bytes/parse.rs:138-143 | The exponent 2147483648 is reached under the cap; the unbounded loop yields it, and the i32 loop as written wraps it to −2^31. |
| Tokens.ExpOverflowExample | src/from_bytes/parse.rs:125-149 | "1e2147483648" is well formed and its exponent overflows: as written it becomes −2^31, while the saturated exact exponent is 2^31 − 1. |
| Tokens.ExpNumberAgrees | src/from_bytes/parse.rs:125-149 | Where the digit loop stays below 2^31, the signed explicit exponent as written (negation included) is the unbounded one. |
| Tokens.ExpAsWrittenAgrees | src/from_bytes/parse.rs:118-177 | Where none of the i32 sums of lines 139, 147, 169 and 176 overflows, the token exponent as written is the unbounded one. |
| Tokens.LeadingZeros | src/from_bytes/parse.rs:151-157 | The count of leading '0' digits: all of them are zeros and the next digit is not. |
| Tokens.PartsAreDigitRuns | src/from_bytes/parse.rs:94-121 | The integer and fraction parts are digit runs, each ended by a non-digit or by the end of the input. |
| Tokens.MantExact | src/from_bytes/parse.rs:94-149 | With at most 19 significant digits, mant is the value of all digits and exp is the explicit exponent minus the number of fraction digits. |
| Tokens.TruncatedValue | src/from_bytes/parse.rs:159-177 | A prefix of n digits brackets the whole run: prefix·10^rest ≤ value < (prefix+1)·10^rest. |
| Tokens.ManyDigitsTruncates | src/from_bytes/parse.rs:151-179 | With more than 19 significant digits, mant is the first 19-digit prefix (in [10^18, 10^19)). exp accounts for the digits dropped, and mant·10^dropped ≤ digits < (mant+1)·10^dropped. |
| Tokens.ScanDigits | src/from_bytes/parse.rs:98-101 | The integer loop stops at the first non-digit, with the run's value modulo 2^64. |
| Tokens.ScanEightDigits | src/from_bytes/parse.rs:108-113 | The eight-at-a-time fraction loop consumes only digits and keeps the value modulo 2^64. |
| Tokens.ScanFraction | src/from_bytes/parse.rs:105-121 | The fraction scan ends at the end of the digit run with the value of integer and fraction digits modulo 2^64. |
| Tokens.ScanExponent | src/from_bytes/parse.rs:138-143 | The exponent loop consumes the digit run and returns the capped exponent value (cap 0x10000000), computed without overflow. |
| Tokens.CountLeadingZeros | src/from_bytes/parse.rs:151-157 | The zero-skipping loop counts the leading zeros, skipping the point. |
| Tokens.TakeDigits | src/from_bytes/parse.rs:162-166 | The 19-digit accumulation takes digits while the value is below 10^18, and the value read is the value of the prefix taken. |
| Tokens.TakeNineteen | src/from_bytes/parse.rs:159-177 | Over integer then fraction digits, the value is that of the prefix the loop takes, and the exponent offset is the count of integer digits not taken. |
| Tokens.ScanSignificand | src/from_bytes/parse.rs:94-121 | The significand scan returns the integer and fraction runs and the value of their digits modulo 2^64. |
| Tokens.ScanExponentPart | src/from_bytes/parse.rs:125-149 | A marker without digits is rejected. Otherwise the signed, capped exponent is returned, strictly within ±10·0x10000000. |
| Tokens.Truncate | src/from_bytes/parse.rs:151-179 | The many-digits step yields the flag, mant and exp of the specification. |
| Tokens.ExpBounds | src/from_bytes/parse.rs:125-177 | For inputs shorter than 2^28 bytes the explicit exponent lies strictly within ±10·0x10000000, and no i32 sum overflows while the exponent digits denote less than 0x70000000. |
| Tokens.ParseIntoTokens | src/from_bytes/parse.rs:76-183 | It returns None exactly for malformed inputs: empty input, a lone or misplaced sign, no digit, or an exponent marker without digits. Otherwise the token holds the sign, both digit runs, the many-digits flag, mant, and the exact exponent saturated to i32. Wherever the source's i32 arithmetic does not overflow, that exponent is the one the code as written computes. |
| Parse.MantFits | src/from_bytes/parse.rs:151-179 | A well-formed literal's mant fits in 64 bits. With many digits it has exactly 19. |
| Parse.TokenOf | src/from_bytes/parse.rs:7-14 | The token of a well-formed literal (its exponent saturated to i32) has digit-only runs and, when truncated, a 19-digit mant. |
| Parse.UndecidedRange | src/from_bytes/parse.rs:25-29 | A token the moderate path cannot decide has its exponent inside the power-of-five table. |
| Parse.PackedBelowSign | src/from_bytes/parse.rs:31 | A packable rounding result packs to a pattern below the sign bit. |
| Parse.SlowValuePackable | src/from_bytes/parse.rs:26-29 | The result of the slow path is packable. |
| Parse.ParseSign | src/from_bytes/parse.rs:31-34 | Without the fast path, the result has its sign bit set exactly for a literal with a leading '-'. |
| Parse.Dispatch | src/from_bytes/parse.rs:25-35 | After the fast path: the moderate result, or on its error mark the slow result (INVALID_FP removed), packed and negated for '-'. |
| Parse.Parse | src/from_bytes/parse.rs:16-36 | `parse` is None for a malformed literal and otherwise the value of its token: the fast path's bits when it applies, else the moderate or slow result, packed and signed. |
| Moderate.PowerOfTenRange | src/from_bytes/common.rs:93-131 | The decimal exponent range of both formats lies within the power-of-five table. |
| Moderate.PowerExact | src/from_bytes/moderate.rs:86-88 | `power(q)` is floor(q·217706 / 2^16) + 63, with no i32 overflow in range. |
| Moderate.PowerStep | src/from_bytes/moderate.rs:86-88 | `power` rises by 3 or 4 per step of q, and power(0) = 63. |
| Moderate.PowerRange | src/from_bytes/moderate.rs:86-88 | Over the table `power` stays within [−1074, 1086]. |
| Moderate.FullMult | src/from_bytes/moderate.rs:90-93 | `full_mult` returns the low and high words of the exact 128-bit product. |
| Moderate.ProductApproxBounds | src/from_bytes/moderate.rs:95-113 | The approximate product is at most w·5^q/2^64 and within 2^64 of it. When the low bits of the first product are not all ones, it is exact. |
| Moderate.ComputeProductApprox | src/from_bytes/moderate.rs:95-113 | The two words are the approximate product of w and the table entry for q. |
| Moderate.RoundHalfUp | src/from_bytes/moderate.rs:55-56 | (m + 1) >> 1 rounds m / 2 half up. |
| Moderate.KeptBits | src/from_bytes/moderate.rs:34-35 | The shift by upperbit + 64 − MANT_SIZE − 3 leaves at most MANT_SIZE + 2 bits, and MANT_SIZE + 1 at least when hi ≥ 2^62. |
| Moderate.RoundProduct | src/from_bytes/moderate.rs:28-65 | The rounding stage of `compute_float` matches its specification. |
| Moderate.RoundSubnormal | src/from_bytes/moderate.rs:37-46 | The subnormal branch matches its specification. |
| Moderate.RoundNormal | src/from_bytes/moderate.rs:55-65 | The normal branch matches its specification: hidden-bit carry, infinity above INFINITE_POWER, hidden bit cleared. |
| Moderate.Normalize | src/from_bytes/moderate.rs:25-26 | Shifting w by its leading zeros gives w·2^lz with the top bit set. |
| Moderate.ComputeFloat | src/from_bytes/moderate.rs:13-66 | `compute_float` computes the specification function ComputeFloatValue. |
| Moderate.RoundProductShapes | src/from_bytes/moderate.rs:28-65 | The result is packable. A subnormal result has exponent 0, or 1 exactly when it rounded up to the smallest normal. A normal result is infinity or has exponent in (0, INFINITE_POWER). |
| Moderate.SubnormalValueShape | src/from_bytes/moderate.rs:37-46 | A subnormal result has mant at most the hidden bit and exponent 1 exactly when it reaches it. |
| Moderate.NormalValueBounds | src/from_bytes/moderate.rs:55-65 | A normal result is infinity or a packable normal number. |
| Moderate.ComputeFloatShapes | src/from_bytes/moderate.rs:13-24 | `compute_float` gives zero for w = 0 or q below the range, infinity above it, and a packable value otherwise. |
| Moderate.NormalKeepsHiddenBit | src/from_bytes/moderate.rs:47-65 | Unless it overflows to infinity, the normal branch's result, with its hidden bit, is the half-up-rounded kept bits (halved if it carried), with the exact-tie correction applied. |
| Moderate.NormalValueShape | src/from_bytes/moderate.rs:55-65 | Unless infinity, (hidden bit + mant)·(1 or 2) is the half-up rounding of the kept bits. |
| Moderate.ComputeErrorScaled | src/from_bytes/moderate.rs:75-84 | The mantissa is w shifted to bit 63 (doubled if its top bit was clear). The exponent is power(q) + bias − lz − 62 (one less when doubled), marked negative with INVALID_FP. |
| Moderate.TopBitShift | src/from_bytes/moderate.rs:76-77 | hilz = (w >> 63) ^ 1 is 1 exactly when the top bit is clear, and w << hilz normalises w. |
| Moderate.ComputeError | src/from_bytes/moderate.rs:68-73 | The error result always carries a negative exponent. |
| Moderate.Moderate | src/from_bytes/moderate.rs:5-11 | `moderate` marks its result negative exactly when the many-digits token's two candidates mant and mant+1 round differently. Otherwise the result is ComputeFloatValue, packable; on the mark it is `compute_error`. |
| BigInt.StackVec.constructor | src/from_bytes/bigint.rs:15-20 | `new` creates an empty vector of BIGINT_LIMBS capacity. |
| BigInt.StackVec.TryPush | src/from_bytes/bigint.rs:51-58 | It appends the limb exactly when there is room, and otherwise changes nothing. |
| BigInt.StackVec.TryExtend | src/from_bytes/bigint.rs:71-78 | It appends the slice exactly when it fits, and otherwise changes nothing. |
| BigInt.StackVec.TryResize | src/from_bytes/bigint.rs:94-101 | It truncates or pads with `value` to len when len ≤ BIGINT_LIMBS, and otherwise changes nothing. |
| BigInt.StackVec.Normalize | src/from_bytes/bigint.rs:245-253 | It drops only high zero limbs, leaving the value unchanged and the top limb nonzero. |
| BigInt.Compare | src/from_bytes/bigint.rs:229-243 | `compare` orders by length first, then by value. For normalized inputs that is the order of their values. |
| BigInt.NormalizedOrder | src/from_bytes/bigint.rs:139-143 | Between normalized vectors a shorter one has the smaller value. |
| BigInt.FromU64 | src/from_bytes/bigint.rs:255-265 | `from_u64` gives a normalized vector, of at most one limb, with value x. |
| BigInt.TryFrom | src/from_bytes/bigint.rs:22-26 | It copies the slice exactly when it fits. |
| BigInt.Nonzero | src/from_bytes/bigint.rs:267-271 | `nonzero(x, rindex)` is true exactly when the limbs below the top rindex have a nonzero value. |
| BigInt.U64ToHi64One | src/from_bytes/bigint.rs:290-293 | One limb is shifted left by its leading zeros to set bit 63, with nothing truncated. |
| BigInt.U64ToHi64Two | src/from_bytes/bigint.rs:295-304 | Two limbs give the top 64 bits of r0·2^64 + r1 and a flag for the bits shifted out. |
| BigInt.Hi64Correct | src/from_bytes/bigint.rs:335-346 | `hi64` gives the value's top 64 bits, left-aligned, and a flag that is true exactly when a nonzero bit below them was dropped. |
| BigInt.ScalarAdd | src/from_bytes/bigint.rs:367-369 | Sum and overflow flag together equal x + y. |
| BigInt.ScalarMul | src/from_bytes/bigint.rs:371-374 | The low and high words equal x·y + carry. |
| BigInt.SmallAddFrom | src/from_bytes/bigint.rs:376-389 | It adds y at limb `start` with carry propagation. It succeeds exactly when the sum fits BIGINT_LIMBS limbs, and then holds the sum. |
| BigInt.SmallAdd | src/from_bytes/bigint.rs:391-393 | It adds y, succeeding exactly when the sum fits. |
| BigInt.SmallMul | src/from_bytes/bigint.rs:395-406 | It multiplies by y, succeeding exactly when the product fits. |
| BigInt.LargeAddLoop | src/from_bytes/bigint.rs:413-426 | The limb loop adds y·B^start, leaving the final carry out. |
| BigInt.LargeAddFrom | src/from_bytes/bigint.rs:408-432 | `large_add_from` succeeds exactly when y fits at start and the sum fits, and then holds x + y·B^start. |
| BigInt.LongMulRows | src/from_bytes/bigint.rs:440-446 | The row loop accumulates x·y, succeeding exactly when every partial product fits. |
| BigInt.LongMul | src/from_bytes/bigint.rs:434-451 | `long_mul` returns the normalized product x·y, or x itself when y is empty. |
| BigInt.LargeMul | src/from_bytes/bigint.rs:453-460 | `large_mul` as written: the value it leaves, including the empty-x case. |
| BigInt.LargeMulZeroCounterexample | src/from_bytes/bigint.rs:453-460 | For an empty x (value 0) and y = [1, 1] the result as written is 2^64 + 1, not 0. |
| BigInt.LargeMulCorrected | src/from_bytes/bigint.rs:453-460 | The corrected `large_mul` leaves x·y, succeeding exactly when it fits. |
| BigInt.ShlLimb | src/from_bytes/bigint.rs:466-471 | One step of `shl_bits`: the shifted limb plus the carried-in bits, with the bits shifted out carried on. |
| BigInt.ShlBits | src/from_bytes/bigint.rs:462-479 | It multiplies by 2^n (n < 64), succeeding exactly when the result fits. |
| BigInt.ShlLimbs | src/from_bytes/bigint.rs:481-497 | It prepends n zero limbs (value times B^n) when they fit. An empty vector stays empty. |
| BigInt.ShlSplit | src/from_bytes/bigint.rs:499-509 | 2^n splits into 2^(n mod 64)·B^(n div 64), the two steps of `shl`. |
| BigInt.Shl | src/from_bytes/bigint.rs:499-509 | `shl` multiplies by 2^n, succeeding exactly when the result fits. |
| BigInt.LeadingZeros | src/from_bytes/bigint.rs:511-518 | It counts the leading zeros of the top limb. |
| BigInt.BitLengthCorrect | src/from_bytes/bigint.rs:520-524 | `bit_length` is the bit length of the value. |
| BigInt.MulLargePow5 | src/from_bytes/bigint.rs:349-352 | The loop over the large power-of-five step, calling `large_mul` as written, stops with exp below the step. For a nonzero x, or when the loop does not run, it keeps x·5^exp invariant and fails only when x·5^exp does not fit. |
| BigInt.MulSmallPow5 | src/from_bytes/bigint.rs:354-363 | The small-step loop keeps the same invariant. |
| BigInt.MulPow5 | src/from_bytes/bigint.rs:348-365 | For a nonzero value, or an exponent below LARGE_POW5_STEP, `pow` multiplies by 5^exp and succeeds exactly when the product fits. It keeps the value normalized. |
| BigInt.PowFactorTen | src/from_bytes/bigint.rs:191-199 | Bigint::pow with base 10 multiplies by 10^exp (5^exp then 2^exp). |
| BigInt.BigintPow | src/from_bytes/bigint.rs:191-199 | Bigint::pow multiplies by base^exp (the factors 5 and 2 it divides) for a nonzero value, an exponent below LARGE_POW5_STEP or a base not divisible by 5. For a nonzero normalized value it succeeds exactly when the product fits. |
| Slow.NumDigitsDivPow10 | src/from_bytes/slow.rs:179-195 | Dividing by 10^k removes exactly k digits. |
| Slow.ScientificExponent | src/from_bytes/slow.rs:179-195 | `scientific_exponent` is exp + (number of digits of mant) − 1. |
| Slow.EightZeros | src/from_bytes/slow.rs:212-229 | The word compare against 0x3030…30 holds exactly when all eight bytes are '0'. |
| Slow.SkipZeros | src/from_bytes/slow.rs:212-229 | `skip_zeros` removes exactly the leading zeros. |
| Slow.IsTruncated | src/from_bytes/slow.rs:231-248 | `is_truncated` is true exactly when some digit is nonzero. |
| Slow.AddNative | src/from_bytes/slow.rs:250-253 | big·power + value, succeeding exactly when it fits. |
| Slow.SignificantStripsZeros | src/from_bytes/slow.rs:85-166 | The significant digits are the digit runs without leading zeros, with the same value. |
| Slow.CappedExact | src/from_bytes/slow.rs:168-176 | Without truncation the big integer times 10^(digits dropped) is the exact value. |
| Slow.CappedInexact | src/from_bytes/slow.rs:100-114 | With truncation the appended sticky 1 places the value strictly between the kept prefix and the prefix plus one. |
| Slow.CappedZeros | src/from_bytes/slow.rs:100-114 | Only zeros after max_digits: no sticky digit, and the prefix is exact. |
| Slow.CappedSticky | src/from_bytes/slow.rs:100-114 | A nonzero digit after max_digits puts the value strictly inside the prefix's interval. |
| Slow.GatherEight | src/from_bytes/slow.rs:88-93 | Eight-digit steps keep counter and count in bounds and the gathered value exact. |
| Slow.GatherOne | src/from_bytes/slow.rs:94-99 | Digit steps stop at the end, at STEP digits, or at max_digits. |
| Slow.GatherRun | src/from_bytes/slow.rs:88-99 | big·10^counter + value equals the digits read so far. |
| Slow.ParseRun | src/from_bytes/slow.rs:87-124 | One run of digits is added to the big integer, stopping at max_digits with the exact value of the digits taken. |
| Slow.AppendSticky | src/from_bytes/slow.rs:100-114 | At max_digits, the appended 1 marks the remaining nonzero digits as the capped specification says. |
| Slow.Flush | src/from_bytes/slow.rs:168-174 | The pending word is added in, leaving the capped value of all digits. |
| Slow.ParseFraction | src/from_bytes/slow.rs:126-166 | The fraction loop continues the capped value, skipping leading zeros when no integer digit was kept. |
| Slow.ParseMantissa | src/from_bytes/slow.rs:78-177 | `parse_mantissa` returns the capped value of the significant digits (at most MAX_DIGITS, sticky 1) and their count. |
| Slow.TopWordIsHi64 | src/from_bytes/bigint.rs:335-346 | `hi64` of a normalized vector is the value's top word plus the sticky flag. |
| Slow.NearestEvenRounds | src/from_bytes/slow.rs:31-35 | Round-to-nearest-even of w / 2^s is within half a unit, even on a tie. |
| Slow.StickyRounding | src/from_bytes/slow.rs:31-35 | Rounding the truncated top word with the sticky flag equals rounding the full value. |
| Slow.PositiveRoundsExactly | src/from_bytes/slow.rs:24-37 | The positive path's rounding of (hi64, sticky) is nearest-even rounding of the whole big integer. |
| Slow.RoundTop | src/from_bytes/slow.rs:27-35 | The rounding step computes PositiveValue of the big integer. |
| Slow.PositiveDigitComp | src/from_bytes/slow.rs:24-37 | For a nonzero mantissa it scales the mantissa by 10^exponent (None exactly on overflow) and rounds it to nearest even. |
| Slow.ExponentRange | src/from_bytes/common.rs:58-66 | `exponent` lies in [DENORMAL_EXP, MAX_EXP]. |
| Slow.BFloat | src/from_bytes/slow.rs:197-202 | `b` returns mantissa and exponent within range. |
| Slow.BH | src/from_bytes/slow.rs:204-210 | `bh` has an odd mantissa, 2m + 1, one exponent lower. |
| Slow.BhMidpoint | src/from_bytes/slow.rs:197-210 | b + h is exactly the midpoint of b and its successor. |
| Slow.BRecoversPacked | src/from_bytes/slow.rs:197-202 | `b` of a packed value recovers its mantissa (hidden bit added) and unbiased exponent. |
| Slow.NegativeOrderMeaning | src/from_bytes/slow.rs:51-74 | Comparing the scaled real and theoretical digits compares m·2^t with h·10^(−e)·2^(te+t). |
| Slow.SidesAt | src/from_bytes/slow.rs:55-64 | The two sides are m·2^(−binexp) and h·5^(−e)·2^binexp, whichever exponents are positive. |
| Slow.PowFactorPrimes | src/from_bytes/bigint.rs:191-199 | The powers of 5 and 2 used by the comparison are the exact ones. |
| Slow.ScaleTheor | src/from_bytes/slow.rs:52-61 | The theoretical side is built as h·5^n·2^be, None exactly when it does not fit. |
| Slow.ScaleReal | src/from_bytes/slow.rs:62-64 | The real side is scaled by 2^(−be), failing exactly when it does not fit. |
| Slow.CompareSides | src/from_bytes/slow.rs:51-66 | It compares the two sides, None exactly when one of them overflows. |
| Slow.NegativeDigitComp | src/from_bytes/slow.rs:39-76 | It is None exactly on overflow, and otherwise the specification's rounding of bh by the comparison's outcome, tie to even. |
| Slow.Slow | src/from_bytes/slow.rs:9-22 | For nonzero significant digits, `slow` is None exactly when the exact path overflows, and otherwise SlowValue. |
| DecimalText.Digits | src/to_bytes/to_chars.rs:56-191 | The decimal digits of n: NumDigits(n) digits, led by a nonzero digit for n > 0. |
| DecimalText.DigitsValue | src/to_bytes/to_chars.rs:56-191 | The digits read back as n. |
| DecimalText.Padded | src/to_bytes/to_chars.rs:52-54 | k digits, zero-padded. |
| DecimalText.PaddedValue | src/to_bytes/to_chars.rs:52-54 | The padded digits read back as n mod 10^k. |
| DecimalText.StripZeros | src/to_bytes/to_chars.rs:56-191 | A prefix of the input, non-empty when the input is, ending in a nonzero digit unless only one digit is left. |
| DecimalText.StripZerosValue | src/to_bytes/to_chars.rs:56-191 | The stripped digits times 10^(digits dropped) is the original value. |
| DecimalText.StripAppendedZeros | src/to_bytes/to_chars.rs:56-191 | Appended zeros are stripped. |
| DecimalText.StripKeepsPrefix | src/to_bytes/to_chars.rs:56-191 | A prefix ending in a nonzero digit survives stripping. |
| DecimalText.DigitsSplit | src/to_bytes/to_chars.rs:222-228 | The digits of a·10^k + b are those of a followed by b padded to k. |
| DecimalText.PaddedSplit | src/to_bytes/to_chars.rs:56-191 | Padded digits split at any position into the quotient and remainder by 10^k. |
| DecimalText.WithPointAppend | src/to_bytes/to_chars.rs:25-46 | The point goes after the first digit. |
| DecimalText.StrippedDenotes | src/to_bytes/to_chars.rs:56-191 | The stripped digits of n denote n in scientific notation. |
| DecimalText.NineDigitRunDenotes | src/to_bytes/to_chars.rs:56-191 | `write_9_digits`' digits denote n, and below 10^8 they have no trailing zero. |
| DecimalText.BlockDigits | src/to_bytes/to_chars.rs:218-228 | The digits of hi·10^8 + lo are those of hi followed by lo padded to 8. |
| DecimalText.F64RunDenotes | src/to_bytes/to_chars.rs:218-369 | The significand digits `write_f64` writes denote mant. |
| DecimalText.DenotesScaled | src/to_bytes/to_chars.rs:230-233 | Digits that denote hi also denote hi·10^k. |
| DecimalText.LowBlockDenotes | src/to_bytes/to_chars.rs:342-367 | High digits followed by the stripped low block denote hi·10^k + lo. |
| ToChars.TableEntries | src/to_bytes/to_chars.rs:3-46 | RADIX_100_TABLE holds the two digits of each n < 100. RADIX_100_HEAD_TABLE holds n's first digit and a point. |
| ToChars.WriteOneDigit | src/to_bytes/to_chars.rs:48-50 | It writes the last digit of n at p and nothing else. |
| ToChars.WriteTwoDigits | src/to_bytes/to_chars.rs:52-54 | It writes the two digits of n < 100 at p and nothing else. |
| ToChars.Magic8 | src/to_bytes/to_chars.rs:57-59 | m·1441151882 >> 25 has integer part m / 10^8 and a 32-bit fraction that exactly encodes m mod 10^8. |
| ToChars.Magic6 | src/to_bytes/to_chars.rs:78-80 | The 10^6 magic number gives m / 10^6 and an exact fraction. |
| ToChars.Magic6Plus | src/to_bytes/to_chars.rs:255-257 | The same with the +1 correction. |
| ToChars.Magic4 | src/to_bytes/to_chars.rs:119-120 | The 10^4 magic number gives m / 10^4 and an exact fraction. |
| ToChars.Magic2 | src/to_bytes/to_chars.rs:153-154 | The 10^2 magic number gives m / 100 and an exact fraction. |
| ToChars.PairStep | src/to_bytes/to_chars.rs:99-112 | Multiplying the fraction by 100 yields the next two digits and keeps an exact fraction. |
| ToChars.ZeroTest | src/to_bytes/to_chars.rs:90-108 | The `prod <= 2^32 / 10^k` test holds exactly when the remaining digits are all zero. |
| ToChars.FractionPairsDigits | src/to_bytes/to_chars.rs:66-73 | Writing all pairs gives the remainder's zero-padded digits. |
| ToChars.FractionUntilZeroDigits | src/to_bytes/to_chars.rs:90-117 | Stopping at the first all-zero tail gives the padded digits with trailing zeros stripped. |
| ToChars.UntilZeroStops | src/to_bytes/to_chars.rs:90-117 | The same, when the first pair ends the digits. |
| ToChars.WritePairs | src/to_bytes/to_chars.rs:66-73 | It writes the pairs of the fraction and nothing outside them. |
| ToChars.WritePairsUntilZero | src/to_bytes/to_chars.rs:90-117 | It writes pairs until the rest is zero, dropping a trailing '0' of the last pair. |
| ToChars.WriteHead | src/to_bytes/to_chars.rs:83-88 | The first digit, the point and the second digit of a head of one or two digits. |
| ToChars.WriteMiddle | src/to_bytes/to_chars.rs:77-178 | The 7-, 5- or 3-digit cases of `write_9_digits`: the digits of m, pointed, trailing zeros stripped. |
| ToChars.WriteNineFull | src/to_bytes/to_chars.rs:57-76 | A nine-digit value is printed in full with a point after its first digit. |
| ToChars.WriteNineDigits | src/to_bytes/to_chars.rs:56-191 | `write_9_digits` writes the pointed run and raises exp by the number of digits after the first. |
| ToChars.WriteExponentMark | src/to_bytes/to_chars.rs:198-205 | 'E', then '-' for a negative exponent; it returns the magnitude. |
| ToChars.WriteSmallExponent | src/to_bytes/to_chars.rs:207-213 | One or two exponent digits, as needed. |
| ToChars.MagicExponent | src/to_bytes/to_chars.rs:380-387 | a·6554 >> 16 is a / 10 and the fraction gives a mod 10, for a below 1000. |
| ToChars.WriteWideExponent | src/to_bytes/to_chars.rs:380-394 | One to three exponent digits. |
| ToChars.WriteF32 | src/to_bytes/to_chars.rs:193-216 | `write_f32` writes the F32Text of (mant, exp): pointed digits and "E[-]digits" of the first digit's exponent, at most 14 bytes. |
| ToChars.WriteShortExponent | src/to_bytes/to_chars.rs:196-213 | The exponent text of `write_f32`. |
| ToChars.WriteLongExponent | src/to_bytes/to_chars.rs:371-397 | The exponent text of `write_f64`, up to three digits. |
| ToChars.WriteBlockFull | src/to_bytes/to_chars.rs:255-264 | The low block in full: eight zero-padded digits. |
| ToChars.WriteBlockTail | src/to_bytes/to_chars.rs:342-367 | The low block with its trailing zeros stripped. |
| ToChars.WriteLead | src/to_bytes/to_chars.rs:269-339 | The high block, pointed, and the count of digits after the first. |
| ToChars.SplitBlocks | src/to_bytes/to_chars.rs:222-228 | Below 10^17 the wrapping computation yields the high block mant / 10^8 and the low block mant mod 10^8. |
| ToChars.RmantAsWrittenOverflows | src/to_bytes/to_chars.rs:224 | For mant = 4299999999 the subtraction as written underflows, while the wrapping one gives 99999999. |
| ToChars.RmantAsWrittenAgrees | src/to_bytes/to_chars.rs:224 | Whenever the subtraction as written does not underflow, it equals the wrapping one. |
| ToChars.WriteSplit | src/to_bytes/to_chars.rs:235-367 | The split case: the high block pointed, then the low block in full or stripped. |
| ToChars.WriteF64Digits | src/to_bytes/to_chars.rs:218-369 | The significand digits of `write_f64`, with the exponent of the first digit. |
| ToChars.F64RunParts | src/to_bytes/to_chars.rs:218-369 | The pointed run splits into the case the code takes for each mant. |
| ToChars.WriteF64 | src/to_bytes/to_chars.rs:218-397 | Corrected `write_f64`: F64Text, the pointed digits of mant and the exponent of its first digit, at most 23 bytes. |
| ToChars.F64ExponentAsWrittenShort | src/to_bytes/to_chars.rs:230-339 | As written, the exponent of a split significand is 8 too small, except for 17 digits with a nonzero low block. |
| ToChars.F64ExponentAsWrittenExample | src/to_bytes/to_chars.rs:230-339 | 10^16 is printed with exponent 8 though its first digit has exponent 16. |
| Shortest.FloorLog10Pow2 | src/to_bytes/common.rs:37-43 | Over its range the fixed-point product fits an i32, and the result lies in [−789, 788]. |
| Shortest.FloorLog2Pow10 | src/to_bytes/common.rs:44-50 | The same for floor(e·log2 10). |
| Shortest.FloorLog10Pow2MinusLog10FourThirds | src/to_bytes/common.rs:51-56 | The same for floor(e·log10 2 − log10 4/3). |
| Shortest.NormalScale | src/to_bytes/common.rs:188-190 | For every binary32 exponent, −minus_k is a cache index and beta lies in [3, 6]. |
| Shortest.ShorterScale | src/to_bytes/common.rs:247-248 | For the shorter case, −minus_k is a cache index and beta lies in [0, 3]. |
| Shortest.ExtractExponentBits | src/to_bytes/common.rs:109-112 | It extracts the 8-bit biased exponent field. |
| Shortest.ExponentFieldRemoved | src/to_bytes/common.rs:114-116 | `remove_exponent_bits` leaves the sign and fraction fields. |
| Shortest.RemoveSignBitAndShift | src/to_bytes/common.rs:118-120 | u << 1 on 32 bits drops the sign: 2·(u mod 2^31). |
| Shortest.SignTests | src/to_bytes/common.rs:122-137 | `is_nonzero`, `is_negative` and `remove_sign_bit_and_shift` test exactly what their names say. |
| Shortest.UpperBits | src/to_bytes/common.rs:164-169 | The upper 64 bits of the 96-bit product x·y. |
| Shortest.UpperBitsExact | src/to_bytes/common.rs:164-169 | Splitting y into words loses nothing in the upper bits. |
| Shortest.ComputeMul | src/to_bytes/common.rs:139-142 | The integer part of u·cache/2^64, and whether the 32 bits below the point are zero. |
| Shortest.ComputeDelta | src/to_bytes/common.rs:144-146 | The top beta+1 bits of the cache. |
| Shortest.ComputeMulParity | src/to_bytes/common.rs:148-178 | The parity of the scaled endpoint's integer part, and whether its fraction bits are zero. |
| Shortest.ParityBit | src/to_bytes/common.rs:148-154 | The bit test reads the parity bit. |
| Shortest.IntegerBits | src/to_bytes/common.rs:148-154 | The or-of-shifts test holds exactly when the fraction bits are zero. |
| Shortest.CheckDivisibility | src/to_bytes/common.rs:156-162 | For n ≤ 1000 the magic multiply gives n / 10 and tests n mod 10 = 0. |
| Shortest.MagicTen | src/to_bytes/common.rs:156-162 | n·6554 >> 16 is n / 10, and the low bits are below 6554 exactly for multiples of 10. |
| Shortest.RoundedTenth | src/to_bytes/common.rs:221-237 | The small-divisor step's result lies within one unit of c/10, and is even on an exact integer tie. |
| Shortest.NearestFrom | src/to_bytes/common.rs:180-241 | `compute_nearest_normal`'s result: either the big-divisor result within the interval or the rounded small-divisor result, with the matching exponent. |
| Shortest.NormalMagnitudes | src/to_bytes/common.rs:188-196 | zi fits in 31 bits and deltai in 7, the preconditions of the divisions. |
| Shortest.ScaledEndpointBounds | src/to_bytes/common.rs:188-193 | The bounds on a·c/D behind those magnitudes. |
| Shortest.ComputeNearestNormal | src/to_bytes/common.rs:180-241 | `compute_nearest_normal` computes NearestNormal. |
| Shortest.NormalRound | src/to_bytes/common.rs:195-240 | The rounding part matches NearestFrom. |
| Shortest.NormalFront | src/to_bytes/common.rs:188-193 | The quantities the front computes are those of the specification. |
| Shortest.SmallDivisorCase | src/to_bytes/common.rs:218-238 | The small-divisor branch computes RoundedTenth. |
| Shortest.SmallDivisorArith | src/to_bytes/common.rs:221-227 | Its arithmetic: the remainder steps add up to the full division. |
| Shortest.ApproxParity | src/to_bytes/common.rs:222 | ((dist ^ 5) & 1) != 0 exactly for an even dist. |
| Shortest.NormalShift | src/to_bytes/common.rs:193 | (two_fc \| 1) << beta is (2·fc + 1)·2^beta, with no bit lost. |
| Shortest.High | src/to_bytes/common.rs:11-13 | The upper 32 bits of a 64-bit word. |
| Shortest.LeftEndpoint | src/to_bytes/common.rs:284-287 | xi is floor((h − h/2^25) / 2^(8−beta)). |
| Shortest.RightEndpoint | src/to_bytes/common.rs:289-292 | zi is floor((h + h/2^24) / 2^(8−beta)), and the sum does not wrap. |
| Shortest.RightSum | src/to_bytes/common.rs:289-292 | The right endpoint's sum stays below 2^32, and its quotient brackets it. |
| Shortest.RoundUp | src/to_bytes/common.rs:294-296 | The rounded-up significand is h / 2^(8−beta) rounded half up, and lies in [2^23, 2^27]. |
| Shortest.RoundUpBracket | src/to_bytes/common.rs:294-296 | h lies within half a unit of the rounded value. |
| Shortest.ShorterFrom | src/to_bytes/common.rs:256-281 | The shorter case returns zi/10 with exponent minus_k+1 when it lies in [xi, zi], else the round-up within one of m with exponent minus_k. At the tie exponent it is even. |
| Shortest.ComputeNearestShorter | src/to_bytes/common.rs:243-282 | Corrected `compute_nearest_shorter` computes NearestShorter. |
| Shortest.ShorterRound | src/to_bytes/common.rs:256-281 | The rounding part matches ShorterFrom, with the tie thresholds compared against the binary exponent. |
| Shortest.ShorterFront | src/to_bytes/common.rs:247-253 | The shorter case's endpoints fit well inside 32 bits. |
| Shortest.ShorterTieAsWritten | src/to_bytes/common.rs:268-276 | As written, the binary exponent −35 (the value 2^−12) gives 24414063·10^−11, rounded up on a tie. |
| Shortest.ShorterTieCorrected | src/to_bytes/common.rs:268-276 | Corrected, it gives the even 24414062·10^−11, and 24414062.5·10^−11 is exactly 2^−12. |
| Shortest.ShorterBounds | src/to_bytes/common.rs:243-282 | The shorter result is nonzero, below 2^27 + 2, with exponent minus_k or minus_k+1. |
| Shortest.NormalBounds | src/to_bytes/common.rs:180-241 | The normal result is nonzero, below 10^9, with exponent minus_k+1 or minus_k+2. |
| Shortest.DecodedFields | src/to_bytes/common.rs:318-324 | The fields `to_decimal` decodes are those of the bit pattern. |
| Shortest.NormalArguments | src/to_bytes/common.rs:324-342 | The arguments `to_decimal` passes are in range: the hidden bit is set for normal values, exponent −149 for subnormal ones. |
| Shortest.ToDecimal | src/to_bytes/common.rs:318-343 | `to_decimal`, with the corrected tie test, computes Decimal(bits): the shorter case for a power of two, otherwise the normal case. |
| Shortest.DecimalAsWritten | src/to_bytes/common.rs:268-276 | `to_decimal` as written can differ from Decimal only for a power of two, through the shorter case's tie test. |
| Shortest.DecimalTieExample | src/to_bytes/common.rs:268-276 | For bits 0x39800000 (2^−12), `to_decimal` as written gives (24414063, −11) and the corrected Decimal gives (24414062, −11). |
| Shortest.DecimalFits | src/to_bytes/common.rs:318-343 | The decimal significand has at most 9 digits and its scientific exponent lies in [−45, 40]. |
| Shortest.ToCharsLength | src/to_bytes/f32.rs:15 | The text of a finite value fits MAX_BUFFER_LEN bytes. |
| Shortest.F32TextLength | src/to_bytes/to_chars.rs:193-216 | A rendered significand and exponent take at most 14 bytes. |
| Shortest.FiniteToChars | src/to_bytes/common.rs:345-362 | `to_chars` writes '-' for a set sign bit, then "0E0" for a zero or the decimal text of the corrected Decimal(bits), and nothing else. |
| Shortest.WriteMagnitude | src/to_bytes/common.rs:355-361 | The digits part: "0E0" for zero, else the text of the corrected Decimal(bits). |
| Shortest.ExactCacheEntry | src/to_bytes/f32.rs:76-103 | The entries for 10^0 … 10^27 are exactly 10^k scaled into [2^63, 2^64). |
| Shortest.ExactStep | src/to_bytes/f32.rs:76-103 | Consecutive exact entries differ by a factor of 10/8 or 10/16. |
| Shortest.TenthCacheEntry | src/to_bytes/f32.rs:75 | The entry for 10^−1 is 2^67/10 rounded up. |
| Shortest.NonfiniteField | src/to_bytes/common.rs:87-90 | `is_nonfinite` holds exactly for an all-ones exponent field. |
| Shortest.NonfiniteTests | src/to_bytes/common.rs:92-101 | The mask tests read the fraction field and the sign bit. |
| Shortest.NonfiniteText | src/to_bytes/common.rs:92-101 | "NaN" exactly when a fraction bit is set, "-inf" for a negative infinity, "inf" for a positive one. |
| Shortest.FormatTextShape | src/to_bytes/common.rs:70-80 | `format` returns 2 to 15 bytes, starting with '-' exactly for a negative value that is not a NaN. |
| Shortest.LeadingDigit | src/to_bytes/common.rs:345-362 | A non-negative finite value's text does not start with '-'. |
| Shortest.F32TextStartsWithDigit | src/to_bytes/to_chars.rs:193-216 | A rendered significand starts with its leading digit. |
| Shortest.Buffer.constructor | src/to_bytes/common.rs:65-68 | `Buffer::new` allocates MAX_BUFFER_LEN bytes. |
| Shortest.Buffer.Format | src/to_bytes/common.rs:70-80 | `format` returns FormatText: the fixed text for a non-finite value without touching the buffer, or the bytes `to_chars` wrote at its start, built on the corrected Decimal(bits). |
| Arith.Wrap32 | src/from_bytes/parse.rs:138-143 | Two's-complement wrap-around to the i32 range. |
| Arith.LeadingZeros64 | src/from_bytes/bigint.rs:511-518 | u64::leading_zeros: 64 minus the bit length. |
| Arith.LeadingZerosNormalises | src/from_bytes/moderate.rs:25-26 | Shifting a nonzero word by its leading zeros sets bit 63. |

## Left out

- The fast path (`from_bytes/fast.rs`), which is native floating-point arithmetic. It is a parameter of `Parse.Parse`, a function from the token to the bits it produced or None. Its own correctness is not modelled.
- The tables POWER_OF_FIVE_128, the small powers of five and LARGE_POW5. They are parameters constrained by `IsPowerOfFiveTable` and `LargePow5Table`: the shape the code relies on, not the literal rows.
- The FFI wrappers (`ffi.rs`, `cpp/link.cc`) and the binaries (`src/bin`). They are I/O glue.
- The 32-bit-limb variant of the big integer (bigint.rs:273-288, 537). The 64-bit-limb configuration is modelled.
- Correct rounding end to end and shortest-round-trip minimality. These are properties of the real numbers the literals denote. The model proves each step against its own arithmetic specification: the moderate path's candidates, the exact path's comparison and Dragonbox's interval arithmetic.
- Shortest.ComputeNearestShorter: the `include_right_endpoint` adjustment is dead code (the constant is true), so its branch is not modelled.
- Raw pointers and `MaybeUninit` in `Buffer`. Memory is an `array<u8>` of MAX_BUFFER_LEN bytes, and `&str` is a byte sequence.
- The binary64 formatter. This repository's `to_bytes` side formats binary32 only, and `write_f64` is modelled on its own.
- Tokens.ParseIntoTokens requires an input shorter than 2^28 bytes. Past that, lengths cast to i32 could wrap, which the source does not guard against either.
- Tokens.ParseIntoTokens: where the source's i32 exponent arithmetic overflows (a panic with overflow checks, a wrap without them), the token holds the exact exponent saturated to i32 instead of the wrapped value. Tokens.ExpAsWrittenAgrees and Tokens.ExpOverflowExample relate the two.
- Parse.Parse: built on that saturated token exponent, so for literals whose exponent overflows in the source it gives the corrected result, not the source's.
- BigInt.MulPow5: for an empty (zero) vector and an exponent of at least LARGE_POW5_STEP, the value is not promised. `large_mul` as written leaves a nonzero value there (see Findings). `Bigint::pow`'s callers in `slow.rs` never pass a zero value.
- BigInt.BigintPow: the same gap as BigInt.MulPow5, for bases divisible by 5.
- Slow.PositiveDigitComp: the rounded value is promised only for a nonzero mantissa or an exponent below LARGE_POW5_STEP, for the same reason.
- Slow.Slow: the value is promised only for nonzero significant digits, for the same reason. `parse` reaches `slow` only with such digits.
- Shortest.ToDecimal: states the corrected tie test of the shorter case, not the code as written. The two differ at 2^−12 (Shortest.DecimalTieExample).
- Shortest.FiniteToChars: writes the text of the corrected Decimal, so for 2^−12 it states "2.4414062E-4" where the code as written gives "2.4414063E-4".
- Shortest.WriteMagnitude: the same difference as Shortest.FiniteToChars.
- Shortest.Buffer.Format: the same difference as Shortest.FiniteToChars.
- Moderate.Moderate requires mant < 2^64 − 1 for a many-digits token. `parse_into_tokens` guarantees this because mant has 19 digits.
- Slow.Slow requires the exponent to lie within [−342, 308]. `parse` calls `slow` only for tokens the moderate path left undecided, which lie in that range (Parse.UndecidedRange).
- Integer widths. i32 quantities are modelled as unbounded integers where the model proves they stay in range. The places where the source's i32 and u32 arithmetic overflows are findings below (parse.rs:138-143 and to_chars.rs:224).

## Findings

| source | as written | input that shows it | evidently intended | confidence | as-written member | corrected member |
|---|---|---|---|---|---|---|
| src/from_bytes/bigint.rs:453-460 | `large_mul` calls `long_mul(y, x)`. For an empty x (the value 0) and more than one limb in y, `long_mul` skips the empty multiplier and returns y | x = [] (0), y = [1, 1]: the result is 2^64 + 1 | x·y, which is 0 | not executed | BigInt.LargeMulZeroCounterexample | BigInt.LargeMulCorrected |
| src/from_bytes/parse.rs:138-143 | The exponent loop accumulates while exp_number < 0x10000000, so 10·exp_number + digit can leave the i32 range | "1e2147483648": the exponent reaches 2^31 and wraps to −2^31 (a panic with overflow checks) | the exact exponent: the same loop in a wider type, with the token exponent saturated to i32, agreeing with the code wherever it does not overflow | not executed | Tokens.ExpOverflowExample | Tokens.ParseIntoTokens |
| src/to_bytes/to_chars.rs:230-339 | When the significand is split into mant / 10^8 and mant mod 10^8, the exponent is raised only by the digits of the high block, not by the 8 of the low block. `write_f64` has no caller in this repository, so no binary64 output is affected today | mant = 10^16, exp = 0: printed with exponent 8 instead of 16 | the exponent of the first digit, exp + digits − 1 | not executed | ToChars.F64ExponentAsWrittenExample | ToChars.WriteF64 |
| src/to_bytes/to_chars.rs:224 | rmant is `(mant as u32) - lmant.wrapping_mul(10^8)`, a non-wrapping subtraction of two truncated values | mant = 4299999999: the low 32 bits are below 42·10^8 mod 2^32, so the subtraction underflows | a wrapping subtraction, which yields mant mod 10^8 | not executed | ToChars.RmantAsWrittenOverflows | ToChars.SplitBlocks |
| src/to_bytes/common.rs:268-276 | The tie thresholds SHORTER_INTERVAL_TIE_*_THRESHOLD (−35) are compared against `exponent`, which at that point is a shadowing binding equal to minus_k | binary exponent −35 (the value 2^−12): the tie 24414062.5·10^−11 is rounded up to 24414063 | compare against the binary exponent, giving the even 24414062 | not executed | Shortest.ShorterTieAsWritten | Shortest.ShorterTieCorrected |
