/**
 * The lexer of the parse side: `parse_into_tokens` turns the bytes of a
 * decimal literal `[-]digits[.digits][(e|E)[+|-]digits]` into a `Number`
 * token (sign, up to 19 significant digits as a u64, a decimal exponent, and
 * the integer and fraction digit runs), together with the SWAR helpers that
 * test and decode eight ASCII digits held in one little-endian 64-bit word.
 *
 * The word tests are bit-vector predicates (`bv64`); the decoding of a word
 * is integer arithmetic with the wrap-around of u64 written out.
 */
module Scanner {
  import opened Arith

  // ------------------------------------------------------------ eight digits

  /** `u64::from_le_bytes` of eight bytes: the first byte is the least significant. */
  function ReadU64(b: seq<u8>): (r: u64)
    requires |b| == 8
  {
    var w: int := b[0] as int + b[1] as int * 0x100 + b[2] as int * 0x1_0000 + b[3] as int * 0x100_0000
      + b[4] as int * 0x1_0000_0000
      + b[5] as int * 0x100_0000_0000 + b[6] as int * 0x1_0000_0000_0000 + b[7] as int * 0x100_0000_0000_0000;
    w
  }

  /** Eight bytes packed little-endian into a bit vector. */
  function Word(c0: bv8, c1: bv8, c2: bv8, c3: bv8, c4: bv8, c5: bv8, c6: bv8, c7: bv8): bv64
  {
    (c0 as bv64) | ((c1 as bv64) << 8) | ((c2 as bv64) << 16) | ((c3 as bv64) << 24)
    | ((c4 as bv64) << 32) | ((c5 as bv64) << 40) | ((c6 as bv64) << 48) | ((c7 as bv64) << 56)
  }

  /** The word of `ReadU64`, as a bit vector. */
  function ReadWord(b: seq<u8>): bv64
    requires |b| == 8
  {
    Word(b[0] as bv8, b[1] as bv8, b[2] as bv8, b[3] as bv8, b[4] as bv8, b[5] as bv8, b[6] as bv8, b[7] as bv8)
  }

  /**
   * `is_made_of_eight_digits_fast_`: adding 0x46 to a byte sets its top bit
   * when the byte is above '9', subtracting 0x30 sets it when the byte is
   * below '0'.
   */
  predicate IsMadeOfEightDigitsFast(val: bv64)
  {
    ((val + 0x4646464646464646) | (val - 0x3030303030303030)) & 0x8080808080808080 == 0
  }

  predicate IsDigitBits(c: bv8) { 0x30 <= c <= 0x39 }

  lemma EightDigitsBits(c0: bv8, c1: bv8, c2: bv8, c3: bv8, c4: bv8, c5: bv8, c6: bv8, c7: bv8)
    ensures IsMadeOfEightDigitsFast(Word(c0, c1, c2, c3, c4, c5, c6, c7))
      <==> (IsDigitBits(c0) && IsDigitBits(c1) && IsDigitBits(c2) && IsDigitBits(c3)
            && IsDigitBits(c4) && IsDigitBits(c5) && IsDigitBits(c6) && IsDigitBits(c7))
  {
  }

  lemma ByteBits(x: u8)
    ensures IsDigitBits(x as bv8) <==> IsDigit(x)
  {
  }

  lemma ReadWordBits(b: seq<u8>)
    requires |b| == 8
    ensures IsMadeOfEightDigitsFast(ReadWord(b))
      <==> (IsDigitBits(b[0] as bv8) && IsDigitBits(b[1] as bv8) && IsDigitBits(b[2] as bv8) && IsDigitBits(b[3] as bv8)
            && IsDigitBits(b[4] as bv8) && IsDigitBits(b[5] as bv8) && IsDigitBits(b[6] as bv8) && IsDigitBits(b[7] as bv8))
  {
    EightDigitsBits(b[0] as bv8, b[1] as bv8, b[2] as bv8, b[3] as bv8, b[4] as bv8, b[5] as bv8, b[6] as bv8, b[7] as bv8);
  }

  /** `is_made_of_eight_digits_fast` holds exactly of eight ASCII digits. */
  lemma IsMadeOfEightDigitsFastIff(b: seq<u8>)
    requires |b| == 8
    ensures IsMadeOfEightDigitsFast(ReadWord(b)) <==> AllDigits(b)
  {
    ReadWordBits(b);
    ByteBits(b[0]); ByteBits(b[1]); ByteBits(b[2]); ByteBits(b[3]);
    ByteBits(b[4]); ByteBits(b[5]); ByteBits(b[6]); ByteBits(b[7]);
    assert AllDigits(b) <==> (IsDigit(b[0]) && IsDigit(b[1]) && IsDigit(b[2]) && IsDigit(b[3])
      && IsDigit(b[4]) && IsDigit(b[5]) && IsDigit(b[6]) && IsDigit(b[7]));
  }

  /**
   * `parse_eight_digits_unrolled_`: subtracts '0' from every byte, merges
   * neighbouring bytes into base-100 digits (`val * 10 + (val >> 8)`), then
   * picks bytes 0 and 4, and 2 and 6, and weighs them by multiplies whose
   * high words add up the base-10^4 halves. The subtraction and the first
   * multiply are not wrapping in the source, so they must not overflow.
   */
  function ParseEightDigitsUnrolled(val: u64): (r: u32)
    requires val >= 0x3030303030303030
    requires (val - 0x3030303030303030) * 10 + (val - 0x3030303030303030) / 0x100 < TWO64
  {
    var v := val - 0x3030303030303030;
    Weigh(v * 10 + v / 0x100)
  }

  /**
   * The second half of `parse_eight_digits_unrolled_`: bytes 0 and 4 times
   * 0x000f424000000064, plus bytes 2 and 6 times 0x0000271000000001, both
   * wrapping, and the high word of the sum.
   */
  function Weigh(v: u64): (r: u32)
  {
    var lo := BitAnd(v, 0x000000ff000000ff) * 0x000f424000000064 % TWO64;
    var hi := BitAnd(v / 0x1_0000, 0x000000ff000000ff) * 0x0000271000000001 % TWO64;
    (lo + hi) % TWO64 / TWO32
  }

  /** `parse_eight_digits_unrolled`: decodes the first eight bytes of a digit run. */
  function ParseEightDigits(b: seq<u8>): (r: u32)
    requires |b| == 8 && AllDigits(b)
    ensures r == DecimalValue(b)
  {
    ParseEightDigitsValue(b);
    ParseEightDigitsUnrolled(ReadU64(b))
  }

  /** Masking a word of eight bytes with 0x000000ff000000ff keeps bytes 0 and 4. */
  lemma ByteMask(x0: nat, x1: nat, x2: nat, x3: nat, x4: nat, x5: nat, x6: nat, x7: nat)
    requires x0 < 0x100 && x1 < 0x100 && x2 < 0x100 && x3 < 0x100
    requires x4 < 0x100 && x5 < 0x100 && x6 < 0x100 && x7 < 0x100
    ensures BitAnd(x0 + x1 * 0x100 + x2 * 0x1_0000 + x3 * 0x100_0000 + x4 * 0x1_0000_0000
                   + x5 * 0x100_0000_0000 + x6 * 0x1_0000_0000_0000 + x7 * 0x100_0000_0000_0000,
                   0x000000ff000000ff) == x0 + x4 * TWO32
  {
    var lo := x0 + x1 * 0x100 + x2 * 0x1_0000 + x3 * 0x100_0000;
    var hi := x4 + x5 * 0x100 + x6 * 0x1_0000 + x7 * 0x100_0000;
    LowByte(x0, x1, x2, x3);
    LowByte(x4, x5, x6, x7);
    AndSplit32(lo, hi, 0xff, 0xff);
  }

  /** The 32-bit instance of `AndSplit`: the two halves of a word are masked separately. */
  lemma AndSplit32(lo: nat, c: nat, lo': nat, d: nat)
    requires lo < TWO32 && lo' < TWO32
    ensures BitAnd(lo + c * TWO32, lo' + d * TWO32) == BitAnd(lo, lo') + BitAnd(c, d) * TWO32
  {
    Pow2Table();
    AndSplit(lo, c, lo', d, 32);
  }

  /** Masking a four-byte word with 0xff keeps byte 0. */
  lemma LowByte(x0: nat, x1: nat, x2: nat, x3: nat)
    requires x0 < 0x100 && x1 < 0x100 && x2 < 0x100 && x3 < 0x100
    ensures x0 + x1 * 0x100 + x2 * 0x1_0000 + x3 * 0x100_0000 < TWO32
    ensures BitAnd(x0 + x1 * 0x100 + x2 * 0x1_0000 + x3 * 0x100_0000, 0xff) == x0
  {
    var w := x0 + x1 * 0x100 + x2 * 0x1_0000 + x3 * 0x100_0000;
    Pow2Table();
    BitAndLowMask(w, 8);
    DivUnique(w, 0x100, x1 + x2 * 0x100 + x3 * 0x1_0000, x0);
  }

  /** One more digit at the end of a prefix of a digit run. */
  lemma DecimalValueStep(s: seq<u8>, k: nat)
    requires AllDigits(s) && k < |s|
    ensures AllDigits(s[..k]) && AllDigits(s[..k + 1])
    ensures DecimalValue(s[..k + 1]) == 10 * DecimalValue(s[..k]) + DigitValue(s[k])
  {
    assert s[..k + 1][..k] == s[..k];
  }

  /** Four more digits at the end of a prefix of a digit run. */
  lemma DecimalFour(s: seq<u8>, k: nat)
    requires AllDigits(s) && k + 4 <= |s|
    ensures AllDigits(s[..k]) && AllDigits(s[..k + 4])
    ensures DecimalValue(s[..k + 4]) == DecimalValue(s[..k]) * 10000 + DigitValue(s[k]) * 1000
      + DigitValue(s[k + 1]) * 100 + DigitValue(s[k + 2]) * 10 + DigitValue(s[k + 3])
  {
    DecimalValueStep(s, k);
    DecimalValueStep(s, k + 1);
    DecimalValueStep(s, k + 2);
    DecimalValueStep(s, k + 3);
    var a, b, c := DecimalValue(s[..k + 1]), DecimalValue(s[..k + 2]), DecimalValue(s[..k + 3]);
    assert a == 10 * DecimalValue(s[..k]) + DigitValue(s[k]);
    assert b == 10 * a + DigitValue(s[k + 1]);
    assert c == 10 * b + DigitValue(s[k + 2]);
  }

  /** The value of eight digits, spelled out. */
  lemma DecimalEight(b: seq<u8>)
    requires |b| == 8 && AllDigits(b)
    ensures DecimalValue(b) == DigitValue(b[0]) * 10000000 + DigitValue(b[1]) * 1000000 + DigitValue(b[2]) * 100000
      + DigitValue(b[3]) * 10000 + DigitValue(b[4]) * 1000 + DigitValue(b[5]) * 100 + DigitValue(b[6]) * 10 + DigitValue(b[7])
  {
    DecimalFour(b, 0);
    DecimalFour(b, 4);
    assert b[..0] == [];
    assert b[..8] == b;
  }

  /** `val * 10 + (val >> 8)` on bytes below 10 puts 10 * d[i] + d[i + 1] in byte i. */
  lemma SwarCombine(d0: nat, d1: nat, d2: nat, d3: nat, d4: nat, d5: nat, d6: nat, d7: nat, v1: int)
    requires d0 < 10 && d1 < 10 && d2 < 10 && d3 < 10 && d4 < 10 && d5 < 10 && d6 < 10 && d7 < 10
    requires v1 == d0 + d1 * 0x100 + d2 * 0x1_0000 + d3 * 0x100_0000 + d4 * 0x1_0000_0000
                   + d5 * 0x100_0000_0000 + d6 * 0x1_0000_0000_0000 + d7 * 0x100_0000_0000_0000
    ensures v1 * 10 + v1 / 0x100 == (10 * d0 + d1) + (10 * d1 + d2) * 0x100 + (10 * d2 + d3) * 0x1_0000
      + (10 * d3 + d4) * 0x100_0000 + (10 * d4 + d5) * 0x1_0000_0000 + (10 * d5 + d6) * 0x100_0000_0000
      + (10 * d6 + d7) * 0x1_0000_0000_0000 + (10 * d7) * 0x100_0000_0000_0000
  {
    var q1 := d1 + d2 * 0x100 + d3 * 0x1_0000 + d4 * 0x100_0000 + d5 * 0x1_0000_0000
              + d6 * 0x100_0000_0000 + d7 * 0x1_0000_0000_0000;
    DivUnique(v1, 0x100, q1, d0);
  }

  /** The two weighted multiplies add up 10^6 * e0 + 10^4 * e2 + 100 * e4 + e6 in the high word. */
  lemma SwarFinal(e0: nat, e1: nat, e2: nat, e3: nat, e4: nat, e5: nat, e6: nat, e7: nat, v2: nat)
    requires e0 < 100 && e1 < 100 && e2 < 100 && e3 < 100 && e4 < 100 && e5 < 100 && e6 < 100 && e7 < 100
    requires v2 == e0 + e1 * 0x100 + e2 * 0x1_0000 + e3 * 0x100_0000 + e4 * 0x1_0000_0000
                   + e5 * 0x100_0000_0000 + e6 * 0x1_0000_0000_0000 + e7 * 0x100_0000_0000_0000
    ensures v2 < TWO64 && Weigh(v2) == 1000000 * e0 + 10000 * e2 + 100 * e4 + e6
  {
    var m1 := BitAnd(v2, 0x000000ff000000ff);
    assert m1 == e0 + e4 * TWO32 by {
      ByteMask(e0, e1, e2, e3, e4, e5, e6, e7);
    }
    var m2 := BitAnd(v2 / 0x1_0000, 0x000000ff000000ff);
    assert m2 == e2 + e6 * TWO32 by {
      ShiftedByteMask(e0, e1, e2, e3, e4, e5, e6, e7, v2);
    }
    assert Weigh(v2) == (m1 * 0x000f424000000064 % TWO64 + m2 * 0x0000271000000001 % TWO64) % TWO64 / TWO32;
    WeighHigh(e0, e4, m1);
    WeighLow(e2, e6, m2);
    var x, y := 1000000 * e0 + 100 * e4, 10000 * e2 + e6;
    var a, b := 100 * e0 + x * TWO32, e2 + y * TWO32;
    assert a + b == 100 * e0 + e2 + (x + y) * TWO32;
    SmallDiv(a + b, TWO64);
    DivUnique(a + b, TWO32, x + y, 100 * e0 + e2);
  }

  /** Shifting right by two bytes and masking keeps bytes 2 and 6. */
  lemma ShiftedByteMask(e0: nat, e1: nat, e2: nat, e3: nat, e4: nat, e5: nat, e6: nat, e7: nat, v2: nat)
    requires e0 < 0x100 && e1 < 0x100 && e2 < 0x100 && e3 < 0x100
    requires e4 < 0x100 && e5 < 0x100 && e6 < 0x100 && e7 < 0x100
    requires v2 == e0 + e1 * 0x100 + e2 * 0x1_0000 + e3 * 0x100_0000 + e4 * 0x1_0000_0000
                   + e5 * 0x100_0000_0000 + e6 * 0x1_0000_0000_0000 + e7 * 0x100_0000_0000_0000
    ensures BitAnd(v2 / 0x1_0000, 0x000000ff000000ff) == e2 + e6 * TWO32
  {
    var q2 := e2 + e3 * 0x100 + e4 * 0x1_0000 + e5 * 0x100_0000 + e6 * 0x1_0000_0000 + e7 * 0x100_0000_0000;
    DivUnique(v2, 0x1_0000, q2, e0 + e1 * 0x100);
    ByteMask(e2, e3, e4, e5, e6, e7, 0, 0);
  }

  /** Bytes 0 and 4 weighed by 100 and 10^6 (wrapping multiply). */
  lemma WeighHigh(e0: nat, e4: nat, m: nat)
    requires e0 < 100 && e4 < 100 && m == e0 + e4 * TWO32
    ensures m * 0x000f424000000064 % TWO64 == 100 * e0 + (1000000 * e0 + 100 * e4) * TWO32
  {
    var a := 100 * e0 + (1000000 * e0 + 100 * e4) * TWO32;
    assert m * 0x000f424000000064 == 1000000 * e4 * TWO64 + a;
    DivAddMultiple(1000000 * e4, a, TWO64);
    SmallDiv(a, TWO64);
  }

  /** Bytes 2 and 6 weighed by 1 and 10^4 (wrapping multiply). */
  lemma WeighLow(e2: nat, e6: nat, m: nat)
    requires e2 < 100 && e6 < 100 && m == e2 + e6 * TWO32
    ensures m * 0x0000271000000001 % TWO64 == e2 + (10000 * e2 + e6) * TWO32
  {
    var b := e2 + (10000 * e2 + e6) * TWO32;
    assert m * 0x0000271000000001 == 10000 * e6 * TWO64 + b;
    DivAddMultiple(10000 * e6, b, TWO64);
    SmallDiv(b, TWO64);
  }

  /** The decode of a word whose bytes are the digits d0 .. d7, first byte first. */
  lemma SwarDigits(d0: nat, d1: nat, d2: nat, d3: nat, d4: nat, d5: nat, d6: nat, d7: nat, val: int)
    requires d0 < 10 && d1 < 10 && d2 < 10 && d3 < 10 && d4 < 10 && d5 < 10 && d6 < 10 && d7 < 10
    requires val == (d0 + 0x30) + (d1 + 0x30) * 0x100 + (d2 + 0x30) * 0x1_0000 + (d3 + 0x30) * 0x100_0000
                    + (d4 + 0x30) * 0x1_0000_0000 + (d5 + 0x30) * 0x100_0000_0000
                    + (d6 + 0x30) * 0x1_0000_0000_0000 + (d7 + 0x30) * 0x100_0000_0000_0000
    ensures 0x3030303030303030 <= val < TWO64
    ensures (val - 0x3030303030303030) * 10 + (val - 0x3030303030303030) / 0x100 < TWO64
    ensures ParseEightDigitsUnrolled(val) == d0 * 10000000 + d1 * 1000000 + d2 * 100000 + d3 * 10000
                                             + d4 * 1000 + d5 * 100 + d6 * 10 + d7
  {
    var v1 := val - 0x3030303030303030;
    var e0, e1, e2, e3 := 10 * d0 + d1, 10 * d1 + d2, 10 * d2 + d3, 10 * d3 + d4;
    var e4, e5, e6, e7 := 10 * d4 + d5, 10 * d5 + d6, 10 * d6 + d7, 10 * d7;
    var v2 := v1 * 10 + v1 / 0x100;
    assert v2 == e0 + e1 * 0x100 + e2 * 0x1_0000 + e3 * 0x100_0000 + e4 * 0x1_0000_0000
                 + e5 * 0x100_0000_0000 + e6 * 0x1_0000_0000_0000 + e7 * 0x100_0000_0000_0000 by {
      SwarCombine(d0, d1, d2, d3, d4, d5, d6, d7, v1);
    }
    SwarFinal(e0, e1, e2, e3, e4, e5, e6, e7, v2);
    assert ParseEightDigitsUnrolled(val) == Weigh(v2);
    assert 1000000 * e0 + 10000 * e2 + 100 * e4 + e6 == d0 * 10000000 + d1 * 1000000 + d2 * 100000 + d3 * 10000
                                                        + d4 * 1000 + d5 * 100 + d6 * 10 + d7;
  }

  lemma ParseEightDigitsValue(b: seq<u8>)
    requires |b| == 8 && AllDigits(b)
    ensures ReadU64(b) >= 0x3030303030303030
    ensures (ReadU64(b) - 0x3030303030303030) * 10 + (ReadU64(b) - 0x3030303030303030) / 0x100 < TWO64
    ensures ParseEightDigitsUnrolled(ReadU64(b)) == DecimalValue(b)
  {
    assert IsDigit(b[0]) && IsDigit(b[1]) && IsDigit(b[2]) && IsDigit(b[3]);
    assert IsDigit(b[4]) && IsDigit(b[5]) && IsDigit(b[6]) && IsDigit(b[7]);
    SwarDigits(DigitValue(b[0]), DigitValue(b[1]), DigitValue(b[2]), DigitValue(b[3]),
               DigitValue(b[4]), DigitValue(b[5]), DigitValue(b[6]), DigitValue(b[7]), ReadU64(b));
    DecimalEight(b);
  }
}
