/**
 * The binary32 instantiation of the shortest-digit formatter: the layout
 * constants, the tuning constants of the digit search, and the table of
 * 64-bit powers of ten that `get(k)` reads.
 */
module F32 {
  import opened Arith
  import opened Layout

  const EXPONENT_MASK: u32 := 0x7f80_0000
  const MANTISSA_MASK: u32 := 0x007f_ffff
  const SIGN_MASK: u32 := 0x8000_0000

  /** Sign, nine significand digits, `.`, `E`, `-` and two exponent digits. */
  const MAX_BUFFER_LEN: nat := 1 + 9 + 1 + 1 + 1 + 2

  const MANTISSA_BITS: nat := 23
  const EXPONENT_BITS: nat := 8
  const MIN_EXPONENT: int := -126
  const EXPONENT_BIAS: int := -127

  const CARRIER_BITS: nat := 32
  const KAPPA: nat := 1

  const BIG_DIVISOR: nat := 100
  const SMALL_DIVISOR: nat := 10

  const MAGIC_NUMBER: nat := 6554
  const SHIFT_AMOUNT: nat := 16

  const SHORTER_INTERVAL_TIE_LOWER_THRESHOLD: int := -35
  const SHORTER_INTERVAL_TIE_UPPER_THRESHOLD: int := -35

  const MIN_K: int := -31
  const MAX_K: int := 46

  /**
   * CACHE, entry k - MIN_K for 10^k.  The table is one array in the
   * program; it is written here as three runs: the inexact entries for
   * negative k, the exact entries for k in [0, 27], and the truncated
   * entries for k in [28, 46].
   */
  const CACHE: seq<u64> := CACHE_NEGATIVE + CACHE_EXACT + CACHE_POSITIVE

  const CACHE_NEGATIVE: seq<u64> := [
    0x81ce_b32c_4b43_fcf5, 0xa242_5ff7_5e14_fc32, 0xcad2_f7f5_359a_3b3f, 0xfd87_b5f2_8300_ca0e,
    0x9e74_d1b7_91e0_7e49, 0xc612_0625_7658_9ddb, 0xf796_87ae_d3ee_c552, 0x9abe_14cd_4475_3b53,
    0xc16d_9a00_9592_8a28, 0xf1c9_0080_baf7_2cb2, 0x971d_a050_74da_7bef, 0xbce5_0864_9211_1aeb,
    0xec1e_4a7d_b695_61a6, 0x9392_ee8e_921d_5d08, 0xb877_aa32_36a4_b44a, 0xe695_94be_c44d_e15c,
    0x901d_7cf7_3ab0_acda, 0xb424_dc35_095c_d810, 0xe12e_1342_4bb4_0e14, 0x8cbc_cc09_6f50_88cc,
    0xafeb_ff0b_cb24_aaff, 0xdbe6_fece_bded_d5bf, 0x8970_5f41_36b4_a598, 0xabcc_7711_8461_cefd,
    0xd6bf_94d5_e57a_42bd, 0x8637_bd05_af6c_69b6, 0xa7c5_ac47_1b47_8424, 0xd1b7_1758_e219_652c,
    0x8312_6e97_8d4f_df3c, 0xa3d7_0a3d_70a3_d70b, 0xcccc_cccc_cccc_cccd
  ]

  const CACHE_EXACT: seq<u64> := [
    0x8000_0000_0000_0000, 0xa000_0000_0000_0000, 0xc800_0000_0000_0000, 0xfa00_0000_0000_0000,
    0x9c40_0000_0000_0000, 0xc350_0000_0000_0000, 0xf424_0000_0000_0000, 0x9896_8000_0000_0000,
    0xbebc_2000_0000_0000, 0xee6b_2800_0000_0000, 0x9502_f900_0000_0000, 0xba43_b740_0000_0000,
    0xe8d4_a510_0000_0000, 0x9184_e72a_0000_0000, 0xb5e6_20f4_8000_0000, 0xe35f_a931_a000_0000,
    0x8e1b_c9bf_0400_0000, 0xb1a2_bc2e_c500_0000, 0xde0b_6b3a_7640_0000, 0x8ac7_2304_89e8_0000,
    0xad78_ebc5_ac62_0000, 0xd8d7_26b7_177a_8000, 0x8786_7832_6eac_9000, 0xa968_163f_0a57_b400,
    0xd3c2_1bce_cced_a100, 0x8459_5161_4014_84a0, 0xa56f_a5b9_9019_a5c8, 0xcecb_8f27_f420_0f3a
  ]

  const CACHE_POSITIVE: seq<u64> := [
    0x813f_3978_f894_0985, 0xa18f_07d7_36b9_0be6, 0xc9f2_c9cd_0467_4edf, 0xfc6f_7c40_4581_2297,
    0x9dc5_ada8_2b70_b59e, 0xc537_1912_364c_e306, 0xf684_df56_c3e0_1bc7, 0x9a13_0b96_3a6c_115d,
    0xc097_ce7b_c907_15b4, 0xf0bd_c21a_bb48_db21, 0x9676_9950_b50d_88f5, 0xbc14_3fa4_e250_eb32,
    0xeb19_4f8e_1ae5_25fe, 0x92ef_d1b8_d0cf_37bf, 0xb7ab_c627_0503_05ae, 0xe596_b7b0_c643_c71a,
    0x8f7e_32ce_7bea_5c70, 0xb35d_bf82_1ae4_f38c, 0xe035_2f62_a19e_306f
  ]

  /** The layout constants are those of binary32: three disjoint fields covering the word. */
  lemma F32Masks()
    ensures MANTISSA_MASK == MantMask(F32) == Pow2(MANTISSA_BITS) - 1
    ensures EXPONENT_MASK == ExpMask(F32) == (Pow2(EXPONENT_BITS) - 1) * Pow2(MANTISSA_BITS)
    ensures SIGN_MASK == SignMask(F32) == Pow2(MANTISSA_BITS + EXPONENT_BITS)
    ensures SIGN_MASK + EXPONENT_MASK + MANTISSA_MASK == TWO32 - 1
    ensures BitAnd(SIGN_MASK, EXPONENT_MASK) == 0 && BitAnd(SIGN_MASK, MANTISSA_MASK) == 0
    ensures BitAnd(EXPONENT_MASK, MANTISSA_MASK) == 0
  {
    MaskValues(F32);
    MasksDisjoint(F32);
    Pow2Table();
  }

  /** Every entry is a 64-bit value with its top bit set and its top byte not all ones. */
  lemma CacheEntryBounds(i: int)
    requires 0 <= i < |CACHE|
    ensures 0x8000_0000_0000_0000 <= CACHE[i] < 0xff00_0000_0000_0000
  {
    var n, e := |CACHE_NEGATIVE|, |CACHE_EXACT|;
    if i < n {
      assert CACHE[i] == CACHE_NEGATIVE[i];
      RowBounds(CACHE_NEGATIVE, i);
    } else if i < n + e {
      assert CACHE[i] == CACHE_EXACT[i - n];
      RowBounds(CACHE_EXACT, i - n);
    } else {
      assert CACHE[i] == CACHE_POSITIVE[i - n - e];
      RowBounds(CACHE_POSITIVE, i - n - e);
    }
  }

  lemma RowBounds(row: seq<u64>, j: int)
    requires row == CACHE_NEGATIVE || row == CACHE_EXACT || row == CACHE_POSITIVE
    requires 0 <= j < |row|
    ensures 0x8000_0000_0000_0000 <= row[j] < 0xff00_0000_0000_0000
  {
    if row == CACHE_NEGATIVE {
      NegativeRowBounds(j);
    } else if row == CACHE_EXACT {
      ExactRowBounds(j);
    } else {
      PositiveRowBounds(j);
    }
  }

  lemma NegativeRowBounds(j: int)
    requires 0 <= j < |CACHE_NEGATIVE|
    ensures 0x8000_0000_0000_0000 <= CACHE_NEGATIVE[j] < 0xff00_0000_0000_0000
  {
    if j == 0 {}
    else if j == 1 {}
    else if j == 2 {}
    else if j == 3 {}
    else if j == 4 {}
    else if j == 5 {}
    else if j == 6 {}
    else if j == 7 {}
    else if j == 8 {}
    else if j == 9 {}
    else if j == 10 {}
    else if j == 11 {}
    else if j == 12 {}
    else if j == 13 {}
    else if j == 14 {}
    else if j == 15 {}
    else if j == 16 {}
    else if j == 17 {}
    else if j == 18 {}
    else if j == 19 {}
    else if j == 20 {}
    else if j == 21 {}
    else if j == 22 {}
    else if j == 23 {}
    else if j == 24 {}
    else if j == 25 {}
    else if j == 26 {}
    else if j == 27 {}
    else if j == 28 {}
    else if j == 29 {}
    else {}
  }

  lemma ExactRowBounds(j: int)
    requires 0 <= j < |CACHE_EXACT|
    ensures 0x8000_0000_0000_0000 <= CACHE_EXACT[j] < 0xff00_0000_0000_0000
  {
    if j == 0 {}
    else if j == 1 {}
    else if j == 2 {}
    else if j == 3 {}
    else if j == 4 {}
    else if j == 5 {}
    else if j == 6 {}
    else if j == 7 {}
    else if j == 8 {}
    else if j == 9 {}
    else if j == 10 {}
    else if j == 11 {}
    else if j == 12 {}
    else if j == 13 {}
    else if j == 14 {}
    else if j == 15 {}
    else if j == 16 {}
    else if j == 17 {}
    else if j == 18 {}
    else if j == 19 {}
    else if j == 20 {}
    else if j == 21 {}
    else if j == 22 {}
    else if j == 23 {}
    else if j == 24 {}
    else if j == 25 {}
    else if j == 26 {}
    else {}
  }

  lemma PositiveRowBounds(j: int)
    requires 0 <= j < |CACHE_POSITIVE|
    ensures 0x8000_0000_0000_0000 <= CACHE_POSITIVE[j] < 0xff00_0000_0000_0000
  {
    if j == 0 {}
    else if j == 1 {}
    else if j == 2 {}
    else if j == 3 {}
    else if j == 4 {}
    else if j == 5 {}
    else if j == 6 {}
    else if j == 7 {}
    else if j == 8 {}
    else if j == 9 {}
    else if j == 10 {}
    else if j == 11 {}
    else if j == 12 {}
    else if j == 13 {}
    else if j == 14 {}
    else if j == 15 {}
    else if j == 16 {}
    else if j == 17 {}
    else {}
  }

  /** `get(k)`: the entry for 10^k, for k in [MIN_K, MAX_K]. */
  function Get(k: int): (r: u64)
    requires MIN_K <= k <= MAX_K
    ensures 0x8000_0000_0000_0000 <= r < 0xff00_0000_0000_0000
  {
    CacheEntryBounds(k - MIN_K);
    EntryIsIndex(CACHE, k - MIN_K);
    Entry(CACHE, k - MIN_K)
  }

  /** get(k) for 0 <= k <= 27 reads the run of exact entries, and get(-1) the last inexact one. */
  lemma ExactRun(k: int)
    requires 0 <= k <= 27 || k == -1
    ensures k >= 0 ==> Get(k) == CACHE_EXACT[k]
    ensures k == -1 ==> Get(k) == 0xcccc_cccc_cccc_cccd
  {
    EntryIsIndex(CACHE, k - MIN_K);
    if k >= 0 {
      assert CACHE[k - MIN_K] == CACHE_EXACT[k];
    } else {
      assert CACHE[k - MIN_K] == CACHE_NEGATIVE[30];
    }
  }

  /** Entry i of a table, by recursion on i. */
  function Entry(t: seq<u64>, i: nat): u64
    requires i < |t|
  {
    if i == 0 then t[0] else Entry(t[1..], i - 1)
  }

  lemma {:induction false} EntryIsIndex(t: seq<u64>, i: nat)
    requires i < |t|
    ensures Entry(t, i) == t[i]
  {
    if i > 0 {
      EntryIsIndex(t[1..], i - 1);
    }
  }
}
