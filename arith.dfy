/**
 * Machine words, powers and digit strings shared by both conversion engines.
 *
 * Rust's fixed-width integers are modelled as subsets of `int`.  A shift by a
 * constant or variable amount is written as multiplication or division by a
 * power of two, a mask made of contiguous one bits as `%` and `/` on powers of
 * two, and the wrap-around of `wrapping_*` operations (and of plain operators
 * in release builds) as an explicit `%` by the word size.
 */
module Arith {

  type u8 = x: int | 0 <= x < 0x100
  type u32 = x: int | 0 <= x < 0x1_0000_0000
  type u64 = x: int | 0 <= x < 0x1_0000_0000_0000_0000
  type i32 = x: int | -0x8000_0000 <= x < 0x8000_0000

  /** Two's-complement wrap-around to 32 bits, as a release build does on overflow. */
  function Wrap32(x: int): (r: i32)
    ensures (r - x) % 0x1_0000_0000 == 0
  {
    (x + 0x8000_0000) % 0x1_0000_0000 - 0x8000_0000
  }

  /** A 32-bit value that did not wrap is itself. */
  lemma Wrap32Small(x: int)
    requires -0x8000_0000 <= x < 0x8000_0000
    ensures Wrap32(x) == x
  {
  }

  /** An exponent clamped to the i32 range: values past either end become that end. */
  function Saturate32(x: int): (r: i32)
    ensures -0x8000_0000 <= x < 0x8000_0000 ==> r == x
    ensures x >= 0x8000_0000 ==> r == 0x7FFF_FFFF
    ensures x < -0x8000_0000 ==> r == -0x8000_0000
  {
    if x >= 0x8000_0000 then 0x7FFF_FFFF else if x < -0x8000_0000 then -0x8000_0000 else x
  }

  /** A value that may be missing: Rust's `Option`, where `None` also stands for a panic. */
  datatype Option<T> = None | Some(value: T)

  /** The three-way result of a comparison (Rust's `cmp::Ordering`). */
  datatype Ordering = Less | Equal | Greater

  function Cmp(a: int, b: int): Ordering
  {
    if a < b then Less else if a == b then Equal else Greater
  }

  const TWO32: int := 0x1_0000_0000
  const TWO64: int := 0x1_0000_0000_0000_0000

  /** b to the power n. */
  function Pow(b: nat, n: nat): nat
  {
    if n == 0 then 1 else b * Pow(b, n - 1)
  }

  function Pow2(n: nat): (r: nat)
    ensures r >= 1
  {
    PowPositive(2, n);
    Pow(2, n)
  }
  function Pow5(n: nat): nat { Pow(5, n) }
  function Pow10(n: nat): (r: nat)
    ensures r >= 1
  {
    PowPositive(10, n);
    Pow(10, n)
  }

  lemma {:induction false} PowPositive(b: nat, n: nat)
    requires b > 0
    ensures Pow(b, n) > 0
  {
    if n > 0 {
      PowPositive(b, n - 1);
    }
  }

  lemma {:induction false} PowAdd(b: nat, m: nat, n: nat)
    ensures Pow(b, m + n) == Pow(b, m) * Pow(b, n)
  {
    if n > 0 {
      PowAdd(b, m, n - 1);
      assert Pow(b, m + n) == b * Pow(b, m + n - 1);
      assert b * (Pow(b, m) * Pow(b, n - 1)) == Pow(b, m) * (b * Pow(b, n - 1));
    }
  }

  lemma {:induction false} PowMul(a: nat, b: nat, n: nat)
    ensures Pow(a * b, n) == Pow(a, n) * Pow(b, n)
  {
    if n > 0 {
      PowMul(a, b, n - 1);
      MulShuffle(a, b, Pow(a, n - 1), Pow(b, n - 1));
    }
  }

  lemma {:induction false} PowOfPow(b: nat, m: nat, n: nat)
    ensures Pow(Pow(b, m), n) == Pow(b, m * n)
  {
    if n > 0 {
      PowOfPow(b, m, n - 1);
      PowAdd(b, m, m * (n - 1));
      assert m * n == m + m * (n - 1);
    }
  }

  lemma {:induction false} PowMonotone(b: nat, m: nat, n: nat)
    requires b > 0 && m <= n
    ensures Pow(b, m) <= Pow(b, n)
  {
    if m < n {
      PowMonotone(b, m, n - 1);
      PowPositive(b, n - 1);
    }
  }

  lemma {:induction false} PowStrictMonotone(b: nat, m: nat, n: nat)
    requires b > 1 && m < n
    ensures Pow(b, m) < Pow(b, n)
  {
    PowMonotone(b, m, n - 1);
    PowPositive(b, n - 1);
  }

  lemma {:induction false} PowBaseMonotone(a: nat, b: nat, n: nat)
    requires a <= b
    ensures Pow(a, n) <= Pow(b, n)
  {
    if n > 0 {
      PowBaseMonotone(a, b, n - 1);
      MulMonotone(a, Pow(a, n - 1), b, Pow(b, n - 1));
    }
  }

  lemma MulSwap(a: int, b: int, c: int)
    ensures a * (b * c) == b * (a * c)
  {
  }

  lemma MulAssoc(a: int, b: int, c: int)
    ensures a * (b * c) == (a * b) * c
  {
  }

  lemma MulShuffle(a: int, b: int, c: int, d: int)
    ensures (a * b) * (c * d) == (a * c) * (b * d)
  {
  }

  lemma MulMonotone(a: nat, b: nat, c: nat, d: nat)
    requires a <= c && b <= d
    ensures a * b <= c * d
  {
    assert a * b <= c * b;
    assert c * b <= c * d;
  }

  lemma Pow2Facts()
    ensures Pow2(8) == 0x100 && Pow2(16) == 0x1_0000 && Pow2(32) == TWO32 && Pow2(64) == TWO64
  {
    PowAdd(2, 8, 8);
    PowAdd(2, 16, 16);
    PowAdd(2, 32, 32);
  }

  lemma Pow2Of64()
    ensures Pow2(64) == TWO64
  {
    Pow2Facts();
  }

  /** The powers of two that the layouts of binary32 and binary64 use. */
  lemma Pow2Table()
    ensures Pow2(1) == 2 && Pow2(8) == 0x100 && Pow2(11) == 0x800 && Pow2(16) == 0x1_0000
    ensures Pow2(23) == 0x80_0000 && Pow2(24) == 0x100_0000 && Pow2(25) == 0x200_0000
    ensures Pow2(31) == 0x8000_0000 && Pow2(32) == TWO32
    ensures Pow2(52) == 0x10_0000_0000_0000 && Pow2(53) == 0x20_0000_0000_0000
    ensures Pow2(54) == 0x40_0000_0000_0000
    ensures Pow2(63) == 0x8000_0000_0000_0000 && Pow2(64) == TWO64
  {
    Pow2Facts();
    PowAdd(2, 8, 3);
    PowAdd(2, 16, 7);
    PowAdd(2, 23, 1);
    PowAdd(2, 24, 1);
    PowAdd(2, 16, 15);
    PowAdd(2, 32, 20);
    PowAdd(2, 52, 1);
    PowAdd(2, 53, 1);
    PowAdd(2, 32, 31);
  }

  /** Shifting right by n bits and back loses exactly the low n bits. */
  lemma DivModPow2(x: nat, n: nat)
    ensures Pow2(n) > 0
    ensures x == (x / Pow2(n)) * Pow2(n) + x % Pow2(n)
  {
    PowPositive(2, n);
  }

  /** Splitting a shift: x >> (m + n) == (x >> m) >> n. */
  lemma {:induction false} DivDiv(x: nat, m: nat, n: nat)
    ensures Pow2(m) > 0 && Pow2(n) > 0 && Pow2(m + n) > 0
    ensures x / Pow2(m + n) == (x / Pow2(m)) / Pow2(n)
  {
    PowPositive(2, m);
    PowPositive(2, n);
    PowAdd(2, m, n);
    DivDivGeneral(x, Pow2(m), Pow2(n));
  }

  lemma DivDivGeneral(x: nat, a: nat, b: nat)
    requires a > 0 && b > 0
    ensures x / (a * b) == (x / a) / b
  {
    var q1, r1 := x / a, x % a;
    var q2, r2 := q1 / b, q1 % b;
    assert x == q1 * a + r1;
    assert q1 == q2 * b + r2;
    assert q1 * a == q2 * (a * b) + r2 * a by {
      MulDistrib(q2 * b, r2, a);
      assert (q2 * b) * a == q2 * (a * b);
    }
    assert r2 * a + r1 < a * b by {
      MulMonotone(r2, a, b - 1, a);
      MulDistrib(b, -1, a);
    }
    DivUnique(x, a * b, q2, r2 * a + r1);
  }

  /** The quotient and remainder of a division are determined by the equation. */
  lemma DivUnique(x: int, d: int, q: int, r: int)
    requires d > 0 && 0 <= r < d && x == q * d + r
    ensures x / d == q && x % d == r
  {
    var q' := x / d;
    var r' := x % d;
    assert x == q' * d + r';
    if q' > q {
      MulDistrib(q', -q, d);
      MulAtLeast(q' - q, d);
    } else if q' < q {
      MulDistrib(q, -q', d);
      MulAtLeast(q - q', d);
    }
  }

  lemma MulDistrib(a: int, b: int, c: int)
    ensures (a + b) * c == a * c + b * c
  {
  }

  lemma MulNonneg(a: nat, b: nat)
    ensures a * b >= 0
  {
  }

  lemma MulGrows(a: nat, y: nat)
    requires y >= 1
    ensures a <= a * y
  {
    if a > 0 {
      MulAtLeast(y, a);
    }
  }

  lemma MulAtLeast(k: int, d: int)
    requires k >= 1 && d > 0
    ensures k * d >= d
  {
    MulDistrib(k - 1, 1, d);
  }

  /** A value below 2^m has its bits at m and above equal to zero. */
  lemma SmallDiv(x: nat, d: nat)
    requires d > 0 && x < d
    ensures x / d == 0 && x % d == x
  {
    DivUnique(x, d, 0, x);
  }

  /** (a * d + b) / d == a + b / d for b >= 0. */
  lemma DivAddMultiple(a: nat, b: nat, d: nat)
    requires d > 0
    ensures (a * d + b) / d == a + b / d
    ensures (a * d + b) % d == b % d
  {
    DivUnique(a * d + b, d, a + b / d, b % d);
  }

  // ---------------------------------------------------------------- bit length

  /** Number of significant bits of n (0 for 0). */
  function BitLen(n: nat): nat
  {
    if n == 0 then 0 else 1 + BitLen(n / 2)
  }

  lemma {:induction false} BitLenBounds(n: nat)
    ensures n < Pow2(BitLen(n))
    ensures n > 0 ==> Pow2(BitLen(n) - 1) <= n
  {
    if n > 0 {
      BitLenBounds(n / 2);
    }
  }

  /** BitLen is characterised by the power-of-two interval that holds n. */
  lemma BitLenUnique(n: nat, k: nat)
    requires n < Pow2(k)
    requires k > 0 ==> Pow2(k - 1) <= n
    ensures BitLen(n) == k
  {
    BitLenBounds(n);
    var l := BitLen(n);
    if l < k {
      PowMonotone(2, l, k - 1);
    } else if l > k {
      PowMonotone(2, k, l - 1);
    }
  }

  /** Leading zero bits of a 64-bit word (u64::leading_zeros). */
  function LeadingZeros64(x: u64): (r: nat)
    ensures r <= 64
    ensures r == 64 <==> x == 0
  {
    BitLenAtMost64(x);
    64 - BitLen(x)
  }

  lemma BitLenAtMost64(x: u64)
    ensures BitLen(x) <= 64
    ensures BitLen(x) == 0 <==> x == 0
  {
    BitLenBounds(x);
    Pow2Facts();
    if BitLen(x) > 64 {
      PowMonotone(2, 64, BitLen(x) - 1);
    }
  }

  /** After shifting left by its leading zeros, a nonzero word has its top bit set. */
  lemma LeadingZerosNormalises(x: u64)
    requires x > 0
    ensures Pow2(63) <= x * Pow2(LeadingZeros64(x)) < TWO64
  {
    var lz := LeadingZeros64(x);
    var l := BitLen(x);
    BitLenBounds(x);
    assert l + lz == 64;
    PowAdd(2, l - 1, lz);
    PowAdd(2, l, lz);
    Pow2Facts();
    PowPositive(2, lz);
    MulMonotone(Pow2(l - 1), Pow2(lz), x, Pow2(lz));
    MulStrict(x, Pow2(l), Pow2(lz));
  }

  /** Dividing a natural number by a positive one gives a natural number no larger. */
  lemma DivBounds(x: nat, d: nat)
    requires d > 0
    ensures 0 <= x / d <= x
  {
    var q, r := x / d, x % d;
    assert x == q * d + r && 0 <= r < d;
    if q > x {
      MulAtLeast(d, q);
    }
  }

  /** A quotient below n: x < n * d gives x / d < n. */
  lemma DivBelow(x: nat, d: nat, n: nat)
    requires d > 0 && x < n * d
    ensures x / d < n
  {
    if x / d >= n {
      MulMonotone(n, d, x / d, d);
    }
  }

  /** Shifting a 64-bit value right by s leaves fewer than 64 - s bits. */
  lemma ShiftedBelow(m: u64, s: nat)
    requires s <= 64
    ensures m / Pow2(s) < Pow2(64 - s)
  {
    assert Pow2(64 - s) * Pow2(s) == TWO64 by {
      Pow2Table();
      PowAdd(2, 64 - s, s);
    }
    DivBelow(m, Pow2(s), Pow2(64 - s));
  }

  /** 2^n fits in 64 bits below n = 64. */
  lemma Pow2Below64(n: nat)
    requires n < 64
    ensures Pow2(n) < TWO64
  {
    PowMonotone(2, n + 1, 64);
    Pow2Of64();
  }

  /** The logical right shift x >> n. */
  function Shr(x: nat, n: nat): (r: nat)
    ensures r == x / Pow2(n) && r <= x
  {
    DivBounds(x, Pow2(n));
    x / Pow2(n)
  }

  /** The 64-bit left shift x << n: bits moved past bit 63 are lost. */
  function Shl64(x: nat, n: nat): (r: u64)
    ensures r == x * Pow2(n) % TWO64
  {
    x * Pow2(n) % TWO64
  }

  /** A remainder never exceeds the dividend. */
  lemma ModAtMost(x: nat, d: nat)
    requires d > 0
    ensures x % d <= x
  {
    if x < d {
      SmallDiv(x, d);
    }
  }

  lemma MulStrict(a: nat, b: nat, c: nat)
    requires a < b && c > 0
    ensures a * c < b * c
  {
    MulDistrib(b - a, a, c);
    MulAtLeast(b - a, c);
  }

  // ------------------------------------------------------------ bitwise operators

  /** Bit-wise combination of the lowest bits of a and b, for each operator. */
  function AndBit(a: nat, b: nat): nat { if a % 2 == 1 && b % 2 == 1 then 1 else 0 }
  function OrBit(a: nat, b: nat): nat { if a % 2 == 1 || b % 2 == 1 then 1 else 0 }
  function XorBit(a: nat, b: nat): nat { if a % 2 != b % 2 then 1 else 0 }

  /** Bitwise and of two naturals (`&`). */
  function BitAnd(a: nat, b: nat): nat
    decreases a + b
  {
    if a == 0 && b == 0 then 0 else 2 * BitAnd(a / 2, b / 2) + AndBit(a, b)
  }

  /** Bitwise or of two naturals (`|`). */
  function BitOr(a: nat, b: nat): nat
    decreases a + b
  {
    if a == 0 && b == 0 then 0 else 2 * BitOr(a / 2, b / 2) + OrBit(a, b)
  }

  /** Bitwise exclusive or of two naturals (`^`). */
  function BitXor(a: nat, b: nat): nat
    decreases a + b
  {
    if a == 0 && b == 0 then 0 else 2 * BitXor(a / 2, b / 2) + XorBit(a, b)
  }

  /** Halving lo + c * 2h halves lo and keeps its low bit. */
  lemma Halve(x: nat, lo: nat, c: nat, h: nat)
    requires x == lo + c * (2 * h)
    ensures x / 2 == lo / 2 + c * h && x % 2 == lo % 2
  {
    assert x == (lo / 2 + c * h) * 2 + lo % 2;
  }

  lemma Recombine(z: int, x: int, y: int, bit: int, h: int, p: int)
    requires p == 2 * h && z == 2 * (x + y * h) + bit
    ensures z == (2 * x + bit) + y * p
  {
  }

  lemma Unfold(a: nat, b: nat)
    ensures BitAnd(a, b) == 2 * BitAnd(a / 2, b / 2) + AndBit(a, b)
    ensures BitOr(a, b) == 2 * BitOr(a / 2, b / 2) + OrBit(a, b)
    ensures BitXor(a, b) == 2 * BitXor(a / 2, b / 2) + XorBit(a, b)
  {
  }

  /** `&` works independently on the bits below k and the bits from k up. */
  lemma {:induction false} AndSplit(lo: nat, c: nat, lo': nat, d: nat, k: nat)
    requires lo < Pow2(k) && lo' < Pow2(k)
    ensures BitAnd(lo + c * Pow2(k), lo' + d * Pow2(k)) == BitAnd(lo, lo') + BitAnd(c, d) * Pow2(k)
  {
    if k == 0 {
      assert Pow2(k) == 1;
      assert lo == 0 && lo' == 0;
      assert lo + c * Pow2(k) == c && lo' + d * Pow2(k) == d;
      assert BitAnd(lo, lo') == 0;
    } else {
      var h, p := Pow2(k - 1), Pow2(k);
      assert p == 2 * h;
      var a, b := lo + c * Pow2(k), lo' + d * Pow2(k);
      Halve(a, lo, c, h);
      Halve(b, lo', d, h);
      var x, y := BitAnd(lo / 2, lo' / 2), BitAnd(c, d);
      AndSplit(lo / 2, c, lo' / 2, d, k - 1);
      assert BitAnd(a / 2, b / 2) == x + y * h;
      assert BitAnd(a, b) == 2 * (x + y * h) + AndBit(lo, lo');
      assert BitAnd(lo, lo') == 2 * x + AndBit(lo, lo');
      Recombine(BitAnd(a, b), x, y, AndBit(lo, lo'), h, p);
    }
  }

  /** `|` works independently on the bits below k and the bits from k up. */
  lemma {:induction false} OrSplit(lo: nat, c: nat, lo': nat, d: nat, k: nat)
    requires lo < Pow2(k) && lo' < Pow2(k)
    ensures BitOr(lo + c * Pow2(k), lo' + d * Pow2(k)) == BitOr(lo, lo') + BitOr(c, d) * Pow2(k)
  {
    if k == 0 {
      assert Pow2(k) == 1;
      assert lo == 0 && lo' == 0;
      assert lo + c * Pow2(k) == c && lo' + d * Pow2(k) == d;
      assert BitOr(lo, lo') == 0;
    } else {
      var h, p := Pow2(k - 1), Pow2(k);
      assert p == 2 * h;
      var a, b := lo + c * Pow2(k), lo' + d * Pow2(k);
      Halve(a, lo, c, h);
      Halve(b, lo', d, h);
      var x, y := BitOr(lo / 2, lo' / 2), BitOr(c, d);
      OrSplit(lo / 2, c, lo' / 2, d, k - 1);
      assert BitOr(a / 2, b / 2) == x + y * h;
      assert BitOr(a, b) == 2 * (x + y * h) + OrBit(lo, lo');
      assert BitOr(lo, lo') == 2 * x + OrBit(lo, lo');
      Recombine(BitOr(a, b), x, y, OrBit(lo, lo'), h, p);
      assert BitOr(a, b) == BitOr(lo, lo') + y * p;
    }
  }

  /** `^` works independently on the bits below k and the bits from k up. */
  lemma {:induction false} XorSplit(lo: nat, c: nat, lo': nat, d: nat, k: nat)
    requires lo < Pow2(k) && lo' < Pow2(k)
    ensures BitXor(lo + c * Pow2(k), lo' + d * Pow2(k)) == BitXor(lo, lo') + BitXor(c, d) * Pow2(k)
  {
    if k == 0 {
      assert Pow2(k) == 1;
      assert lo == 0 && lo' == 0;
      assert lo + c * Pow2(k) == c && lo' + d * Pow2(k) == d;
      assert BitXor(lo, lo') == 0;
    } else {
      var h, p := Pow2(k - 1), Pow2(k);
      assert p == 2 * h;
      var a, b := lo + c * Pow2(k), lo' + d * Pow2(k);
      Halve(a, lo, c, h);
      Halve(b, lo', d, h);
      var x, y := BitXor(lo / 2, lo' / 2), BitXor(c, d);
      XorSplit(lo / 2, c, lo' / 2, d, k - 1);
      assert BitXor(a / 2, b / 2) == x + y * h;
      assert BitXor(a, b) == 2 * (x + y * h) + XorBit(lo, lo');
      assert BitXor(lo, lo') == 2 * x + XorBit(lo, lo');
      Recombine(BitXor(a, b), x, y, XorBit(lo, lo'), h, p);
      assert BitXor(a, b) == BitXor(lo, lo') + y * p;
    }
  }

  lemma BitZero(a: nat)
    ensures BitAnd(a, 0) == 0 && BitAnd(0, a) == 0
    ensures BitOr(a, 0) == a && BitOr(0, a) == a
    ensures BitXor(a, 0) == a && BitXor(0, a) == a
  {
  }

  lemma {:induction false} BitXorSelf(a: nat)
    ensures BitXor(a, a) == 0
  {
    if a > 0 {
      BitXorSelf(a / 2);
    }
  }

  /** Masking a value below 2^k with 2^k - 1 keeps all of it. */
  lemma {:induction false} AndOnes(lo: nat, k: nat)
    requires lo < Pow2(k)
    ensures BitAnd(lo, Pow2(k) - 1) == lo
  {
    if k == 0 {
      assert lo == 0;
    } else {
      var h := Pow2(k - 1);
      PowPositive(2, k - 1);
      var m := Pow2(k) - 1;
      assert m == 1 + (h - 1) * 2;
      DivAddMultiple(h - 1, 1, 2);
      Unfold(lo, m);
      AndOnes(lo / 2, k - 1);
    }
  }

  /** Masking with 2^k - 1 keeps the low k bits. */
  lemma BitAndLowMask(x: nat, k: nat)
    ensures Pow2(k) >= 1
    ensures BitAnd(x, Pow2(k) - 1) == x % Pow2(k)
  {
    SplitAt(x, k);
    AndSplit(x % Pow2(k), x / Pow2(k), Pow2(k) - 1, 0, k);
    BitZero(x / Pow2(k));
    AndOnes(x % Pow2(k), k);
  }

  /** x % (a * b) == (x / a % b) * a + x % a. */
  lemma ModSplit(x: nat, a: nat, b: nat)
    requires a > 0 && b > 0
    ensures x % (a * b) == (x / a % b) * a + x % a
  {
    DivDivGeneral(x, a, b);
    assert x == (x / a) * a + x % a;
    assert x / a == (x / a / b) * b + x / a % b;
    assert x == (x / a / b) * (a * b) + ((x / a % b) * a + x % a) by {
      MulDistrib((x / a / b) * b, x / a % b, a);
    }
    assert (x / a % b) * a + x % a < a * b by {
      MulMonotone(x / a % b, a, b - 1, a);
      MulDistrib(b, -1, a);
    }
    DivUnique(x, a * b, x / a / b, (x / a % b) * a + x % a);
  }

  /** A value is split by 2^k into its low bits and the bits from k up. */
  lemma SplitAt(x: nat, k: nat)
    ensures Pow2(k) > 0
    ensures x == x % Pow2(k) + (x / Pow2(k)) * Pow2(k)
  {
    PowPositive(2, k);
  }

  /** Masking with (2^n - 1) * 2^k keeps the bit field [k, k + n) in place. */
  lemma BitAndFieldMask(x: nat, k: nat, n: nat)
    ensures Pow2(k) > 0 && Pow2(n) > 0
    ensures BitAnd(x, (Pow2(n) - 1) * Pow2(k)) == (x / Pow2(k) % Pow2(n)) * Pow2(k)
  {
    SplitAt(x, k);
    PowPositive(2, n);
    AndSplit(x % Pow2(k), x / Pow2(k), 0, Pow2(n) - 1, k);
    BitZero(x % Pow2(k));
    BitAndLowMask(x / Pow2(k), n);
  }

  /** Or-ing a value below 2^k with a multiple of 2^k adds them. */
  lemma BitOrDisjoint(a: nat, b: nat, k: nat)
    requires a < Pow2(k)
    ensures BitOr(a, b * Pow2(k)) == a + b * Pow2(k)
  {
    OrSplit(a, 0, 0, b, k);
    BitZero(a);
    BitZero(b);
  }

  /** Or-ing 2^k into a value whose bit k is already set, and nothing above, changes nothing. */
  lemma BitOrSetBit(a: nat, k: nat)
    requires Pow2(k) <= a < 2 * Pow2(k)
    ensures BitOr(a, Pow2(k)) == a
  {
    var lo := a - Pow2(k);
    OrSplit(lo, 1, 0, 1, k);
    BitZero(lo);
  }

  lemma {:induction false} AndCommutes(a: nat, b: nat)
    ensures BitAnd(a, b) == BitAnd(b, a)
    decreases a + b
  {
    if a != 0 || b != 0 {
      AndCommutes(a / 2, b / 2);
    }
  }

  lemma {:induction false} OrCommutes(a: nat, b: nat)
    ensures BitOr(a, b) == BitOr(b, a)
    decreases a + b
  {
    if a != 0 || b != 0 {
      OrCommutes(a / 2, b / 2);
    }
  }

  /** A value below 2^k shares no bit with a multiple of 2^k. */
  lemma AndDisjoint(lo: nat, c: nat, k: nat)
    requires lo < Pow2(k)
    ensures BitAnd(lo, c * Pow2(k)) == 0 && BitAnd(c * Pow2(k), lo) == 0
  {
    AndSplit(lo, 0, 0, c, k);
    BitZero(lo);
    BitZero(c);
    AndCommutes(lo, c * Pow2(k));
  }

  /** Both operators commute with a common shift by k. */
  lemma ShiftedOps(a: nat, b: nat, k: nat)
    ensures BitAnd(a * Pow2(k), b * Pow2(k)) == BitAnd(a, b) * Pow2(k)
    ensures BitOr(a * Pow2(k), b * Pow2(k)) == BitOr(a, b) * Pow2(k)
  {
    AndSplit(0, a, 0, b, k);
    OrSplit(0, a, 0, b, k);
    BitZero(0);
  }

  /** Masking with the single bit 2^k keeps bit k in place. */
  lemma BitAndSingleBit(x: nat, k: nat)
    ensures BitAnd(x, Pow2(k)) == (x / Pow2(k) % 2) * Pow2(k)
    ensures BitAnd(x, Pow2(k)) == Pow2(k) <==> x / Pow2(k) % 2 == 1
  {
    var p := Pow2(k);
    var lo, c := x % p, x / p;
    assert x == lo + c * p by { SplitAt(x, k); }
    assert BitAnd(x, p) == BitAnd(lo, 0) + BitAnd(c, 1) * p by {
      assert p == 0 + 1 * p;
      AndSplit(lo, c, 0, 1, k);
    }
    BitZero(lo);
    assert BitAnd(c, 1) == c % 2 by {
      BitAndLowMask(c, 1);
      Pow2Table();
    }
  }

  /** Bitwise results never exceed the bit length of their operands. */
  /**
   * `x & !(1 << k)` on 64 bits, where `!` flips all 64 bits: the and clears
   * bit k and keeps the others.
   */
  lemma AndNotBit(x: u64, k: nat)
    requires k < 64
    ensures Pow2(k) < TWO64
    ensures BitAnd(x, TWO64 - 1 - Pow2(k)) == x - (x / Pow2(k) % 2) * Pow2(k)
  {
    var p := Pow2(k);
    var top := Pow2(63 - k);
    Pow2Split(k);
    SplitAt(x, k);
    var lo: nat, hi: nat := x % p, x / p;
    assert hi < 2 * top by {
      DivBelow(x, p, 2 * top);
    }
    var b: nat, h: nat := hi % 2, hi / 2;
    var ones: nat := top - 1;
    var d: nat := ones * 2;
    assert x == lo + hi * p;
    assert TWO64 - 1 - p == (p - 1) + d * p;
    assert BitAnd(hi, d) == 2 * h by {
      assert hi == b + h * 2;
      AndClearsLowBit(b, h, ones, 63 - k);
    }
    assert BitAnd(lo + hi * p, (p - 1) + d * p) == lo + BitAnd(hi, d) * p by {
      AndSplit(lo, hi, p - 1, d, k);
      AndOnes(lo, k);
    }
    assert lo + (2 * h) * p == x - b * p by {
      MulDistrib(b, 2 * h, p);
    }
  }

  /** 2^64 is 2 * 2^(63 - k) * 2^k. */
  lemma Pow2Split(k: nat)
    requires k < 64
    ensures 2 * Pow2(63 - k) * Pow2(k) == TWO64 && Pow2(k) < TWO64
  {
    Pow2Of64();
    PowAdd(2, 63 - k, k);
    assert Pow2(64) == 2 * Pow2(63);
  }

  /** The and of b + 2h with 2 * (2^n - 1) drops the low bit b and keeps h below 2^n. */
  lemma AndClearsLowBit(b: nat, h: nat, ones: nat, n: nat)
    requires b < 2 && h < Pow2(n) && ones == Pow2(n) - 1
    ensures BitAnd(b + h * 2, ones * 2) == 2 * h
  {
    assert Pow2(1) == 2;
    AndSplit(b, h, 0, ones, 1);
    BitZero(b);
    AndOnes(h, n);
  }

  lemma {:induction false} BitBound(a: nat, b: nat, k: nat)
    requires a < Pow2(k) && b < Pow2(k)
    ensures BitAnd(a, b) < Pow2(k) && BitOr(a, b) < Pow2(k) && BitXor(a, b) < Pow2(k)
    decreases k
  {
    if k > 0 && (a != 0 || b != 0) {
      BitBound(a / 2, b / 2, k - 1);
    }
  }

  // -------------------------------------------------------------- decimal digits

  predicate IsDigit(c: u8) { '0' as int <= c <= '9' as int }

  predicate AllDigits(s: seq<u8>) { forall i :: 0 <= i < |s| ==> IsDigit(s[i]) }

  /** Value of one ASCII digit byte. */
  function DigitValue(c: u8): int { c - '0' as int }

  /**
   * Value of a run of ASCII digits, most significant first (defined on any
   * bytes; it is a decimal value only on a run of digits).
   */
  function DecimalValue(s: seq<u8>): int
  {
    if s == [] then 0 else 10 * DecimalValue(s[..|s| - 1]) + DigitValue(s[|s| - 1])
  }

  lemma Pow10Table()
    ensures Pow10(1) == 10 && Pow10(2) == 100 && Pow10(4) == 10000 && Pow10(8) == 100000000
    ensures Pow10(16) == 10_000_000_000_000_000 && Pow10(18) == 1_000_000_000_000_000_000
    ensures Pow10(19) == 10_000_000_000_000_000_000 < TWO64
  {
    assert Pow(10, 1) == 10;
    assert Pow(10, 2) == 100;
    PowAdd(10, 2, 2);
    PowAdd(10, 4, 4);
    PowAdd(10, 8, 8);
    PowAdd(10, 16, 2);
    assert Pow(10, 19) == 10 * Pow(10, 18);
  }

  lemma {:induction false} DecimalValueBounds(s: seq<u8>)
    requires AllDigits(s)
    ensures 0 <= DecimalValue(s) < Pow10(|s|)
  {
    if s != [] {
      DecimalValueBounds(s[..|s| - 1]);
    }
  }

  /** Value of a concatenation of digit runs. */
  lemma {:induction false} DecimalValueAppend(a: seq<u8>, b: seq<u8>)
    ensures DecimalValue(a + b) == DecimalValue(a) * Pow10(|b|) + DecimalValue(b)
  {
    if b == [] {
      assert a + b == a;
    } else {
      var b' := b[..|b| - 1];
      var d := DigitValue(b[|b| - 1]);
      var x, y, p := DecimalValue(a), DecimalValue(b'), Pow10(|b'|);
      assert (a + b)[..|a + b| - 1] == a + b';
      assert DecimalValue(a + b) == 10 * DecimalValue(a + b') + d;
      DecimalValueAppend(a, b');
      assert DecimalValue(a + b') == x * p + y;
      assert Pow10(|b|) == 10 * p;
      MulSwap(x, 10, p);
      assert DecimalValue(b) == 10 * y + d;
    }
  }

  /** Leading zero digits do not change the value. */
  lemma {:induction false} DecimalValueLeadingZero(s: seq<u8>)
    requires |s| > 0 && s[0] == '0' as int
    ensures DecimalValue(s) == DecimalValue(s[1..])
  {
    DecimalValueAppend([s[0]], s[1..]);
    assert [s[0]] + s[1..] == s;
    assert [s[0]][..0] == [];
  }

  /** Number of decimal digits of n (1 for 0). */
  function NumDigits(n: nat): (r: nat)
    ensures r >= 1
  {
    if n < 10 then 1 else 1 + NumDigits(n / 10)
  }

  lemma {:induction false} NumDigitsBounds(n: nat)
    ensures n < Pow10(NumDigits(n))
    ensures n >= 10 ==> Pow10(NumDigits(n) - 1) <= n
  {
    if n >= 10 {
      NumDigitsBounds(n / 10);
    }
  }
}
