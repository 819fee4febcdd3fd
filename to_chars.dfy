/**
 * The text writers of the format side: `write_1_digit`, `write_2_digits`,
 * `write_9_digits`, `write_f32` and `write_f64`.  The buffer is an array and
 * the raw pointer an index into it; every writer is proved to leave in the
 * buffer exactly the string DecimalText describes and to touch nothing
 * outside the bytes the source may write.
 *
 * Digits are produced two at a time by fixed-point arithmetic: a magic
 * multiplication turns the significand into a 64-bit product whose high word
 * is the leading digits and whose low word is the remaining fraction, scaled
 * by 2^32; multiplying the low word by 100 brings out the next pair.
 */
module ToChars {
  import opened Arith
  import opened DecimalText

  /** Entry 2n and 2n + 1 are the two digits of n, for n < 100. */
  const RADIX_100_TABLE: seq<u8> :=
    seq(200, i requires 0 <= i < 200 => if i % 2 == 0 then ZERO + i / 20 else ZERO + i / 2 % 10)

  /** Entry 2n is the leading digit of n and entry 2n + 1 a point, for n < 100. */
  const RADIX_100_HEAD_TABLE: seq<u8> :=
    seq(200, i requires 0 <= i < 200 => if i % 2 == 1 then POINT else if i < 20 then ZERO + i / 2 else ZERO + i / 20)

  lemma TableEntries(n: nat)
    requires n < 100
    ensures RADIX_100_TABLE[2 * n] == ZERO + n / 10 && RADIX_100_TABLE[2 * n + 1] == ZERO + n % 10
    ensures RADIX_100_HEAD_TABLE[2 * n] == Digits(n)[0] && RADIX_100_HEAD_TABLE[2 * n + 1] == POINT
  {
    RadixEntries(n);
    HeadEntries(n);
  }

  lemma RadixEntries(n: nat)
    requires n < 100
    ensures RADIX_100_TABLE[2 * n] == ZERO + n / 10 && RADIX_100_TABLE[2 * n + 1] == ZERO + n % 10
  {
    DivUnique(2 * n, 20, n / 10, 2 * (n % 10));
    DivUnique(2 * n + 1, 2, n, 1);
  }

  lemma HeadEntries(n: nat)
    requires n < 100
    ensures RADIX_100_HEAD_TABLE[2 * n] == Digits(n)[0] && RADIX_100_HEAD_TABLE[2 * n + 1] == POINT
  {
    DivUnique(2 * n, 20, n / 10, 2 * (n % 10));
    DivUnique(2 * n + 1, 2, n, 1);
    DivUnique(2 * n, 2, n, 0);
    SmallDigits(n);
  }

  /** The bytes of the buffer outside [lo, hi) are those of before. */
  predicate SameOutside(before: seq<u8>, after: seq<u8>, lo: int, hi: int)
  {
    |before| == |after| && forall i | 0 <= i < |after| && !(lo <= i < hi) :: after[i] == before[i]
  }

  /** A slice outside the bytes a write may touch keeps its contents. */
  lemma KeepsSlice(before: seq<u8>, after: seq<u8>, lo: int, hi: int, a: int, b: int)
    requires SameOutside(before, after, lo, hi) && 0 <= a <= b <= |before| && (b <= lo || hi <= a)
    ensures after[a..b] == before[a..b]
  {
  }

  /** `write_1_digit`: the last digit of n, for n < 100. */
  method WriteOneDigit(n: nat, buf: array<u8>, p: nat)
    requires n < 100 && p < buf.Length
    modifies buf
    ensures buf[..] == old(buf[..])[p := ZERO + n % 10]
  {
    TableEntries(n);
    buf[p] := RADIX_100_TABLE[2 * n + 1];
  }

  /** `write_2_digits`: the two digits of n, for n < 100. */
  method WriteTwoDigits(n: nat, buf: array<u8>, p: nat)
    requires n < 100 && p + 2 <= buf.Length
    modifies buf
    ensures buf[p] == ZERO + n / 10 && buf[p + 1] == ZERO + n % 10
    ensures SameOutside(old(buf[..]), buf[..], p, p + 2)
  {
    TableEntries(n);
    buf[p] := RADIX_100_TABLE[2 * n];
    buf[p + 1] := RADIX_100_TABLE[2 * n + 1];
  }

  /**
   * The low word L of a fixed-point product holds the fraction s / p to
   * 32 bits: s / p <= L / 2^32 < (s + 1) / p.
   */
  predicate Fraction(L: int, s: int, p: int)
  {
    s * TWO32 <= L * p < (s + 1) * TWO32
  }

  /** The nine-digit magic number: the first digit above an eight-digit fraction. */
  lemma Magic8(m: int)
    requires 100_000_000 <= m < 1_000_000_000
    ensures var prod := m * 1441151882 / 0x200_0000;
            prod / TWO32 == m / 100_000_000 && Fraction(prod % TWO32, m % 100_000_000, 100_000_000)
  {
  }

  /** The seven- and eight-digit magic number: two leading digits above a six-digit fraction. */
  lemma Magic6(m: int)
    requires 1_000_000 <= m < 100_000_000
    ensures var prod := m * 281474978 / 0x1_0000;
            prod / TWO32 == m / 1_000_000 && Fraction(prod % TWO32, m % 1_000_000, 1_000_000)
  {
  }

  /** The same multiplier plus one, exact for every eight-digit block, zero included. */
  lemma Magic6Plus(m: int)
    requires 0 <= m < 100_000_000
    ensures var prod := m * 281474978 / 0x1_0000 + 1;
            prod / TWO32 == m / 1_000_000 && Fraction(prod % TWO32, m % 1_000_000, 1_000_000)
  {
  }

  /** The five- and six-digit magic number. */
  lemma Magic4(m: int)
    requires 0 <= m < 1_000_000
    ensures var prod := m * 429497;
            prod / TWO32 == m / 10_000 && Fraction(prod % TWO32, m % 10_000, 10_000)
  {
  }

  /** The three- and four-digit magic number. */
  lemma Magic2(m: int)
    requires 0 <= m < 10_000
    ensures var prod := m * 42949673;
            prod / TWO32 == m / 100 && Fraction(prod % TWO32, m % 100, 100)
  {
  }

  lemma Pow10Small()
    ensures Pow10(0) == 1 && Pow10(2) == 100 && Pow10(4) == 10_000
    ensures Pow10(6) == 1_000_000 && Pow10(8) == 100_000_000
  {
    Pow10Table();
    PowAdd(10, 4, 2);
  }

  /** Multiplying the fraction's low word by 100 brings out its next two digits. */
  lemma PairStep(L: int, s: int, k: nat)
    requires k == 2 || k == 4 || k == 6 || k == 8
    requires 0 <= s < Pow10(k) && Fraction(L, s, Pow10(k))
    ensures (L * 100) / TWO32 == s / Pow10(k - 2) < 100
    ensures Fraction((L * 100) % TWO32, s % Pow10(k - 2), Pow10(k - 2))
  {
    Pow10Small();
    if k == 8 {
      assert Fraction(L, s, 100_000_000);
    } else if k == 6 {
      assert Fraction(L, s, 1_000_000);
    } else if k == 4 {
      assert Fraction(L, s, 10_000);
    } else {
      assert Fraction(L, s, 100);
    }
  }

  /** The digits left in the fraction are all zero exactly when its low word is at most 2^32 / p. */
  lemma ZeroTest(L: int, s: int, k: nat)
    requires k == 2 || k == 4 || k == 6 || k == 8
    requires 0 <= s < Pow10(k) && Fraction(L, s, Pow10(k))
    ensures 0 <= L < TWO32
    ensures L <= TWO32 / Pow10(k) <==> s == 0
  {
    Pow10Small();
    if k == 8 {
      assert Fraction(L, s, 100_000_000);
    } else if k == 6 {
      assert Fraction(L, s, 1_000_000);
    } else if k == 4 {
      assert Fraction(L, s, 10_000);
    } else {
      assert Fraction(L, s, 100);
    }
  }

  /** The next two digits of the fraction: the high word of the low word times 100. */
  function PairOf(L: u32): (d: nat)
    ensures d < 100
  {
    L * 100 / TWO32
  }

  /** The fraction left after those two digits: the low word of the same product. */
  function NextLow(L: u32): u32
  {
    L * 100 % TWO32
  }

  /** (1 << 32) / 10^k: the largest low word whose next k digits are all zero. */
  function Threshold(k: nat): nat
  {
    TWO32 / Pow10(k)
  }

  /** The two digits of d < 100. */
  function PairText(d: nat): seq<u8>
    requires d < 100
  {
    [ZERO + d / 10, ZERO + d % 10]
  }

  /** The last pair printed: its first digit, and its second unless that is zero. */
  function StopText(d: nat): seq<u8>
    requires d < 100
  {
    [ZERO + d / 10] + (if d % 10 == 0 then [] else [ZERO + d % 10])
  }

  /**
   * The digits the source prints from the low word L in n pair steps: each
   * step multiplies by 100 and prints the high word as two digits.
   */
  function FractionPairs(L: u32, n: nat): (r: seq<u8>)
    ensures |r| == 2 * n
    decreases n
  {
    if n == 0 then [] else PairText(PairOf(L)) + FractionPairs(NextLow(L), n - 1)
  }

  /**
   * The digits the source prints from L when it stops early: after each pair
   * it stops once the low word is at most 2^32 / 10^(2(n-1)), printing the
   * pair's second digit only when it is not zero.
   */
  function FractionUntilZero(L: u32, n: nat): (r: seq<u8>)
    requires n >= 1
    ensures 1 <= |r| <= 2 * n
    decreases n
  {
    var d := PairOf(L);
    if n == 1 || NextLow(L) <= Threshold(2 * (n - 1)) then
      StopText(d)
    else
      PairText(d) + FractionUntilZero(NextLow(L), n - 1)
  }

  /** With L holding s / 10^(2n), the n pair steps print s in 2n digits. */
  lemma {:induction false} FractionPairsDigits(L: u32, s: nat, n: nat)
    requires n <= 4 && s < Pow10(2 * n) && Fraction(L, s, Pow10(2 * n))
    ensures FractionPairs(L, n) == Padded(s, 2 * n)
    decreases n
  {
    if n > 0 {
      FirstPair(L, s, n);
      FractionPairsDigits(NextLow(L), s % Pow10(2 * n - 2), n - 1);
      PairDigits(PairOf(L));
    }
  }

  /** With L holding a nonzero s / 10^(2n), stopping early prints s without its trailing zeros. */
  lemma {:induction false} FractionUntilZeroDigits(L: u32, s: nat, n: nat)
    requires 1 <= n <= 4 && 0 < s < Pow10(2 * n) && Fraction(L, s, Pow10(2 * n))
    ensures FractionUntilZero(L, n) == StripZeros(Padded(s, 2 * n))
    decreases n
  {
    if n == 1 || NextLow(L) <= Threshold(2 * (n - 1)) {
      UntilZeroStops(L, s, n);
    } else {
      FirstPair(L, s, n);
      ZeroTest(NextLow(L), s % Pow10(2 * n - 2), 2 * n - 2);
      FractionUntilZeroDigits(NextLow(L), s % Pow10(2 * n - 2), n - 1);
      UntilZeroGoesOn(L, s, n);
    }
  }

  /** When the source stops after the first pair, the rest of the digits are zero. */
  lemma UntilZeroStops(L: u32, s: nat, n: nat)
    requires 1 <= n <= 4 && s < Pow10(2 * n) && Fraction(L, s, Pow10(2 * n))
    requires n == 1 || NextLow(L) <= Threshold(2 * (n - 1))
    ensures FractionUntilZero(L, n) == StripZeros(Padded(s, 2 * n))
  {
    StopSplit(L, s, n);
    StopDigits(PairOf(L), 2 * n - 2);
    assert FractionUntilZero(L, n) == StopText(PairOf(L));
  }

  /** When the source stops, the 2n digits are the first pair followed by zeros. */
  lemma StopSplit(L: u32, s: nat, n: nat)
    requires 1 <= n <= 4 && s < Pow10(2 * n) && Fraction(L, s, Pow10(2 * n))
    requires n == 1 || NextLow(L) <= Threshold(2 * (n - 1))
    ensures Padded(s, 2 * n) == Padded(PairOf(L), 2) + Padded(0, 2 * n - 2)
  {
    FirstPair(L, s, n);
    if n != 1 {
      ZeroTest(NextLow(L), s % Pow10(2 * n - 2), 2 * n - 2);
    }
  }

  /** When the source goes on after the first pair, the pair is followed by the rest's digits. */
  lemma UntilZeroGoesOn(L: u32, s: nat, n: nat)
    requires 2 <= n <= 4 && s < Pow10(2 * n) && Fraction(L, s, Pow10(2 * n))
    requires NextLow(L) > Threshold(2 * (n - 1)) && 0 < s % Pow10(2 * n - 2)
    requires FractionUntilZero(NextLow(L), n - 1) == StripZeros(Padded(s % Pow10(2 * n - 2), 2 * n - 2))
    ensures FractionUntilZero(L, n) == StripZeros(Padded(s, 2 * n))
  {
    var d := PairOf(L);
    var rest := s % Pow10(2 * n - 2);
    FirstPair(L, s, n);
    assert FractionUntilZero(L, n) == PairText(d) + StripZeros(Padded(rest, 2 * n - 2));
    PairThenDigits(d, rest, 2 * n - 2);
  }

  /** The first pair step takes the first two of the 2n digits and leaves the fraction of the rest. */
  lemma FirstPair(L: u32, s: nat, n: nat)
    requires 1 <= n <= 4 && s < Pow10(2 * n) && Fraction(L, s, Pow10(2 * n))
    ensures s % Pow10(2 * n - 2) < Pow10(2 * n - 2) && Fraction(NextLow(L), s % Pow10(2 * n - 2), Pow10(2 * n - 2))
    ensures Padded(s, 2 * n) == Padded(PairOf(L), 2) + Padded(s % Pow10(2 * n - 2), 2 * n - 2)
  {
    PairStep(L, s, 2 * n);
    PaddedSplit(s, 2, 2 * n - 2);
  }

  /** A pair followed by a nonzero run of digits keeps the pair when the run loses its trailing zeros. */
  lemma PairThenDigits(d: nat, rest: nat, k: nat)
    requires d < 100 && 0 < rest < Pow10(k)
    ensures StripZeros(Padded(d, 2) + Padded(rest, k)) == PairText(d) + StripZeros(Padded(rest, k))
  {
    PairDigits(d);
    PaddedValue(rest, k);
    SmallDiv(rest, Pow10(k));
    StripKeepsPrefix(Padded(d, 2), Padded(rest, k));
  }

  /** A pair followed by zeros loses the zeros and, when it is zero, the pair's second digit. */
  lemma StopDigits(d: nat, k: nat)
    requires d < 100
    ensures StripZeros(Padded(d, 2) + Padded(0, k)) == StopText(d)
  {
    StripAppendedZeros(Padded(d, 2), k);
    PairDigits(d);
  }

  /** The n pair steps, writing 2n bytes at q. */
  method WritePairs(buf: array<u8>, q: nat, L: u32, n: nat)
    requires q + 2 * n <= buf.Length
    modifies buf
    ensures buf[q..q + 2 * n] == FractionPairs(L, n)
    ensures SameOutside(old(buf[..]), buf[..], q, q + 2 * n)
    decreases n
  {
    if n > 0 {
      var prod := L * 100;
      ghost var before := buf[..];
      WriteTwoDigits(prod / TWO32, buf, q);
      ghost var pair := buf[..];
      WritePairs(buf, q + 2, prod % TWO32, n - 1);
      PairThen(before, pair, buf[..], q, q + 2 * n, q + 2 * n, PairOf(L));
    }
  }

  /** A pair written at q, then bytes after it: the slice from q is the pair followed by those bytes. */
  lemma PairThen(before: seq<u8>, pair: seq<u8>, after: seq<u8>, q: nat, end: nat, hi: nat, d: nat)
    requires q + 2 <= end <= hi <= |before| && d < 100
    requires SameOutside(before, pair, q, q + 2) && pair[q] == ZERO + d / 10 && pair[q + 1] == ZERO + d % 10
    requires SameOutside(pair, after, q + 2, hi)
    ensures after[q..end] == PairText(d) + after[q + 2..end]
    ensures SameOutside(before, after, q, hi)
  {
    KeepsSlice(pair, after, q + 2, hi, q, q + 2);
    SliceConcat(after, q, q + 2, end);
  }

  /** The pair steps that stop early, writing at most 2n bytes at q. */
  method WritePairsUntilZero(buf: array<u8>, q: nat, L: u32, n: nat) returns (end: nat)
    requires n >= 1 && q + 2 * n <= buf.Length
    modifies buf
    ensures q < end <= q + 2 * n && buf[q..end] == FractionUntilZero(L, n)
    ensures SameOutside(old(buf[..]), buf[..], q, q + 2 * n)
    decreases n
  {
    var prod := L * 100;
    WriteTwoDigits(prod / TWO32, buf, q);
    if n == 1 || prod % TWO32 <= TWO32 / Pow10(2 * (n - 1)) {
      end := q + 1 + (if buf[q + 1] > ZERO then 1 else 0);
      StopSlice(buf[..], q, PairOf(L));
    } else {
      ghost var before := old(buf[..]);
      ghost var pair := buf[..];
      end := WritePairsUntilZero(buf, q + 2, prod % TWO32, n - 1);
      PairThen(before, pair, buf[..], q, end, q + 2 * n, PairOf(L));
    }
  }

  /** The slice that ends after a pair's first digit, or after its second when that is not zero. */
  lemma StopSlice(a: seq<u8>, q: nat, d: nat)
    requires q + 2 <= |a| && d < 100 && a[q] == ZERO + d / 10 && a[q + 1] == ZERO + d % 10
    ensures a[q..q + 1 + (if a[q + 1] > ZERO then 1 else 0)] == StopText(d)
  {
  }

  lemma SliceConcat(a: seq<u8>, lo: nat, mid: nat, hi: nat)
    requires lo <= mid <= hi <= |a|
    ensures a[lo..hi] == a[lo..mid] + a[mid..hi]
  {
  }

  /** The head: the first digit of h and a point from RADIX_100_HEAD_TABLE, then h's last digit. */
  method WriteHead(buf: array<u8>, p: nat, h: nat)
    requires h < 100 && p + 3 <= buf.Length
    modifies buf
    ensures buf[p] == Digits(h)[0] && buf[p + 1] == POINT && buf[p + 2] == ZERO + h % 10
    ensures SameOutside(old(buf[..]), buf[..], p, p + 3)
  {
    TableEntries(h);
    buf[p] := RADIX_100_HEAD_TABLE[2 * h];
    buf[p + 1] := RADIX_100_HEAD_TABLE[2 * h + 1];
    buf[p + 2] := RADIX_100_TABLE[2 * h + 1];
  }

  /**
   * After the head, the source keeps one byte when h has one digit or its
   * last digit is zero, and three ("d.d") otherwise: h in the notation.
   */
  lemma HeadAlone(a: seq<u8>, p: nat, h: nat)
    requires h < 100 && p + 3 <= |a|
    requires a[p] == Digits(h)[0] && a[p + 1] == POINT && a[p + 2] == ZERO + h % 10
    ensures a[p..p + 1 + (if h >= 10 && a[p + 2] > ZERO then 2 else 0)] == WithPoint(StripZeros(Digits(h)))
  {
    var w := WithPoint(StripZeros(Digits(h)));
    if h < 10 || h % 10 == 0 {
      assert w == [a[p]] by {
        PairDigits(h);
        assert StripZeros(Digits(h)) == [Digits(h)[0]];
      }
      assert a[p..p + 1] == [a[p]];
    } else {
      assert w == [a[p], a[p + 1], a[p + 2]] by {
        PairDigits(h);
        assert w == [ZERO + h / 10, POINT, ZERO + h % 10];
      }
      assert a[p..p + 3] == [a[p], a[p + 1], a[p + 2]];
    }
  }


  /**
   * The head followed by digits written from b + 2, b being p, or p + 1 when
   * h has two digits: the slice from p is the pointed h followed by them.
   */
  lemma HeadThen(head: seq<u8>, after: seq<u8>, p: nat, h: nat, end: nat, hi: nat)
    requires 1 <= h < 100 && p + 3 <= |head| && hi <= |head|
    requires head[p] == Digits(h)[0] && head[p + 1] == POINT && head[p + 2] == ZERO + h % 10
    requires var b := p + (if h >= 10 then 1 else 0);
             b + 2 <= end <= hi && SameOutside(head, after, b + 2, hi)
    ensures var b := p + (if h >= 10 then 1 else 0);
            after[p..end] == Pointed(Digits(h)) + after[b + 2..end]
  {
    SmallDigits(h);
    var b := p + (if h >= 10 then 1 else 0);
    KeepsSlice(head, after, b + 2, hi, p, b + 2);
    SliceConcat(after, p, b + 2, end);
    if h >= 10 {
      assert Pointed(Digits(h)) == [ZERO + h / 10, POINT, ZERO + h % 10];
      assert after[p..b + 2] == [head[p], head[p + 1], head[p + 2]];
    } else {
      assert Pointed(Digits(h)) == [ZERO + h, POINT];
      assert after[p..b + 2] == [head[p], head[p + 1]];
    }
  }

  /**
   * The notation of h followed by a k-digit block s: h alone when the block
   * is zero, otherwise the pointed h followed by the block without its
   * trailing zeros.
   */
  lemma HeadRun(h: nat, m: nat, s: nat, k: nat)
    requires 1 <= h < 100 && s < Pow10(k) && m == h * Pow10(k) + s
    ensures NumDigits(m) == NumDigits(h) + k && NumDigits(h) == 1 + (if h >= 10 then 1 else 0)
    ensures s == 0 ==> WithPoint(StripZeros(Digits(m))) == WithPoint(StripZeros(Digits(h)))
    ensures s > 0 ==> WithPoint(StripZeros(Digits(m))) == Pointed(Digits(h)) + StripZeros(Padded(s, k))
  {
    DigitsSplit(h, s, k);
    PairDigits(h);
    if s == 0 {
      StripAppendedZeros(Digits(h), k);
    } else {
      PaddedValue(s, k);
      SmallDiv(s, Pow10(k));
      StripKeepsPrefix(Digits(h), Padded(s, k));
      WithPointAppend(Digits(h), StripZeros(Padded(s, k)));
    }
  }

  /** m split at a power of ten q into its leading part and its k-digit block. */
  lemma BlockOf(m: nat, q: nat)
    requires q <= m < 100 * q
    ensures 1 <= m / q < 100 && m == m / q * q + m % q && m % q < q
  {
    DivBelow(m, q, 100);
  }

  /** Two writes inside [lo, hi) leave the bytes outside it as they were. */
  lemma SameOutsideJoin(a: seq<u8>, b: seq<u8>, c: seq<u8>, lo1: int, hi1: int, lo2: int, hi2: int, lo: int, hi: int)
    requires SameOutside(a, b, lo1, hi1) && SameOutside(b, c, lo2, hi2)
    requires lo <= lo1 && lo <= lo2 && hi1 <= hi && hi2 <= hi
    ensures SameOutside(a, c, lo, hi)
  {
  }

  /**
   * The three middle branches of `write_9_digits`: the head h, then, unless
   * the fraction L of the 2n-digit block s is zero, its pairs until the rest
   * is zero.
   */
  method WriteHeadAndRest(buf: array<u8>, p: nat, h: nat, L: u32, ghost m: nat, ghost s: nat, n: nat) returns (end: nat)
    requires n == 1 || n == 2 || n == 3
    requires 1 <= h < 100 && s < Pow10(2 * n) && Fraction(L, s, Pow10(2 * n)) && m == h * Pow10(2 * n) + s
    requires p + 2 * n + 3 <= buf.Length
    modifies buf
    ensures NumDigits(m) == 2 * n + 1 + (if h >= 10 then 1 else 0)
    ensures p < end <= p + 2 * n + 3 && buf[p..end] == WithPoint(StripZeros(Digits(m)))
    ensures SameOutside(old(buf[..]), buf[..], p, p + 2 * n + 3)
  {
    WriteHead(buf, p, h);
    HeadRun(h, m, s, 2 * n);
    ZeroTest(L, s, 2 * n);
    if L <= TWO32 / Pow10(2 * n) {
      end := p + 1 + (if h >= 10 && buf[p + 2] > ZERO then 2 else 0);
      HeadAlone(buf[..], p, h);
    } else {
      ghost var head := buf[..];
      end := WriteRest(buf, p, h, L, s, n);
      SameOutsideJoin(old(buf[..]), head, buf[..], p, p + 3, p + 2, p + 2 * n + 3, p, p + 2 * n + 3);
    }
  }

  /** After the head, the pairs of a nonzero fraction until the rest is zero, from p + 2 or p + 3. */
  method WriteRest(buf: array<u8>, p: nat, h: nat, L: u32, ghost s: nat, n: nat) returns (end: nat)
    requires n == 1 || n == 2 || n == 3
    requires 1 <= h < 100 && 0 < s < Pow10(2 * n) && Fraction(L, s, Pow10(2 * n))
    requires p + 2 * n + 3 <= buf.Length
    requires buf[p] == Digits(h)[0] && buf[p + 1] == POINT && buf[p + 2] == ZERO + h % 10
    modifies buf
    ensures p < end <= p + 2 * n + 3 && buf[p..end] == Pointed(Digits(h)) + StripZeros(Padded(s, 2 * n))
    ensures SameOutside(old(buf[..]), buf[..], p + 2, p + 2 * n + 3)
  {
    ghost var head := buf[..];
    var b := p + (if h >= 10 then 1 else 0);
    end := WritePairsUntilZero(buf, b + 2, L, n);
    FractionUntilZeroDigits(L, s, n);
    HeadThen(head, buf[..], p, h, end, b + 2 + 2 * n);
  }

  /** The same branches for m with 2n + 1 or 2n + 2 digits, h and L being its head and fraction. */
  method WriteMiddle(m: nat, h: nat, L: u32, buf: array<u8>, p: nat, n: nat) returns (end: nat)
    requires n == 1 || n == 2 || n == 3
    requires Pow10(2 * n) <= m < 100 * Pow10(2 * n) && h == m / Pow10(2 * n)
    requires Fraction(L, m % Pow10(2 * n), Pow10(2 * n))
    requires p + 2 * n + 3 <= buf.Length
    modifies buf
    ensures NumDigits(m) == 2 * n + 1 + (if h >= 10 then 1 else 0)
    ensures p < end <= p + 2 * n + 3 && buf[p..end] == WithPoint(StripZeros(Digits(m)))
    ensures SameOutside(old(buf[..]), buf[..], p, p + 2 * n + 3)
  {
    BlockOf(m, Pow10(2 * n));
    end := WriteHeadAndRest(buf, p, h, L, m, m % Pow10(2 * n), n);
  }

  /** The leading branch of `write_9_digits`: a nine-digit m, its first digit, a point and four pairs. */
  method WriteNineFull(m: nat, buf: array<u8>, p: nat)
    requires 100_000_000 <= m < 1_000_000_000 && p + 10 <= buf.Length
    modifies buf
    ensures buf[p..p + 10] == WithPoint(Digits(m)) && NumDigits(m) == 9
    ensures SameOutside(old(buf[..]), buf[..], p, p + 10)
  {
    Magic8(m);
    var prod := m * 1441151882 / 0x200_0000;
    var h := prod / TWO32;
    TableEntries(h);
    buf[p] := RADIX_100_HEAD_TABLE[2 * h];
    buf[p + 1] := RADIX_100_HEAD_TABLE[2 * h + 1];
    ghost var head := buf[..];
    WritePairs(buf, p + 2, prod % TWO32, 4);
    Pow10Small();
    FractionPairsDigits(prod % TWO32, m % 100_000_000, 4);
    HeadRun(h, m, m % 100_000_000, 8);
    HeadFull(head, buf[..], p, h, m % 100_000_000);
  }

  lemma HeadFull(head: seq<u8>, after: seq<u8>, p: nat, h: nat, s: nat)
    requires 1 <= h < 10 && s < Pow10(8) && p + 10 <= |head|
    requires head[p] == Digits(h)[0] && head[p + 1] == POINT
    requires SameOutside(head, after, p + 2, p + 10) && after[p + 2..p + 10] == Padded(s, 8)
    ensures after[p..p + 10] == WithPoint(Digits(h * Pow10(8) + s))
  {
    PairDigits(h);
    DigitsSplit(h, s, 8);
    WithPointAppend(Digits(h), Padded(s, 8));
    KeepsSlice(head, after, p + 2, p + 10, p, p + 2);
    SliceConcat(after, p, p + 2, p + 10);
  }

  /**
   * `write_9_digits`: m < 10^9 in scientific notation (the first digit, a
   * point unless it is the only digit, the rest without trailing zeros, all
   * nine digits when there are nine), and exp raised by the number of digits
   * after the first.
   */
  method WriteNineDigits(m: nat, exp: int, buf: array<u8>, p: nat) returns (exp': int, end: nat)
    requires m < 1_000_000_000 && p + 10 <= buf.Length
    modifies buf
    ensures exp' == exp + NumDigits(m) - 1
    ensures p < end <= p + 10 && buf[p..end] == WithPoint(NineDigitRun(m))
    ensures SameOutside(old(buf[..]), buf[..], p, p + 10)
  {
    Pow10Small();
    if m >= 100_000_000 {
      WriteNineFull(m, buf, p);
      exp' := exp + 8;
      end := p + 10;
    } else if m >= 1_000_000 {
      Magic6(m);
      var prod := m * 281474978 / 0x1_0000;
      var h := prod / TWO32;
      exp' := exp + 6 + (if h >= 10 then 1 else 0);
      end := WriteMiddle(m, h, prod % TWO32, buf, p, 3);
    } else if m >= 10_000 {
      Magic4(m);
      var prod := m * 429497;
      var h := prod / TWO32;
      exp' := exp + 4 + (if h >= 10 then 1 else 0);
      end := WriteMiddle(m, h, prod % TWO32, buf, p, 2);
    } else if m >= 100 {
      Magic2(m);
      var prod := m * 42949673;
      var h := prod / TWO32;
      exp' := exp + 2 + (if h >= 10 then 1 else 0);
      end := WriteMiddle(m, h, prod % TWO32, buf, p, 1);
    } else {
      exp' := exp + (if m >= 10 then 1 else 0);
      WriteHead(buf, p, m);
      end := p + 1 + (if m >= 10 && buf[p + 2] > ZERO then 2 else 0);
      HeadAlone(buf[..], p, m);
      PairDigits(m);
    }
  }

  /** The exponent mark: "E", or "E-" for a negative exponent, whose magnitude is returned. */
  method WriteExponentMark(e: int, buf: array<u8>, q: nat) returns (a: nat, r: nat)
    requires q + 2 <= buf.Length
    modifies buf
    ensures a == (if e < 0 then -e else e) && r == q + (if e < 0 then 2 else 1)
    ensures buf[q..r] == if e < 0 then [LETTER_E, MINUS] else [LETTER_E]
    ensures SameOutside(old(buf[..]), buf[..], q, q + 2)
  {
    if e < 0 {
      buf[q] := LETTER_E;
      buf[q + 1] := MINUS;
      a, r := -e, q + 2;
    } else {
      buf[q] := LETTER_E;
      a, r := e, q + 1;
    }
  }

  /** The digits of an exponent below 100: `write_2_digits` from 10 on, `write_1_digit` below. */
  method WriteSmallExponent(a: nat, buf: array<u8>, q: nat) returns (end: nat)
    requires a < 100 && q + 2 <= buf.Length
    modifies buf
    ensures q < end <= q + 2 && buf[q..end] == Digits(a)
    ensures SameOutside(old(buf[..]), buf[..], q, q + 2)
  {
    SmallDigits(a);
    if a >= 10 {
      WriteTwoDigits(a, buf, q);
      end := q + 2;
    } else {
      WriteOneDigit(a, buf, q);
      end := q + 1;
    }
  }

  /**
   * Three exponent digits by fixed-point arithmetic: the high half of
   * a * 6554 is a / 10, and five times its low 16 bits, shifted down by 15,
   * is the last digit.
   */
  lemma MagicExponent(a: nat)
    requires a < 1000
    ensures a * 6554 / 0x1_0000 == a / 10
    ensures a * 6554 % 0x1_0000 * 5 / 0x8000 == a % 10
  {
  }

  /** The digits of an exponent below 1000, as `write_f64` writes them. */
  method WriteWideExponent(a: nat, buf: array<u8>, q: nat) returns (end: nat)
    requires a < 1000 && q + 3 <= buf.Length
    modifies buf
    ensures q < end <= q + 3 && buf[q..end] == Digits(a)
    ensures SameOutside(old(buf[..]), buf[..], q, q + 3)
  {
    if a >= 100 {
      MagicExponent(a);
      var prod := a * 6554;
      var d1 := prod / 0x1_0000;
      prod := prod % 0x1_0000 * 5;
      var d2 := prod / 0x8000;
      WriteTwoDigits(d1, buf, q);
      WriteOneDigit(d2, buf, q + 2);
      end := q + 3;
      SmallDigits(d1);
      assert Digits(a) == Digits(a / 10) + [ZERO + a % 10];
    } else {
      end := WriteSmallExponent(a, buf, q);
    }
  }

  /** Bytes written after e leave the slice before it, so the slice from p joins the two. */
  lemma WrittenAfter(mid: seq<u8>, after: seq<u8>, p: nat, e: nat, end: nat, hi: nat)
    requires p <= e <= end <= hi <= |mid| && SameOutside(mid, after, e, hi)
    ensures after[p..end] == mid[p..e] + after[e..end]
  {
    KeepsSlice(mid, after, e, hi, p, e);
    SliceConcat(after, p, e, end);
  }

  /**
   * `write_f32`: the significand in scientific notation followed by the
   * exponent of its first digit, "E" or "E-" and one or two digits; the
   * result is F32Text, at most fourteen bytes.
   */
  method WriteF32(mant: u32, exp: i32, buf: array<u8>, p: nat) returns (end: nat)
    requires mant < 1_000_000_000 && -100 < exp + NumDigits(mant) - 1 < 100
    requires p + 14 <= buf.Length
    modifies buf
    ensures p < end <= p + 14 && buf[p..end] == F32Text(mant, exp)
    ensures SameOutside(old(buf[..]), buf[..], p, p + 14)
  {
    ghost var s0 := buf[..];
    var e, q := WriteNineDigits(mant, exp, buf, p);
    ghost var s1 := buf[..];
    end := WriteShortExponent(e, buf, q);
    WrittenAfter(s1, buf[..], p, q, end, q + 4);
    SameOutsideJoin(s0, s1, buf[..], p, p + 10, q, q + 4, p, p + 14);
  }

  /** The exponent as `write_f32` writes it: the mark, then one or two digits. */
  method WriteShortExponent(e: int, buf: array<u8>, q: nat) returns (end: nat)
    requires -100 < e < 100 && q + 4 <= buf.Length
    modifies buf
    ensures q < end <= q + 4 && buf[q..end] == ExponentText(e)
    ensures SameOutside(old(buf[..]), buf[..], q, q + 4)
  {
    ghost var s0 := buf[..];
    var a, r := WriteExponentMark(e, buf, q);
    ghost var s1 := buf[..];
    end := WriteSmallExponent(a, buf, r);
    WrittenAfter(s1, buf[..], q, r, end, r + 2);
    SameOutsideJoin(s0, s1, buf[..], q, q + 2, r, r + 2, q, q + 4);
  }

  /** The exponent as `write_f64` writes it: the mark, then one to three digits. */
  method WriteLongExponent(e: int, buf: array<u8>, q: nat) returns (end: nat)
    requires -1000 < e < 1000 && q + 5 <= buf.Length
    modifies buf
    ensures q < end <= q + 5 && buf[q..end] == ExponentText(e)
    ensures SameOutside(old(buf[..]), buf[..], q, q + 5)
  {
    ghost var s0 := buf[..];
    var a, r := WriteExponentMark(e, buf, q);
    ghost var s1 := buf[..];
    end := WriteWideExponent(a, buf, r);
    WrittenAfter(s1, buf[..], q, r, end, r + 3);
    SameOutsideJoin(s0, s1, buf[..], q, q + 2, r, r + 3, q, q + 5);
  }

  /** An eight-digit block written in full: the pair of the exact multiplier, then three more. */
  method WriteBlockFull(r: nat, buf: array<u8>, q: nat)
    requires r < 100_000_000 && q + 8 <= buf.Length
    modifies buf
    ensures buf[q..q + 8] == Padded(r, 8)
    ensures SameOutside(old(buf[..]), buf[..], q, q + 8)
  {
    Magic6Plus(r);
    var prod := r * 281474978 / 0x1_0000 + 1;
    ghost var before := buf[..];
    WriteTwoDigits(prod / TWO32, buf, q);
    ghost var pair := buf[..];
    WritePairs(buf, q + 2, prod % TWO32, 3);
    PairThen(before, pair, buf[..], q, q + 8, q + 8, prod / TWO32);
    BlockPairs(r, prod / TWO32, prod % TWO32);
  }

  /** An eight-digit block is its first pair followed by the six digits its fraction holds. */
  lemma BlockPairs(r: nat, d: nat, L: u32)
    requires r < 100_000_000 && d == r / 1_000_000 && Fraction(L, r % 1_000_000, 1_000_000)
    ensures d < 100 && Padded(r, 8) == PairText(d) + FractionPairs(L, 3)
  {
    Pow10Small();
    DivBelow(r, 1_000_000, 100);
    PaddedSplit(r, 2, 6);
    PairDigits(d);
    FractionPairsDigits(L, r % 1_000_000, 3);
  }

  /** A nonzero eight-digit block without its trailing zeros, as the tail of `write_f64` writes it. */
  method WriteBlockTail(r: nat, buf: array<u8>, q: nat) returns (end: nat)
    requires 0 < r < 100_000_000 && q + 8 <= buf.Length
    modifies buf
    ensures q < end <= q + 8 && buf[q..end] == StripZeros(Padded(r, 8))
    ensures SameOutside(old(buf[..]), buf[..], q, q + 8)
  {
    Magic6Plus(r);
    Pow10Small();
    var prod := r * 281474978 / 0x1_0000 + 1;
    ghost var before := buf[..];
    WriteTwoDigits(prod / TWO32, buf, q);
    ghost var d, s := prod / TWO32, r % 1_000_000;
    ZeroTest(prod % TWO32, s, 6);
    if prod % TWO32 <= TWO32 / 1_000_000 {
      end := q + 1 + (if buf[q + 1] > ZERO then 1 else 0);
      StopSlice(buf[..], q, d);
      TailStops(r, d);
    } else {
      ghost var pair := buf[..];
      end := WritePairsUntilZero(buf, q + 2, prod % TWO32, 3);
      PairThen(before, pair, buf[..], q, end, q + 8, d);
      FractionUntilZeroDigits(prod % TWO32, s, 3);
      TailGoesOn(r, d);
    }
  }

  /** A block whose last six digits are zero loses them, and its last digit when that is zero. */
  lemma TailStops(r: nat, d: nat)
    requires r < 100_000_000 && d == r / 1_000_000 && r % 1_000_000 == 0
    ensures d < 100 && StripZeros(Padded(r, 8)) == StopText(d)
  {
    Pow10Small();
    DivBelow(r, 1_000_000, 100);
    PaddedSplit(r, 2, 6);
    StopDigits(d, 6);
  }

  /** A block with nonzero last six digits keeps its first pair. */
  lemma TailGoesOn(r: nat, d: nat)
    requires r < 100_000_000 && d == r / 1_000_000 && r % 1_000_000 > 0
    ensures d < 100 && StripZeros(Padded(r, 8)) == PairText(d) + StripZeros(Padded(r % 1_000_000, 6))
  {
    Pow10Small();
    DivBelow(r, 1_000_000, 100);
    PaddedSplit(r, 2, 6);
    PairThenDigits(d, r % 1_000_000, 6);
  }

  /**
   * The leading part of a split significand, l < 10^8 with 2n + 1 or 2n + 2
   * digits: the head, then all its pairs; the point stays even after one digit.
   */
  method WriteLeadBlock(l: nat, h: nat, L: u32, buf: array<u8>, p: nat, n: nat) returns (end: nat)
    requires n == 1 || n == 2 || n == 3
    requires Pow10(2 * n) <= l < 100 * Pow10(2 * n) && h == l / Pow10(2 * n)
    requires Fraction(L, l % Pow10(2 * n), Pow10(2 * n))
    requires p + 2 * n + 3 <= buf.Length
    modifies buf
    ensures NumDigits(l) == 2 * n + 1 + (if h >= 10 then 1 else 0)
    ensures end == p + NumDigits(l) + 1 && buf[p..end] == Pointed(Digits(l))
    ensures SameOutside(old(buf[..]), buf[..], p, p + 2 * n + 3)
  {
    BlockOf(l, Pow10(2 * n));
    WriteHead(buf, p, h);
    ghost var head := buf[..];
    var b := p + (if h >= 10 then 1 else 0);
    WritePairs(buf, b + 2, L, n);
    end := b + 2 + 2 * n;
    FractionPairsDigits(L, l % Pow10(2 * n), n);
    HeadThen(head, buf[..], p, h, end, end);
    LeadRun(h, l, l % Pow10(2 * n), 2 * n);
    SameOutsideJoin(old(buf[..]), head, buf[..], p, p + 3, b + 2, end, p, p + 2 * n + 3);
  }

  /** The pointed digits of h * 10^k + s are the pointed h followed by the k digits of s. */
  lemma LeadRun(h: nat, m: nat, s: nat, k: nat)
    requires 1 <= h < 100 && s < Pow10(k) && m == h * Pow10(k) + s
    ensures NumDigits(m) == NumDigits(h) + k && NumDigits(h) == 1 + (if h >= 10 then 1 else 0)
    ensures Pointed(Digits(m)) == Pointed(Digits(h)) + Padded(s, k)
  {
    DigitsSplit(h, s, k);
    SmallDigits(h);
    PointedAppend(Digits(h), Padded(s, k));
  }

  /** The leading part of a split significand below 10^8, in the branches of `write_f64`. */
  method WriteLead(l: nat, buf: array<u8>, p: nat) returns (shift: nat, end: nat)
    requires 1 <= l < 100_000_000 && p + 9 <= buf.Length
    modifies buf
    ensures shift == NumDigits(l) - 1
    ensures end == p + NumDigits(l) + 1 && p < end <= p + 9 && buf[p..end] == Pointed(Digits(l))
    ensures SameOutside(old(buf[..]), buf[..], p, p + 9)
  {
    Pow10Small();
    if l >= 1_000_000 {
      Magic6(l);
      var prod := l * 281474978 / 0x1_0000;
      var h := prod / TWO32;
      shift := 6 + (if h >= 10 then 1 else 0);
      end := WriteLeadBlock(l, h, prod % TWO32, buf, p, 3);
    } else if l >= 10_000 {
      Magic4(l);
      var prod := l * 429497;
      var h := prod / TWO32;
      shift := 4 + (if h >= 10 then 1 else 0);
      end := WriteLeadBlock(l, h, prod % TWO32, buf, p, 2);
    } else if l >= 100 {
      Magic2(l);
      var prod := l * 42949673;
      var h := prod / TWO32;
      shift := 2 + (if h >= 10 then 1 else 0);
      end := WriteLeadBlock(l, h, prod % TWO32, buf, p, 1);
    } else {
      WriteHead(buf, p, l);
      shift := if l >= 10 then 1 else 0;
      end := p + 2 + (if l >= 10 then 1 else 0);
      SmallDigits(l);
    }
  }

  /** `(mant / 10^8) as u32`: the leading part, truncated to 32 bits. */
  function Lmant(mant: u64): u32
  {
    mant / 100_000_000 % TWO32
  }

  /**
   * The low block as `(mant as u32).wrapping_sub(lmant.wrapping_mul(10^8))`
   * computes it: every operation on 32 bits, wrapping.
   */
  function Rmant(mant: u64): u32
  {
    (mant % TWO32 - Lmant(mant) * 100_000_000 % TWO32) % TWO32
  }

  /** Below 10^17 the two parts are the significand's leading part and its last eight digits. */
  lemma SplitBlocks(mant: u64)
    requires mant < 100_000_000_000_000_000
    ensures Lmant(mant) == mant / 100_000_000 && Rmant(mant) == mant % 100_000_000
  {
    var l, r := mant / 100_000_000, mant % 100_000_000;
    DivBelow(mant, 100_000_000, 1_000_000_000);
    SmallDiv(l, TWO32);
    var a, b := mant % TWO32, l * 100_000_000 % TWO32;
    DivUnique(a - b, TWO32, (l * 100_000_000) / TWO32 - mant / TWO32, r);
  }

  /**
   * The subtraction as written: `-` on u32, which panics when it would go
   * below zero (None), as it does in a build with overflow checks.
   */
  function RmantAsWritten(mant: u64): Option<u32>
  {
    var a, b := mant % TWO32, Lmant(mant) * 100_000_000 % TWO32;
    if a < b then None else Some(a - b)
  }

  /** For 4299999999 the low 32 bits are below 42 * 10^8, so the subtraction as written overflows. */
  lemma RmantAsWrittenOverflows()
    ensures RmantAsWritten(4_299_999_999).None?
    ensures Rmant(4_299_999_999) == 99_999_999 == 4_299_999_999 % 100_000_000
  {
    SplitBlocks(4_299_999_999);
  }

  /** Where the subtraction as written does not overflow, it agrees with the wrapping one. */
  lemma RmantAsWrittenAgrees(mant: u64)
    requires RmantAsWritten(mant).Some?
    ensures RmantAsWritten(mant).value == Rmant(mant)
  {
    var a, b := mant % TWO32, Lmant(mant) * 100_000_000 % TWO32;
    SmallDiv(a - b, TWO32);
  }

  /**
   * The significand digits of `write_f64` when it splits: a nonzero low
   * block r after the leading part l, in full after nine leading digits and
   * without trailing zeros otherwise.
   */
  method WriteSplit(l: nat, r: nat, buf: array<u8>, p: nat) returns (shift: nat, end: nat)
    requires 1 <= l < 1_000_000_000 && 0 < r < 100_000_000 && p + 18 <= buf.Length
    modifies buf
    ensures shift == NumDigits(l) - 1
    ensures p < end <= p + 18
    ensures buf[p..end] == Pointed(Digits(l)) + (if l >= 100_000_000 then Padded(r, 8) else StripZeros(Padded(r, 8)))
    ensures SameOutside(old(buf[..]), buf[..], p, p + 18)
  {
    ghost var s0 := buf[..];
    var q;
    if l >= 100_000_000 {
      WriteNineFull(l, buf, p);
      q := p + 10;
      ghost var s1 := buf[..];
      WriteBlockFull(r, buf, q);
      shift, end := 8, p + 18;
      WrittenAfter(s1, buf[..], p, q, end, q + 8);
      SameOutsideJoin(s0, s1, buf[..], p, p + 10, q, q + 8, p, p + 18);
    } else {
      shift, q := WriteLead(l, buf, p);
      ghost var s1 := buf[..];
      end := WriteBlockTail(r, buf, q);
      WrittenAfter(s1, buf[..], p, q, end, q + 8);
      SameOutsideJoin(s0, s1, buf[..], p, p + 9, q, q + 8, p, p + 18);
    }
  }

  /**
   * `write_f64`'s significand digits, with the exponent raised by 8 when the
   * significand is split (see F64ExponentAsWritten for the code as written).
   */
  method WriteF64Digits(mant: u64, exp: int, buf: array<u8>, p: nat) returns (exp': int, end: nat)
    requires mant < 100_000_000_000_000_000 && p + 18 <= buf.Length
    modifies buf
    ensures exp' == exp + NumDigits(mant) - 1
    ensures p < end <= p + 18 && buf[p..end] == WithPoint(F64Run(mant))
    ensures SameOutside(old(buf[..]), buf[..], p, p + 18)
  {
    var lmant, rmant: nat, e := mant, 0, exp;
    if mant >= 100_000_000 {
      SplitBlocks(mant);
      lmant, rmant, e := Lmant(mant), Rmant(mant), exp + 8;
    }
    F64RunParts(mant);
    if rmant == 0 {
      exp', end := WriteNineDigits(lmant, e, buf, p);
    } else {
      var shift;
      shift, end := WriteSplit(lmant, rmant, buf, p);
      exp' := e + shift;
    }
  }

  /** F64Run by cases, with the number of digits of the significand. */
  lemma F64RunParts(mant: nat)
    requires mant < 100_000_000_000_000_000
    ensures mant < 100_000_000 ==> WithPoint(F64Run(mant)) == WithPoint(NineDigitRun(mant))
    ensures var l, r := mant / 100_000_000, mant % 100_000_000;
            mant >= 100_000_000 ==> NumDigits(mant) == NumDigits(l) + 8 && 1 <= l < 1_000_000_000
    ensures var l, r := mant / 100_000_000, mant % 100_000_000;
            mant >= 100_000_000 && r == 0 ==> WithPoint(F64Run(mant)) == WithPoint(NineDigitRun(l))
    ensures var l, r := mant / 100_000_000, mant % 100_000_000;
            var tail := if l >= 100_000_000 then Padded(r, 8) else StripZeros(Padded(r, 8));
            mant >= 100_000_000 && r != 0 ==> WithPoint(F64Run(mant)) == Pointed(Digits(l)) + tail
  {
    if mant >= 100_000_000 {
      var l, r := mant / 100_000_000, mant % 100_000_000;
      DivBelow(mant, 100_000_000, 1_000_000_000);
      BlockDigits(l, r);
      if r != 0 {
        var tail := if l >= 100_000_000 then Padded(r, 8) else StripZeros(Padded(r, 8));
        WithPointAppend(Digits(l), tail);
      }
    }
  }

  /**
   * `write_f64`, with the exponent raised by 8 when the significand is
   * split: the significand in scientific notation (at most seventeen digits)
   * followed by the exponent of its first digit; F64Text, at most 23 bytes.
   */
  method WriteF64(mant: u64, exp: i32, buf: array<u8>, p: nat) returns (end: nat)
    requires mant < 100_000_000_000_000_000 && -1000 < exp + NumDigits(mant) - 1 < 1000
    requires p + 23 <= buf.Length
    modifies buf
    ensures p < end <= p + 23 && buf[p..end] == F64Text(mant, exp)
    ensures SameOutside(old(buf[..]), buf[..], p, p + 23)
  {
    ghost var s0 := buf[..];
    var e, q := WriteF64Digits(mant, exp, buf, p);
    ghost var s1 := buf[..];
    end := WriteLongExponent(e, buf, q);
    WrittenAfter(s1, buf[..], p, q, end, q + 5);
    SameOutsideJoin(s0, s1, buf[..], p, p + 18, q, q + 5, p, p + 23);
  }

  /**
   * The exponent `write_f64` writes as written: it does not raise exp by 8
   * when it splits the significand, so every split significand but one with
   * seventeen digits and a nonzero low block gets the exponent of its
   * leading part.
   */
  function F64ExponentAsWritten(mant: nat, exp: int): int
  {
    if mant < 100_000_000 then exp + NumDigits(mant) - 1
    else if mant % 100_000_000 != 0 && mant / 100_000_000 >= 100_000_000 then exp + 16
    else exp + NumDigits(mant / 100_000_000) - 1
  }

  /** The exponent as written is 8 short for every other split significand. */
  lemma F64ExponentAsWrittenShort(mant: nat, exp: int)
    requires 100_000_000 <= mant < 100_000_000_000_000_000
    requires mant < 10_000_000_000_000_000 || mant % 100_000_000 == 0
    ensures F64ExponentAsWritten(mant, exp) == exp + NumDigits(mant) - 1 - 8
  {
    F64RunParts(mant);
    if mant >= 10_000_000_000_000_000 {
      DivBelow(mant, 100_000_000, 1_000_000_000);
    } else {
      DivBelow(mant, 100_000_000, 100_000_000);
    }
  }

  /** 10^16 is printed as 1.00000000E8 as written, though its first digit has exponent 16. */
  lemma F64ExponentAsWrittenExample()
    ensures F64ExponentAsWritten(10_000_000_000_000_000, 0) == 8
    ensures NumDigits(10_000_000_000_000_000) - 1 == 16
  {
    F64ExponentAsWrittenShort(10_000_000_000_000_000, 0);
  }
}
