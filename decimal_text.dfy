/**
 * The text the renderer writes, as functions on byte strings: the decimal
 * digits of a number, fixed-width digit groups, the removal of trailing
 * zeros, the point after the first digit and the exponent suffix.  The
 * writers in ToChars are proved to produce exactly these strings.
 */
module DecimalText {
  import opened Arith

  const ZERO: u8 := 0x30
  const POINT: u8 := 0x2e
  const LETTER_E: u8 := 0x45
  const MINUS: u8 := 0x2d

  /** The decimal digits of n, most significant first, without leading zeros ("0" for 0). */
  function Digits(n: nat): (s: seq<u8>)
    ensures |s| == NumDigits(n) && AllDigits(s)
    ensures n > 0 ==> s[0] != ZERO
  {
    if n < 10 then [ZERO + n] else Digits(n / 10) + [ZERO + n % 10]
  }

  /** The digits denote n. */
  lemma {:induction false} DigitsValue(n: nat)
    ensures DecimalValue(Digits(n)) == n
  {
    var s := Digits(n);
    if n < 10 {
      assert s[..0] == [];
    } else {
      assert s[..|s| - 1] == Digits(n / 10);
      DigitsValue(n / 10);
    }
  }

  /** The k lowest decimal digits of n, padded with leading zeros to width k. */
  function Padded(n: nat, k: nat): (s: seq<u8>)
    ensures |s| == k && AllDigits(s)
  {
    if k == 0 then [] else Padded(n / 10, k - 1) + [ZERO + n % 10]
  }

  /** The padded digits denote n mod 10^k. */
  lemma {:induction false} PaddedValue(n: nat, k: nat)
    ensures DecimalValue(Padded(n, k)) == n % Pow10(k)
  {
    if k > 0 {
      var s := Padded(n, k);
      assert s[..k - 1] == Padded(n / 10, k - 1);
      PaddedValue(n / 10, k - 1);
      LowDigits(n, k);
    }
  }

  /** n mod 10^k is n's last digit below (n / 10) mod 10^(k-1). */
  lemma LowDigits(n: nat, k: nat)
    requires k >= 1
    ensures 10 * ((n / 10) % Pow10(k - 1)) + n % 10 == n % Pow10(k)
    ensures (n % Pow10(k)) / 10 == (n / 10) % Pow10(k - 1) && (n % Pow10(k)) % 10 == n % 10
  {
    var p := Pow10(k - 1);
    PowPositive(10, k - 1);
    var a, b := n / 10, n % 10;
    var c, e := a / p, a % p;
    assert n == c * (10 * p) + (10 * e + b) by {
      assert n == 10 * a + b;
      assert a == c * p + e;
      MulSwap(c, 10, p);
    }
    DivUnique(n, 10 * p, c, 10 * e + b);
    DivUnique(10 * e + b, 10, e, b);
  }

  /** s without its trailing zero digits; the first digit always stays. */
  function StripZeros(s: seq<u8>): (r: seq<u8>)
    ensures |r| <= |s| && r == s[..|r|]
    ensures |s| >= 1 ==> |r| >= 1
    ensures |r| >= 2 ==> r[|r| - 1] != ZERO
  {
    if |s| >= 2 && s[|s| - 1] == ZERO then StripZeros(s[..|s| - 1]) else s
  }

  /** Only zero digits are removed: the value drops by exactly a power of ten. */
  lemma {:induction false} StripZerosValue(s: seq<u8>)
    ensures DecimalValue(s) == DecimalValue(StripZeros(s)) * Pow10(|s| - |StripZeros(s)|)
  {
    if |s| >= 2 && s[|s| - 1] == ZERO {
      var t := s[..|s| - 1];
      var r := StripZeros(t);
      StripZerosValue(t);
      assert DecimalValue(s) == 10 * DecimalValue(t);
      var x, p := DecimalValue(r), Pow10(|t| - |r|);
      assert Pow10(|s| - |r|) == 10 * p;
      MulSwap(x, 10, p);
    }
  }

  /** Zero digits appended to a nonempty x are all removed again. */
  lemma {:induction false} StripAppendedZeros(x: seq<u8>, k: nat)
    requires |x| >= 1
    ensures StripZeros(x + Padded(0, k)) == StripZeros(x)
    decreases k
  {
    if k == 0 {
      assert x + Padded(0, 0) == x;
    } else {
      StripAppendedZero(x, k);
      StripAppendedZeros(x, k - 1);
    }
  }

  /** The last of k zeros appended after a nonempty x is stripped. */
  lemma StripAppendedZero(x: seq<u8>, k: nat)
    requires |x| >= 1 && k >= 1
    ensures StripZeros(x + Padded(0, k)) == StripZeros(x + Padded(0, k - 1))
  {
    var w := x + Padded(0, k - 1);
    assert x + Padded(0, k) == w + [ZERO] by {
      assert Padded(0, k) == Padded(0, k - 1) + [ZERO];
    }
    assert (w + [ZERO])[..|w|] == w;
  }

  /** A suffix holding a nonzero digit protects everything before it. */
  lemma {:induction false} StripKeepsPrefix(x: seq<u8>, y: seq<u8>)
    requires |y| >= 1 && DecimalValue(y) > 0
    ensures StripZeros(x + y) == x + StripZeros(y)
  {
    var n := |y|;
    if y[n - 1] == ZERO {
      var y' := y[..n - 1];
      assert DecimalValue(y) == 10 * DecimalValue(y');
      assert n >= 2;
      assert (x + y)[..|x + y| - 1] == x + y';
      StripKeepsPrefix(x, y');
    }
  }

  /** The digits of a * 10^k + b are those of a followed by b as k padded digits. */
  lemma {:induction false} DigitsSplit(a: nat, b: nat, k: nat)
    requires a >= 1 && b < Pow10(k)
    ensures Digits(a * Pow10(k) + b) == Digits(a) + Padded(b, k)
  {
    if k == 0 {
      assert Digits(a) + Padded(b, 0) == Digits(a);
    } else {
      var p := Pow10(k - 1);
      var n := a * Pow10(k) + b;
      assert n == 10 * (a * p + b / 10) + b % 10 by {
        MulSwap(a, 10, p);
      }
      assert n >= 10 by {
        PowPositive(10, k - 1);
        MulGrows(a, p);
      }
      DivUnique(n, 10, a * p + b / 10, b % 10);
      DigitsSplit(a, b / 10, k - 1);
      assert Digits(n) == Digits(a * p + b / 10) + [ZERO + b % 10];
    }
  }

  /** i + k padded digits are the i digits above 10^k followed by the k digits below. */
  lemma {:induction false} PaddedSplit(n: nat, i: nat, k: nat)
    ensures Padded(n, i + k) == Padded(n / Pow10(k), i) + Padded(n % Pow10(k), k)
  {
    if k == 0 {
      assert Padded(n, i) + [] == Padded(n, i);
    } else {
      var p, q := Pow10(k - 1), Pow10(k);
      assert q == 10 * p;
      PaddedSplit(n / 10, i, k - 1);
      DivDivGeneral(n, 10, p);
      assert (n / 10) / p == n / q;
      LowDigits(n, k);
      DivBounds(n, q);
      var a: nat := n / q;
      var hi, lo, c := Padded(a, i), Padded((n / 10) % p, k - 1), [ZERO + n % 10];
      assert Padded(n, i + k) == Padded(n / 10, i + k - 1) + c;
      assert Padded(n / 10, i + k - 1) == hi + lo;
      assert Padded(n % q, k) == lo + c;
      assert (hi + lo) + c == hi + (lo + c);
    }
  }

  /** The digits of a number below 100. */
  lemma SmallDigits(h: nat)
    requires h < 100
    ensures Digits(h) == if h < 10 then [ZERO + h] else [ZERO + h / 10, ZERO + h % 10]
  {
    if h >= 10 {
      assert Digits(h / 10) == [ZERO + h / 10];
    }
  }

  /** A pair of digits, and what removing its trailing zero leaves. */
  lemma PairDigits(d: nat)
    requires d < 100
    ensures Padded(d, 2) == [ZERO + d / 10, ZERO + d % 10]
    ensures StripZeros(Padded(d, 2)) == if d % 10 == 0 then [ZERO + d / 10] else Padded(d, 2)
    ensures Digits(d) == if d < 10 then [ZERO + d] else Padded(d, 2)
  {
    assert Padded(d / 10, 1) == [ZERO + d / 10 % 10];
    assert Padded(d, 2) == [ZERO + d / 10, ZERO + d % 10];
    if d >= 10 {
      assert Digits(d / 10) == [ZERO + d / 10];
    }
  }

  /** The digits `write_9_digits` prints for n: all of a nine-digit n, otherwise without trailing zeros. */
  function NineDigitRun(n: nat): seq<u8>
  {
    if n >= 100_000_000 then Digits(n) else StripZeros(Digits(n))
  }

  /** The first digit, a point, then the other digits. */
  function Pointed(s: seq<u8>): (r: seq<u8>)
    requires |s| >= 1
    ensures |r| == |s| + 1
  {
    [s[0], POINT] + s[1..]
  }

  /** A point after the first digit when more digits follow. */
  function WithPoint(s: seq<u8>): seq<u8>
  {
    if |s| <= 1 then s else Pointed(s)
  }

  /** Digits appended after a pointed run stay after the point. */
  lemma WithPointAppend(x: seq<u8>, y: seq<u8>)
    requires |x| >= 1 && |y| >= 1
    ensures WithPoint(x + y) == Pointed(x) + y
  {
    assert (x + y)[1..] == x[1..] + y;
  }

  /** Digits appended after a run keep the run's point where it was. */
  lemma PointedAppend(x: seq<u8>, y: seq<u8>)
    requires |x| >= 1
    ensures Pointed(x + y) == Pointed(x) + y
  {
    assert (x + y)[1..] == x[1..] + y;
  }

  /** "E" or "E-" followed by the digits of |e|. */
  function ExponentText(e: int): seq<u8>
  {
    if e < 0 then [LETTER_E, MINUS] + Digits(-e) else [LETTER_E] + Digits(e)
  }

  /**
   * A run of n's leading digits that drops only zeros denotes n: read with
   * the point after its first digit and scaled by 10^(NumDigits(n) - 1), it
   * is n.
   */
  predicate DenotesDigits(run: seq<u8>, n: nat)
  {
    1 <= |run| <= NumDigits(n) && AllDigits(run) && run[0] == Digits(n)[0]
    && DecimalValue(run) * Pow10(NumDigits(n) - |run|) == n
  }

  lemma StrippedDenotes(n: nat)
    ensures DenotesDigits(StripZeros(Digits(n)), n)
  {
    var s := Digits(n);
    var r := StripZeros(s);
    StripZerosValue(s);
    DigitsValue(n);
    assert r == s[..|r|];
    assert r[0] == s[0];
    assert AllDigits(r) by {
      forall i | 0 <= i < |r|
        ensures IsDigit(r[i])
      {
        assert r[i] == s[i];
      }
    }
  }

  /**
   * `write_9_digits`' digits denote n; below 10^8 they end in a nonzero digit
   * unless there is only one.
   */
  lemma NineDigitRunDenotes(n: nat)
    ensures DenotesDigits(NineDigitRun(n), n)
    ensures n < 100_000_000 && |NineDigitRun(n)| >= 2 ==> NineDigitRun(n)[|NineDigitRun(n)| - 1] != ZERO
  {
    if n < 100_000_000 {
      StrippedDenotes(n);
    } else {
      DigitsValue(n);
      assert Digits(n)[..|Digits(n)|] == Digits(n);
      assert Pow10(0) == 1;
    }
  }

  /** `write_f32`'s text for a significand below 10^9 and a decimal exponent. */
  function F32Text(mant: nat, exp: int): seq<u8>
  {
    WithPoint(NineDigitRun(mant)) + ExponentText(exp + NumDigits(mant) - 1)
  }

  /**
   * `write_f64`'s significand digits: mant is cut into the blocks
   * mant / 10^8 and mant mod 10^8; a zero low block leaves the high block to
   * `write_9_digits`; a nine-digit high block is printed in full with all
   * eight low digits; otherwise the low block loses its trailing zeros.
   */
  function F64Run(mant: nat): seq<u8>
  {
    var (hi, lo) := if mant >= 100_000_000 then (mant / 100_000_000, mant % 100_000_000) else (mant, 0);
    if lo == 0 then NineDigitRun(hi)
    else if hi >= 100_000_000 then Digits(hi) + Padded(lo, 8)
    else Digits(hi) + StripZeros(Padded(lo, 8))
  }

  /** The number of digits of hi * 10^8 + lo, for hi >= 1. */
  lemma BlockDigits(hi: nat, lo: nat)
    requires hi >= 1 && lo < 100_000_000
    ensures NumDigits(hi * 100_000_000 + lo) == NumDigits(hi) + 8
    ensures Digits(hi * 100_000_000 + lo) == Digits(hi) + Padded(lo, 8)
  {
    Pow10Table();
    DigitsSplit(hi, lo, 8);
  }

  /** `write_f64`'s digits denote the significand, for every significand below 10^17. */
  lemma F64RunDenotes(mant: nat)
    requires mant < 100_000_000_000_000_000
    ensures DenotesDigits(F64Run(mant), mant)
  {
    if mant < 100_000_000 {
      NineDigitRunDenotes(mant);
    } else {
      var hi, lo := mant / 100_000_000, mant % 100_000_000;
      assert mant == hi * 100_000_000 + lo;
      Pow10Table();
      if lo == 0 {
        NineDigitRunDenotes(hi);
        DenotesScaled(NineDigitRun(hi), hi, 8);
      } else if hi >= 100_000_000 {
        BlockDigits(hi, lo);
        DigitsValue(mant);
        assert F64Run(mant) == Digits(mant);
        assert Pow10(0) == 1;
      } else {
        LowBlockDenotes(hi, lo, 8, mant);
      }
    }
  }

  /** Appending zeros to a number keeps the run that denotes it. */
  lemma DenotesScaled(run: seq<u8>, hi: nat, k: nat)
    requires hi >= 1 && DenotesDigits(run, hi)
    ensures DenotesDigits(run, hi * Pow10(k))
  {
    DigitsSplit(hi, 0, k);
    assert Digits(hi * Pow10(k)) == Digits(hi) + Padded(0, k);
    var j := NumDigits(hi) - |run|;
    assert NumDigits(hi * Pow10(k)) - |run| == j + k;
    PowAdd(10, j, k);
    MulAssoc(DecimalValue(run), Pow10(j), Pow10(k));
  }

  /** A nonzero low block: only its trailing zeros go. */
  lemma LowBlockDenotes(hi: nat, lo: nat, k: nat, n: nat)
    requires 1 <= hi && 1 <= lo < Pow10(k) && n == hi * Pow10(k) + lo
    ensures DenotesDigits(Digits(hi) + StripZeros(Padded(lo, k)), n)
  {
    DigitsSplit(hi, lo, k);
    PaddedValue(lo, k);
    SmallDiv(lo, Pow10(k));
    StripKeepsPrefix(Digits(hi), Padded(lo, k));
    StrippedDenotes(hi * Pow10(k) + lo);
  }

  /** `write_f64`'s text: the significand's digits and the exponent of its first digit. */
  function F64Text(mant: nat, exp: int): seq<u8>
  {
    WithPoint(F64Run(mant)) + ExponentText(exp + NumDigits(mant) - 1)
  }
}
