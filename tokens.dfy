/**
 * The lexer `parse_into_tokens`: it reads `[-]digits[.digits][(e|E)[+|-]digits]`
 * from the front of a byte string into a `Number` token and ignores whatever
 * follows the literal.
 *
 * The literal's parts are described by positions in the input (`Lex`), and
 * the token's fields by functions of those parts.  `ParseIntoTokens` walks the input with while
 * loops and is proved to produce exactly that token, or `None` exactly when
 * the input is `Malformed`.
 */
module Tokens {
  import opened Arith
  import opened Scanner

  const MINUS: u8 := 0x2D
  const PLUS: u8 := 0x2B
  const POINT: u8 := 0x2E
  const ZERO: u8 := 0x30
  const LOWER_E: u8 := 0x65
  const UPPER_E: u8 := 0x45

  /** The smallest integer of nineteen digits, 10^18. */
  const MINIMAL_NINETEEN_DIGIT_INTEGER: nat := 1_000_000_000_000_000_000

  /** Exponent digits stop accumulating once the value reaches this cap. */
  const EXP_CAP: nat := 0x1000_0000

  /**
   * The token: the exponent and significand of the value mant * 10^exp,
   * the sign, whether the significand was truncated to nineteen digits,
   * and the digit runs before and after the point.
   */
  datatype Number = Number(exp: i32, mant: u64, neg: bool, manyDigits: bool, integer: seq<u8>, fraction: seq<u8>)

  // ---------------------------------------------------------------------
  // The parts of a literal
  // ---------------------------------------------------------------------

  /** The length of the run of digits that starts at position k. */
  function DigitRun(d: seq<u8>, k: nat): (n: nat)
    requires k <= |d|
    ensures k + n <= |d|
    ensures k + n == |d| || !IsDigit(d[k + n])
    decreases |d| - k
  {
    if k < |d| && IsDigit(d[k]) then 1 + DigitRun(d, k + 1) else 0
  }

  /** The run holds digits only, so it is the longest run of digits from k. */
  lemma {:induction false} DigitRunDigits(d: seq<u8>, k: nat)
    requires k <= |d|
    ensures forall j :: k <= j < k + DigitRun(d, k) ==> IsDigit(d[j])
    ensures AllDigits(d[k..k + DigitRun(d, k)])
    decreases |d| - k
  {
    if k < |d| && IsDigit(d[k]) {
      DigitRunDigits(d, k + 1);
    }
  }

  /**
   * Where the parts of the literal lie: the sign, the integer digits
   * [signLen, intEnd), the fraction digits [fracStart, fracEnd) (after the
   * point, if there is one) and the exponent digits [expStart, expEnd) (after
   * `e` or `E` and an optional sign, if there is an exponent marker).
   */
  datatype Parts = Parts(signLen: nat, intEnd: nat, fracStart: nat, fracEnd: nat,
                         hasExp: bool, expNeg: bool, expStart: nat, expEnd: nat)

  function Lex(d: seq<u8>): (q: Parts)
    ensures q.signLen <= q.intEnd <= q.fracStart <= q.fracEnd <= q.expStart <= q.expEnd <= |d|
  {
    var signLen := if |d| > 0 && d[0] == MINUS then 1 else 0;
    var intEnd := signLen + DigitRun(d, signLen);
    var hasPoint := intEnd < |d| && d[intEnd] == POINT;
    var fracStart := if hasPoint then intEnd + 1 else intEnd;
    var fracEnd := if hasPoint then fracStart + DigitRun(d, fracStart) else intEnd;
    var hasExp := fracEnd < |d| && (d[fracEnd] == LOWER_E || d[fracEnd] == UPPER_E);
    var expSign := hasExp && fracEnd + 1 < |d| && (d[fracEnd + 1] == MINUS || d[fracEnd + 1] == PLUS);
    var expStart := if hasExp then fracEnd + 1 + (if expSign then 1 else 0) else fracEnd;
    var expEnd := if hasExp then expStart + DigitRun(d, expStart) else fracEnd;
    Parts(signLen, intEnd, fracStart, fracEnd, hasExp, expSign && d[fracEnd + 1] == MINUS, expStart, expEnd)
  }

  /** The digits before the point. */
  function Integer(d: seq<u8>): seq<u8> { d[Lex(d).signLen..Lex(d).intEnd] }

  /** The digits after the point (empty without a point). */
  function Fraction(d: seq<u8>): seq<u8> { d[Lex(d).fracStart..Lex(d).fracEnd] }

  /** The integer digits followed by the fraction digits. */
  function Digits(d: seq<u8>): seq<u8> { Integer(d) + Fraction(d) }

  /** The digits of the explicit exponent (empty without an exponent marker). */
  function ExpDigits(d: seq<u8>): seq<u8> { d[Lex(d).expStart..Lex(d).expEnd] }

  /** The inputs the lexer rejects. */
  predicate Malformed(d: seq<u8>)
  {
    var q := Lex(d);
    || |d| == 0
    || (d[0] == MINUS && (|d| == 1 || !(IsDigit(d[1]) || d[1] == POINT)))
    || (q.intEnd == q.signLen && q.fracEnd == q.fracStart)
    || (q.hasExp && q.expEnd == q.expStart)
  }

  // ---------------------------------------------------------------------
  // The exponent
  // ---------------------------------------------------------------------

  /**
   * The exponent digits, accumulated only while below the cap, in unbounded
   * integers: the loop of `parse_into_tokens` without its i32 overflow.
   */
  function ExpAccum(s: seq<u8>): int
  {
    if s == [] then 0
    else
      var a := ExpAccum(s[..|s| - 1]);
      if a < EXP_CAP then 10 * a + DigitValue(s[|s| - 1]) else a
  }

  /**
   * The capped exponent is exact below ten times the cap, stays at or above
   * the cap from the cap on, and is below ten times the cap.
   */
  lemma {:induction false} ExpAccumMeaning(s: seq<u8>)
    requires AllDigits(s)
    ensures 0 <= ExpAccum(s) < 10 * EXP_CAP
    ensures DecimalValue(s) < 10 * EXP_CAP ==> ExpAccum(s) == DecimalValue(s)
    ensures DecimalValue(s) >= EXP_CAP ==> ExpAccum(s) >= EXP_CAP
  {
    if s != [] {
      var t := s[..|s| - 1];
      ExpAccumMeaning(t);
      DecimalValueBounds(t);
      assert DecimalValue(s) == 10 * DecimalValue(t) + DigitValue(s[|s| - 1]);
    }
  }

  /** The exponent loop as written, in i32: 10 * x + digit wraps once it leaves the range. */
  function ExpAccumAsWritten(s: seq<u8>): i32
  {
    if s == [] then 0
    else
      var a := ExpAccumAsWritten(s[..|s| - 1]);
      if a < EXP_CAP then Wrap32(10 * a + DigitValue(s[|s| - 1])) else a
  }

  /** Accumulating never lowers the capped exponent. */
  lemma ExpAccumGrows(s: seq<u8>)
    requires AllDigits(s) && s != []
    ensures 0 <= ExpAccum(s[..|s| - 1]) <= ExpAccum(s)
  {
    ExpAccumMeaning(s[..|s| - 1]);
  }

  /** The loop as written agrees with the unbounded one wherever that stays below 2^31. */
  lemma {:induction false} ExpAccumAgrees(s: seq<u8>)
    requires AllDigits(s) && ExpAccum(s) < 0x8000_0000
    ensures ExpAccumAsWritten(s) == ExpAccum(s)
  {
    if s != [] {
      var t := s[..|s| - 1];
      ExpAccumGrows(s);
      ExpAccumAgrees(t);
      if ExpAccum(t) < EXP_CAP {
        Wrap32Small(10 * ExpAccum(t) + DigitValue(s[|s| - 1]));
      }
    }
  }

  /** The exponent digits of "1e2147483648". */
  const OVERFLOWING_EXPONENT: seq<u8> := [0x32, 0x31, 0x34, 0x37, 0x34, 0x38, 0x33, 0x36, 0x34, 0x38]

  /** The exponent 2147483648 is reached below the cap, and as written it wraps to -2147483648. */
  lemma ExpAccumAsWrittenOverflows()
    ensures AllDigits(OVERFLOWING_EXPONENT) && DecimalValue(OVERFLOWING_EXPONENT) == 2147483648
    ensures ExpAccum(OVERFLOWING_EXPONENT) == 2147483648
    ensures ExpAccumAsWritten(OVERFLOWING_EXPONENT) == -0x8000_0000
  {
    var s := OVERFLOWING_EXPONENT;
    var s8 := s[..8];
    assert s8 == [0x32, 0x31, 0x34, 0x37, 0x34, 0x38, 0x33, 0x36];
    DecimalEight(s8);
    assert DecimalValue(s8) == 21474836;
    assert s[..9] == s8 + [s[8]];
    DecimalValueSnoc(s8, s[8]);
    assert s == s[..9] + [s[9]];
    DecimalValueSnoc(s[..9], s[9]);
    ExpAccumMeaning(s[..9]);
    ExpAccumMeaning(s);
    ExpAccumAgrees(s[..9]);
  }

  /** The signed explicit exponent, 0 when there is none. */
  function ExpNumber(d: seq<u8>): int
  {
    if Lex(d).hasExp then
      var e := ExpAccum(ExpDigits(d));
      if Lex(d).expNeg then -e else e
    else 0
  }

  /** The explicit exponent as written: the i32 loop, negated with wrap-around. */
  function ExpNumberAsWritten(d: seq<u8>): i32
  {
    if Lex(d).hasExp then
      var e: int := ExpAccumAsWritten(ExpDigits(d));
      if Lex(d).expNeg then Wrap32(-e) else e
    else 0
  }

  // ---------------------------------------------------------------------
  // The significand
  // ---------------------------------------------------------------------

  /** The number of `0` bytes skipped from position k over a run of `0` and `.` bytes. */
  function ZerosSkipped(d: seq<u8>, k: nat): nat
    requires k <= |d|
    decreases |d| - k
  {
    if k < |d| && (d[k] == ZERO || d[k] == POINT) then
      (if d[k] == ZERO then 1 else 0) + ZerosSkipped(d, k + 1)
    else 0
  }

  /** Whether more than nineteen digits are left once leading zeros are discounted. */
  predicate ManyDigits(d: seq<u8>)
  {
    |Digits(d)| > 19 && |Digits(d)| - ZerosSkipped(d, Lex(d).signLen) > 19
  }

  /** The first position from k on at which the value of the prefix reaches 10^18, or the end. */
  function TakeCount(s: seq<u8>, k: nat): (n: nat)
    requires k <= |s|
    ensures k <= n <= |s|
    decreases |s| - k
  {
    if k < |s| && DecimalValue(s[..k]) < MINIMAL_NINETEEN_DIGIT_INTEGER then TakeCount(s, k + 1) else k
  }

  /** The token's significand: the digits' value, wrapping, or its first nineteen significant digits. */
  function Mant(d: seq<u8>): int
  {
    var s := Digits(d);
    if ManyDigits(d) then DecimalValue(s[..TakeCount(s, 0)]) else DecimalValue(s) % TWO64
  }

  /** The token's decimal exponent, in unbounded integers. */
  function Exp(d: seq<u8>): int
  {
    var s := Digits(d);
    if ManyDigits(d) then |Integer(d)| - TakeCount(s, 0) + ExpNumber(d)
    else ExpNumber(d) - |Fraction(d)|
  }

  /** The token's decimal exponent as written, with every i32 sum wrapping. */
  function ExpAsWritten(d: seq<u8>): i32
  {
    var s := Digits(d);
    if ManyDigits(d) then Wrap32(|Integer(d)| - TakeCount(s, 0) + ExpNumberAsWritten(d))
    else Wrap32(ExpNumberAsWritten(d) - |Fraction(d)|)
  }

  /**
   * Where the i32 arithmetic of `parse_into_tokens` overflows: the digit
   * loop passing 2^31, the sum of the explicit exponent and the fraction
   * length, or the exponent of a truncated significand.
   */
  predicate ExpOverflows(d: seq<u8>)
  {
    || (Lex(d).hasExp && ExpAccum(ExpDigits(d)) >= 0x8000_0000)
    || !(-0x8000_0000 <= ExpNumber(d) - |Fraction(d)| < 0x8000_0000)
    || (ManyDigits(d) && !(-0x8000_0000 <= Exp(d) < 0x8000_0000))
  }

  /** The literal "1e2147483648". */
  const OVERFLOWING_LITERAL: seq<u8> := [0x31, 0x65] + OVERFLOWING_EXPONENT

  /**
   * "1e2147483648" is well formed, and its exponent overflows: as written it
   * wraps to -2^31, while the saturated exact exponent is 2^31 - 1.
   */
  lemma ExpOverflowExample()
    ensures !Malformed(OVERFLOWING_LITERAL) && ExpOverflows(OVERFLOWING_LITERAL)
    ensures ExpAsWritten(OVERFLOWING_LITERAL) == -0x8000_0000
    ensures Saturate32(Exp(OVERFLOWING_LITERAL)) == 0x7FFF_FFFF
  {
    var d := OVERFLOWING_LITERAL;
    assert DigitRun(d, 0) == 1;
    assert DigitRun(d, 2) == 10;
    assert Lex(d) == Parts(0, 1, 1, 1, true, false, 2, 12);
    assert ExpDigits(d) == OVERFLOWING_EXPONENT;
    assert |Digits(d)| == 1;
    ExpAccumAsWrittenOverflows();
  }

  /** Where the digit loop stays below 2^31, the explicit exponent as written is the unbounded one. */
  lemma ExpNumberAgrees(d: seq<u8>)
    requires !Lex(d).hasExp || ExpAccum(ExpDigits(d)) < 0x8000_0000
    ensures ExpNumberAsWritten(d) == ExpNumber(d)
  {
    if Lex(d).hasExp {
      var s := ExpDigits(d);
      DigitRunDigits(d, Lex(d).expStart);
      ExpAccumMeaning(s);
      ExpAccumAgrees(s);
      Wrap32Small(-ExpAccum(s));
    }
  }

  /** Where nothing overflows, the exponent as written is the unbounded one. */
  lemma ExpAsWrittenAgrees(d: seq<u8>)
    requires !ExpOverflows(d)
    ensures ExpNumberAsWritten(d) == ExpNumber(d)
    ensures ExpAsWritten(d) == Exp(d)
  {
    ExpNumberAgrees(d);
    var n := ExpNumber(d);
    if ManyDigits(d) {
      var e := Exp(d);
      assert e == |Integer(d)| - TakeCount(Digits(d), 0) + n;
      Wrap32Small(e);
    } else {
      Wrap32Small(n - |Fraction(d)|);
    }
  }


  // ---------------------------------------------------------------------
  // Helpers about the parts
  // ---------------------------------------------------------------------

  lemma {:induction false} DigitRunSplit(d: seq<u8>, k: nat, p: nat)
    requires k <= p <= |d| && forall j :: k <= j < p ==> IsDigit(d[j])
    ensures DigitRun(d, k) == (p - k) + DigitRun(d, p)
    decreases p - k
  {
    if k < p {
      DigitRunSplit(d, k + 1, p);
    }
  }

  /** A wrapping multiply-add depends only on the wrapped accumulator. */
  lemma ModStep(x: int, c: int, y: int, m: int)
    requires m > 0
    ensures (x % m * c + y) % m == (x * c + y) % m
  {
    var q, r := x / m, x % m;
    var b := r * c + y;
    assert x * c == q * c * m + r * c by {
      MulDistrib(c, q * m, r);
    }
    DivUnique(x * c + y, m, q * c + b / m, b % m);
  }

  lemma DecimalValueSnoc(s: seq<u8>, c: u8)
    ensures DecimalValue(s + [c]) == 10 * DecimalValue(s) + DigitValue(c)
  {
    assert (s + [c])[..|s|] == s;
  }

  /** One more digit of the run: the wrapped value steps by i * 10 + digit. */
  lemma ScanStep(pre: seq<u8>, d: seq<u8>, k: nat, p: nat)
    requires k <= p < |d| && IsDigit(d[p])
    ensures DecimalValue(pre + d[k..p + 1]) % TWO64 == (DecimalValue(pre + d[k..p]) % TWO64 * 10 + DigitValue(d[p])) % TWO64
  {
    var s := pre + d[k..p];
    DecimalValueSnoc(s, d[p]);
    assert pre + d[k..p + 1] == s + [d[p]];
    ModStep(DecimalValue(s), 10, DigitValue(d[p]), TWO64);
  }

  /** Eight more digits of the run: the wrapped value steps by i * 10^8 + their value. */
  lemma ScanEightStep(pre: seq<u8>, d: seq<u8>, k: nat, p: nat)
    requires k <= p && p + 8 <= |d|
    ensures DecimalValue(pre + d[k..p + 8]) % TWO64
            == (DecimalValue(pre + d[k..p]) % TWO64 * 100000000 + DecimalValue(d[p..p + 8])) % TWO64
  {
    var s := pre + d[k..p];
    var b := d[p..p + 8];
    DecimalValueAppend(s, b);
    assert s + b == pre + d[k..p + 8];
    assert Pow10(8) == 100000000;
    ModStep(DecimalValue(s), 100000000, DecimalValue(b), TWO64);
  }

  // ---------------------------------------------------------------------
  // What the token means
  // ---------------------------------------------------------------------

  /** The number of `0` digits at the front of a digit run. */
  function LeadingZeros(s: seq<u8>): (n: nat)
    ensures n <= |s| && (n < |s| ==> s[n] != ZERO)
    ensures forall j :: 0 <= j < n ==> s[j] == ZERO
  {
    if |s| > 0 && s[0] == ZERO then
      var n := LeadingZeros(s[1..]);
      assert forall j :: 1 <= j < 1 + n ==> s[j] == s[1..][j - 1];
      1 + n
    else 0
  }

  /** The integer and fraction parts are the maximal digit runs before and after the point. */
  lemma PartsAreDigitRuns(d: seq<u8>)
    ensures AllDigits(Integer(d)) && AllDigits(Fraction(d)) && AllDigits(Digits(d))
    ensures Lex(d).intEnd < |d| ==> !IsDigit(d[Lex(d).intEnd])
    ensures Lex(d).fracEnd < |d| ==> !IsDigit(d[Lex(d).fracEnd])
  {
    var q := Lex(d);
    DigitRunDigits(d, q.signLen);
    DigitRunDigits(d, q.fracStart);
  }

  /** Skipping a run of `0` bytes counts each of them. */
  lemma {:induction false} ZerosSkippedRun(d: seq<u8>, lo: nat, hi: nat)
    requires lo <= hi <= |d| && forall j :: lo <= j < hi ==> d[j] == ZERO
    ensures ZerosSkipped(d, lo) == (hi - lo) + ZerosSkipped(d, hi)
    decreases hi - lo
  {
    if lo < hi {
      ZerosSkippedRun(d, lo + 1, hi);
    }
  }

  /** Skipping over a run t of the input that starts with m zeros counts them. */
  lemma ZerosSkippedPrefix(d: seq<u8>, lo: nat, t: seq<u8>, m: nat)
    requires lo + |t| <= |d| && t == d[lo..lo + |t|]
    requires m <= |t| && forall j :: 0 <= j < m ==> t[j] == ZERO
    ensures ZerosSkipped(d, lo) == m + ZerosSkipped(d, lo + m)
  {
    assert forall j :: lo <= j < lo + m ==> d[j] == t[j - lo];
    ZerosSkippedRun(d, lo, lo + m);
  }

  /** The leading zeros of a concatenation. */
  lemma LeadingZerosAppend(a: seq<u8>, b: seq<u8>)
    ensures LeadingZeros(a + b) == if LeadingZeros(a) < |a| then LeadingZeros(a) else |a| + LeadingZeros(b)
  {
    var n := LeadingZeros(a + b);
    var m := if LeadingZeros(a) < |a| then LeadingZeros(a) else |a| + LeadingZeros(b);
    assert forall j :: 0 <= j < m ==> (a + b)[j] == ZERO;
    assert m < |a + b| ==> (a + b)[m] != ZERO;
    LeadingZerosUnique(a + b, m);
  }

  /** The leading-zero count is the only count with its two properties. */
  lemma LeadingZerosUnique(s: seq<u8>, m: nat)
    requires m <= |s| && (m < |s| ==> s[m] != ZERO) && forall j :: 0 <= j < m ==> s[j] == ZERO
    ensures LeadingZeros(s) == m
  {
  }

  /**
   * The strip loop counts at least the leading zeros of the digits, and
   * exactly them when some digit is not zero.
   */
  lemma ZerosSkippedCountsLeadingZeros(d: seq<u8>)
    ensures ZerosSkipped(d, Lex(d).signLen) >= LeadingZeros(Digits(d))
    ensures LeadingZeros(Digits(d)) < |Digits(d)| ==> ZerosSkipped(d, Lex(d).signLen) == LeadingZeros(Digits(d))
  {
    var q := Lex(d);
    PartsAreDigitRuns(d);
    ZerosSkippedOverRuns(d, q.signLen, q.intEnd, q.fracStart, q.fracEnd, Integer(d), Fraction(d));
  }

  /** The same, for any two digit runs separated by nothing or by a point. */
  lemma ZerosSkippedOverRuns(d: seq<u8>, lo: nat, mid: nat, start: nat, hi: nat, integer: seq<u8>, fraction: seq<u8>)
    requires lo <= mid <= start <= hi <= |d|
    requires integer == d[lo..mid] && fraction == d[start..hi]
    requires AllDigits(integer) && AllDigits(fraction)
    requires start == mid ==> hi == mid
    requires start > mid ==> start == mid + 1 && d[mid] == POINT
    ensures ZerosSkipped(d, lo) >= LeadingZeros(integer + fraction)
    ensures LeadingZeros(integer + fraction) < |integer + fraction| ==> ZerosSkipped(d, lo) == LeadingZeros(integer + fraction)
  {
    LeadingZerosAppend(integer, fraction);
    ZerosSkippedOverRun(d, lo, integer);
    if LeadingZeros(integer) == |integer| && start > mid {
      assert lo + |integer| == mid;
      assert ZerosSkipped(d, mid) == ZerosSkipped(d, start);
      ZerosSkippedOverRun(d, start, fraction);
    }
  }

  /** Over one digit run: the leading zeros are counted, and the count stops at a nonzero digit. */
  lemma ZerosSkippedOverRun(d: seq<u8>, lo: nat, t: seq<u8>)
    requires lo + |t| <= |d| && t == d[lo..lo + |t|] && AllDigits(t)
    ensures ZerosSkipped(d, lo) >= LeadingZeros(t)
    ensures LeadingZeros(t) < |t| ==> ZerosSkipped(d, lo) == LeadingZeros(t)
    ensures LeadingZeros(t) == |t| ==> ZerosSkipped(d, lo) == |t| + ZerosSkipped(d, lo + |t|)
  {
    var m := LeadingZeros(t);
    ZerosSkippedPrefix(d, lo, t, m);
    if m < |t| {
      assert d[lo + m] == t[m];
    }
  }

  /** Leading zero digits do not change the value of a run. */
  lemma {:induction false} DecimalValueSkipZeros(s: seq<u8>, m: nat)
    requires m <= |s| && forall j :: 0 <= j < m ==> s[j] == ZERO
    ensures DecimalValue(s) == DecimalValue(s[m..])
    decreases m
  {
    if m > 0 {
      DecimalValueLeadingZero(s);
      assert s[1..][m - 1..] == s[m..];
      DecimalValueSkipZeros(s[1..], m - 1);
    }
  }

  /** The value of a digit run is below 10 to the number of its significant digits. */
  lemma SignificantBound(s: seq<u8>)
    requires AllDigits(s)
    ensures DecimalValue(s) < Pow10(|s| - LeadingZeros(s))
  {
    var n := LeadingZeros(s);
    DecimalValueSkipZeros(s, n);
    DecimalValueBounds(s[n..]);
  }

  /**
   * With at most nineteen significant digits the significand is exactly the
   * value of the integer digits followed by the fraction digits: no wrap-around.
   */
  lemma MantExact(d: seq<u8>)
    requires !ManyDigits(d)
    ensures Mant(d) == DecimalValue(Digits(d))
    ensures Exp(d) == ExpNumber(d) - |Fraction(d)|
  {
    var s := Digits(d);
    PartsAreDigitRuns(d);
    ZerosSkippedCountsLeadingZeros(d);
    SignificantBound(s);
    DecimalValueBounds(s);
    Pow10Table();
    var n := LeadingZeros(s);
    if n == |s| {
      DecimalValueSkipZeros(s, n);
      assert s[n..] == [];
    } else {
      PowMonotone(10, |s| - n, 19);
    }
    assert DecimalValue(s) < TWO64;
  }

  /** The count reaches a prefix whose value is at least 10^18 if there is one. */
  lemma {:induction false} TakeCountReaches(s: seq<u8>, k: nat, j: nat)
    requires k <= j <= |s| && DecimalValue(s[..j]) >= MINIMAL_NINETEEN_DIGIT_INTEGER
    ensures TakeCount(s, k) <= j
    ensures DecimalValue(s[..TakeCount(s, k)]) >= MINIMAL_NINETEEN_DIGIT_INTEGER
    decreases j - k
  {
    if k < j && DecimalValue(s[..k]) < MINIMAL_NINETEEN_DIGIT_INTEGER {
      TakeCountReaches(s, k + 1, j);
    }
  }

  /** Before the count stops, every prefix is below 10^18. */
  lemma {:induction false} TakeCountBelow(s: seq<u8>, k: nat)
    requires k <= |s|
    ensures TakeCount(s, k) > k ==> DecimalValue(s[..TakeCount(s, k) - 1]) < MINIMAL_NINETEEN_DIGIT_INTEGER
    decreases |s| - k
  {
    if k < |s| && DecimalValue(s[..k]) < MINIMAL_NINETEEN_DIGIT_INTEGER {
      TakeCountBelow(s, k + 1);
    }
  }

  /** A run that starts with a nonzero digit is worth at least 10^(length - 1). */
  lemma LeadingDigitBound(s: seq<u8>)
    requires AllDigits(s) && |s| > 0 && s[0] != ZERO
    ensures DecimalValue(s) >= Pow10(|s| - 1)
  {
    DecimalValueAppend([s[0]], s[1..]);
    assert [s[0]] + s[1..] == s;
    assert [s[0]][..0] == [];
    DecimalValueBounds(s[1..]);
    MulGrows(Pow10(|s| - 1), DigitValue(s[0]));
  }

  /** Nineteen digits from the first significant one are worth at least 10^18. */
  lemma NineteenSignificant(s: seq<u8>)
    requires AllDigits(s) && LeadingZeros(s) + 19 <= |s|
    ensures DecimalValue(s[..LeadingZeros(s) + 19]) >= MINIMAL_NINETEEN_DIGIT_INTEGER
  {
    var z := LeadingZeros(s);
    var t, u := s[..z + 19], s[z..z + 19];
    assert t[z..] == u && u[0] == s[z];
    assert forall j :: 0 <= j < z ==> t[j] == ZERO;
    DecimalValueSkipZeros(t, z);
    assert AllDigits(u);
    LeadingDigitBound(u);
    Pow10Table();
  }

  /** The count stops at the first prefix worth 10^18 or more, which has nineteen digits' worth. */
  lemma TakeCountNineteen(s: seq<u8>)
    requires AllDigits(s) && LeadingZeros(s) + 19 <= |s|
    ensures 0 < TakeCount(s, 0)
    ensures MINIMAL_NINETEEN_DIGIT_INTEGER <= DecimalValue(s[..TakeCount(s, 0)]) < 10 * MINIMAL_NINETEEN_DIGIT_INTEGER
  {
    NineteenSignificant(s);
    TakeCountReaches(s, 0, LeadingZeros(s) + 19);
    assert s[..0] == [];
    TakeCountUpper(s);
  }

  /** Once the count has moved, the prefix it stops at is below 10^19: one digit past a value below 10^18. */
  lemma TakeCountUpper(s: seq<u8>)
    requires AllDigits(s) && TakeCount(s, 0) > 0
    ensures DecimalValue(s[..TakeCount(s, 0)]) < 10 * MINIMAL_NINETEEN_DIGIT_INTEGER
  {
    TakeCountBelow(s, 0);
    var n := TakeCount(s, 0);
    var prefix, last := s[..n - 1], s[n - 1];
    assert s[..n] == prefix + [last];
    DecimalValueSnoc(prefix, last);
    assert IsDigit(last);
  }

  /** Cutting a run after n digits: the value lies between the prefix's and the next, scaled. */
  lemma TruncatedValue(s: seq<u8>, n: nat)
    requires AllDigits(s) && n <= |s|
    ensures DecimalValue(s[..n]) * Pow10(|s| - n) <= DecimalValue(s) < (DecimalValue(s[..n]) + 1) * Pow10(|s| - n)
  {
    var head, tail := s[..n], s[n..];
    assert head + tail == s;
    assert AllDigits(tail);
    DecimalValueAppend(head, tail);
    DecimalValueBounds(tail);
    var x, p, r := DecimalValue(head), Pow10(|tail|), DecimalValue(tail);
    assert DecimalValue(s) == x * p + r;
    MulDistrib(x, 1, p);
    assert (x + 1) * p == x * p + p;
  }

  /**
   * With more than nineteen significant digits the significand holds exactly
   * nineteen digits, and it is the truncated value: mant * 10^exp is the
   * literal's value with the dropped digits set to zero.
   */
  lemma ManyDigitsTruncates(d: seq<u8>)
    requires ManyDigits(d)
    ensures MINIMAL_NINETEEN_DIGIT_INTEGER <= Mant(d) < 10 * MINIMAL_NINETEEN_DIGIT_INTEGER
    ensures var s := Digits(d);
            var dropped := |s| - TakeCount(s, 0);
            && Exp(d) == ExpNumber(d) - |Fraction(d)| + dropped
            && Mant(d) * Pow10(dropped) <= DecimalValue(s) < (Mant(d) + 1) * Pow10(dropped)
  {
    var s := Digits(d);
    PartsAreDigitRuns(d);
    ZerosSkippedCountsLeadingZeros(d);
    TakeCountNineteen(s);
    TruncatedValue(s, TakeCount(s, 0));
  }

  // ---------------------------------------------------------------------
  // The loops
  // ---------------------------------------------------------------------

  /**
   * One digit at a time from position k: i = i * 10 + digit, wrapping at 2^64.
   * `pre` holds the digits already folded into `i0`.
   */
  method ScanDigits(d: seq<u8>, k: nat, i0: u64, ghost pre: seq<u8>) returns (i: u64, p: nat)
    requires k <= |d| && i0 == DecimalValue(pre) % TWO64
    ensures p == k + DigitRun(d, k)
    ensures i == DecimalValue(pre + d[k..p]) % TWO64
  {
    i, p := i0, k;
    assert pre + d[k..p] == pre;
    while p < |d| && IsDigit(d[p])
      invariant k <= p <= |d| && DigitRun(d, k) == (p - k) + DigitRun(d, p)
      invariant i == DecimalValue(pre + d[k..p]) % TWO64
      decreases |d| - p
    {
      ScanStep(pre, d, k, p);
      i := (i * 10 + DigitValue(d[p])) % TWO64;
      p := p + 1;
    }
  }

  /** Eight digits at a time from position k while the SWAR test passes. */
  method ScanEightDigits(d: seq<u8>, k: nat, i0: u64, ghost pre: seq<u8>) returns (i: u64, p: nat)
    requires k <= |d| && i0 == DecimalValue(pre) % TWO64
    ensures k <= p <= |d| && DigitRun(d, k) == (p - k) + DigitRun(d, p)
    ensures i == DecimalValue(pre + d[k..p]) % TWO64
  {
    i, p := i0, k;
    assert pre + d[k..p] == pre;
    while p + 8 <= |d| && IsMadeOfEightDigitsFast(ReadWord(d[p..p + 8]))
      invariant k <= p <= |d| && DigitRun(d, k) == (p - k) + DigitRun(d, p)
      invariant i == DecimalValue(pre + d[k..p]) % TWO64
      decreases |d| - p
    {
      var b := d[p..p + 8];
      IsMadeOfEightDigitsFastIff(b);
      var w := ParseEightDigits(b);
      DigitRunSplit(d, p, p + 8);
      ScanEightStep(pre, d, k, p);
      i := (i * 100000000 + w) % TWO64;
      p := p + 8;
    }
  }

  /** The fraction digits: eight at a time while possible, then one at a time. */
  method ScanFraction(d: seq<u8>, k: nat, i0: u64, ghost pre: seq<u8>) returns (i: u64, p: nat)
    requires k <= |d| && i0 == DecimalValue(pre) % TWO64
    ensures p == k + DigitRun(d, k)
    ensures i == DecimalValue(pre + d[k..p]) % TWO64
  {
    i, p := ScanEightDigits(d, k, i0, pre);
    ghost var p0 := p;
    i, p := ScanDigits(d, p, i, pre + d[k..p]);
    SliceJoin(pre, d, k, p0, p);
  }

  /** Reading a slice in two pieces reads the whole slice. */
  lemma SliceJoin(pre: seq<u8>, d: seq<u8>, k: nat, mid: nat, p: nat)
    requires k <= mid <= p <= |d|
    ensures (pre + d[k..mid]) + d[mid..p] == pre + d[k..p]
  {
    assert d[k..p] == d[k..mid] + d[mid..p];
  }

  /** The exponent digits, accumulated while below the cap. */
  method ScanExponent(d: seq<u8>, k: nat) returns (e: int, p: nat)
    requires k <= |d|
    ensures p == k + DigitRun(d, k)
    ensures e == ExpAccum(d[k..p])
  {
    e, p := 0, k;
    assert d[k..p] == [];
    while p < |d| && IsDigit(d[p])
      invariant k <= p <= |d| && DigitRun(d, k) == (p - k) + DigitRun(d, p)
      invariant e == ExpAccum(d[k..p])
      decreases |d| - p
    {
      assert d[k..p + 1][..p - k] == d[k..p];
      if e < EXP_CAP {
        e := 10 * e + DigitValue(d[p]);
      }
      p := p + 1;
    }
  }

  /** The leading-zero strip: counts the `0` bytes in the run of `0` and `.` from position k. */
  method CountLeadingZeros(d: seq<u8>, k: nat) returns (zeros: nat)
    requires k <= |d|
    ensures zeros == ZerosSkipped(d, k)
  {
    var p := k;
    zeros := 0;
    while p < |d| && (d[p] == ZERO || d[p] == POINT)
      invariant k <= p <= |d| && zeros + ZerosSkipped(d, p) == ZerosSkipped(d, k)
      decreases |d| - p
    {
      if d[p] == ZERO {
        zeros := zeros + 1;
      }
      p := p + 1;
    }
  }

  /**
   * One digit at a time from `run`, the part s[lo..] of the digits s, until the
   * value reaches 10^18; q is the number of digits taken from `run`.
   */
  method TakeDigits(run: seq<u8>, i0: u64, ghost s: seq<u8>, ghost lo: nat) returns (i: u64, q: nat)
    requires lo + |run| <= |s| && run == s[lo..lo + |run|] && AllDigits(run)
    requires i0 == DecimalValue(s[..lo]) && (i0 < MINIMAL_NINETEEN_DIGIT_INTEGER || lo == 0)
    ensures q <= |run| && i == DecimalValue(s[..lo + q])
    ensures TakeCount(s, lo + q) == TakeCount(s, lo)
    ensures i < MINIMAL_NINETEEN_DIGIT_INTEGER ==> q == |run|
  {
    i, q := i0, 0;
    while i < MINIMAL_NINETEEN_DIGIT_INTEGER && q < |run|
      invariant q <= |run| && i == DecimalValue(s[..lo + q])
      invariant TakeCount(s, lo + q) == TakeCount(s, lo)
      decreases |run| - q
    {
      assert s[lo + q] == run[q] && IsDigit(run[q]);
      TakeOne(s, lo + q, i);
      i := i * 10 + DigitValue(run[q]);
      q := q + 1;
    }
  }

  /** Taking the digit at t below 10^18: the prefix value grows by that digit and the count is unchanged. */
  lemma TakeOne(s: seq<u8>, t: nat, i: int)
    requires t < |s| && IsDigit(s[t]) && i == DecimalValue(s[..t]) && i < MINIMAL_NINETEEN_DIGIT_INTEGER
    ensures i * 10 + DigitValue(s[t]) == DecimalValue(s[..t + 1]) < TWO64
    ensures TakeCount(s, t + 1) == TakeCount(s, t)
  {
    DecimalValueSnoc(s[..t], s[t]);
    assert s[..t + 1] == s[..t] + [s[t]];
  }

  /**
   * The many-digits significand: the integer digits, then the fraction digits,
   * one at a time until the value reaches 10^18.  `offset` is the number of
   * integer digits left over, negative when fraction digits were used.
   */
  method TakeNineteen(integer: seq<u8>, fraction: seq<u8>) returns (i: u64, offset: int)
    requires AllDigits(integer) && AllDigits(fraction)
    ensures var s := integer + fraction;
            var n := TakeCount(s, 0);
            i == DecimalValue(s[..n]) && offset == |integer| - n
  {
    ghost var s := integer + fraction;
    assert s[..0] == [] && integer == s[0..|integer|] && fraction == s[|integer|..|integer| + |fraction|];
    var p;
    i, p := TakeDigits(integer, 0, s, 0);
    if i >= MINIMAL_NINETEEN_DIGIT_INTEGER {
      offset := |integer| - p;
      TakeCountStops(s, p);
      return;
    }
    var q;
    i, q := TakeDigits(fraction, i, s, |integer|);
    TakeCountStops(s, |integer| + q);
    offset := -(q as int);
  }

  /** The count stops where the prefix value reaches 10^18 or at the end. */
  lemma TakeCountStops(s: seq<u8>, k: nat)
    requires k <= |s| && (k == |s| || DecimalValue(s[..k]) >= MINIMAL_NINETEEN_DIGIT_INTEGER)
    ensures TakeCount(s, k) == k
  {
  }

  // ---------------------------------------------------------------------
  // The lexer
  // ---------------------------------------------------------------------

  /**
   * The integer digits, then, after a point, the fraction digits, all folded
   * into one wrapping accumulator.
   */
  method ScanSignificand(d: seq<u8>, start: nat) returns (i: u64, p: nat, integer: seq<u8>, fraction: seq<u8>)
    requires start == Lex(d).signLen
    ensures p == Lex(d).fracEnd
    ensures integer == Integer(d) && fraction == Fraction(d)
    ensures i == DecimalValue(Digits(d)) % TWO64
  {
    ghost var q := Lex(d);
    i, p := ScanDigits(d, start, 0, []);
    integer := d[start..p];
    assert [] + integer == integer;
    fraction := [];
    if p < |d| && d[p] == POINT {
      p := p + 1;
      var before := p;
      i, p := ScanFraction(d, p, i, integer);
      fraction := d[before..p];
    } else {
      assert integer + fraction == integer;
    }
  }

  /**
   * The exponent part at position p0, the end of the significand: `bad` when
   * an exponent marker is not followed by digits, otherwise the signed
   * exponent (0 without a marker).
   */
  method ScanExponentPart(d: seq<u8>, p0: nat) returns (bad: bool, expNumber: int)
    requires p0 == Lex(d).fracEnd
    ensures bad <==> (Lex(d).hasExp && Lex(d).expEnd == Lex(d).expStart)
    ensures !bad ==> expNumber == ExpNumber(d) && -10 * EXP_CAP < expNumber < 10 * EXP_CAP
  {
    ghost var q := Lex(d);
    var p := p0;
    bad, expNumber := false, 0;
    if p < |d| && (d[p] == LOWER_E || d[p] == UPPER_E) {
      p := p + 1;
      var negExp := false;
      if p < |d| && d[p] == MINUS {
        negExp := true;
        p := p + 1;
      } else if p < |d| && d[p] == PLUS {
        p := p + 1;
      }
      assert p == q.expStart && negExp == q.expNeg;
      if p == |d| || !IsDigit(d[p]) {
        return true, 0;
      }
      var e;
      e, p := ScanExponent(d, p);
      DigitRunDigits(d, q.expStart);
      ExpAccumMeaning(ExpDigits(d));
      expNumber := if negExp then -e else e;
    }
  }

  /**
   * The many-digits step: with more than nineteen digits, discount the leading
   * zeros and, if still more than nineteen, take the first nineteen
   * significant digits.
   */
  method Truncate(d: seq<u8>, start: nat, integer: seq<u8>, fraction: seq<u8>, i0: u64, expNumber: int)
    returns (many: bool, i: u64, exponent: int)
    requires start == Lex(d).signLen && integer == Integer(d) && fraction == Fraction(d)
    requires i0 == DecimalValue(Digits(d)) % TWO64 && expNumber == ExpNumber(d)
    ensures many == ManyDigits(d) && i == Mant(d) && exponent == Exp(d)
  {
    var digitCount: int := |integer| + |fraction|;
    many, i, exponent := false, i0, expNumber - |fraction|;
    if digitCount > 19 {
      var zeros := CountLeadingZeros(d, start);
      digitCount := digitCount - zeros;
      if digitCount > 19 {
        many := true;
        DigitRunDigits(d, start);
        DigitRunDigits(d, Lex(d).fracStart);
        var offset;
        i, offset := TakeNineteen(integer, fraction);
        exponent := offset + expNumber;
      }
    }
  }

  /**
   * For inputs shorter than 2^28 bytes the explicit exponent stays below ten
   * times the cap, and nothing overflows while its digits denote less than
   * 0x70000000.
   */
  lemma ExpBounds(d: seq<u8>)
    requires |d| < 0x1000_0000
    ensures -10 * EXP_CAP < ExpNumber(d) < 10 * EXP_CAP
    ensures ExpAccum(ExpDigits(d)) < 0x7000_0000 ==> !ExpOverflows(d)
  {
    DigitRunDigits(d, Lex(d).expStart);
    ExpAccumMeaning(ExpDigits(d));
    var n, f := ExpNumber(d), |Fraction(d)|;
    assert f < 0x1000_0000;
    if ManyDigits(d) {
      var s := Digits(d);
      assert |s| <= |d|;
      assert Exp(d) == |Integer(d)| - TakeCount(s, 0) + n;
    }
  }

  /**
   * `parse_into_tokens`: None exactly on malformed input; otherwise the token
   * whose fields are the parts of the literal.  The exponent is the exact
   * one saturated to i32, which is the i32 value as written wherever the
   * source's arithmetic does not overflow.
   */
  method ParseIntoTokens(d: seq<u8>) returns (r: Option<Number>)
    requires |d| < 0x1000_0000
    ensures r.None? <==> Malformed(d)
    ensures r.Some? ==> && r.value.neg == (Lex(d).signLen == 1)
                        && r.value.integer == Integer(d)
                        && r.value.fraction == Fraction(d)
                        && r.value.manyDigits == ManyDigits(d)
                        && r.value.mant == Mant(d)
                        && r.value.exp == Saturate32(Exp(d))
    ensures r.Some? && !ExpOverflows(d) ==> r.value.exp == ExpAsWritten(d)
  {
    ghost var q := Lex(d);
    if |d| == 0 {
      return None;
    }
    var p := 0;
    var neg := false;
    if d[0] == MINUS {
      neg := true;
      p := 1;
      if |d| == 1 {
        return None;
      }
      if !IsDigit(d[1]) && d[1] != POINT {
        return None;
      }
    }
    var start := p;
    var i, integer, fraction;
    i, p, integer, fraction := ScanSignificand(d, start);
    if |integer| + |fraction| == 0 {
      return None;
    }
    var bad, expNumber := ScanExponentPart(d, p);
    if bad {
      return None;
    }
    var many, exponent;
    many, i, exponent := Truncate(d, start, integer, fraction, i, expNumber);
    if !ExpOverflows(d) {
      ExpAsWrittenAgrees(d);
    }
    r := Some(Number(Saturate32(exponent), i, neg, many, integer, fraction));
  }
}
