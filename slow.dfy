/**
 * The exact fallback `slow`: the digits of the token are read into a big
 * integer and compared with the value the moderate path proposed, either
 * by scaling the big integer up by the positive power of ten and reading
 * its top 64 bits (`PositiveDigitComp`), or by comparing it with the
 * halfway point above the proposal, both scaled to integers
 * (`NegativeDigitComp`).
 *
 * SMALL_INT_POW10 is taken to be the table of 10^i for i <= 19.
 */
module Slow {
  import opened Arith
  import opened Layout
  import opened Rounding
  import opened Scanner
  import opened Tokens
  import opened BigInt

  /** Eight `0` bytes read as a little-endian word. */
  const EIGHT_ZEROS: u64 := 0x3030303030303030

  /** The digits `parse_mantissa` gathers in one limb before adding them in: 19 for 64-bit limbs. */
  const STEP: nat := 19

  // ---------------------------------------------------- scientific_exponent

  /** Dividing by 10^k drops k decimal digits of a number with more than k. */
  lemma {:induction false} NumDigitsDivPow10(n: nat, k: nat)
    requires n >= Pow10(k)
    ensures Pow10(k) > 0 && NumDigits(n / Pow10(k)) + k == NumDigits(n)
  {
    PowPositive(10, k);
    if k > 0 {
      var p := Pow10(k - 1);
      assert Pow10(k) == 10 * p;
      PowPositive(10, k - 1);
      DivDivGeneral(n, 10, p);
      assert n / 10 >= p by {
        DivAddMultiple(p, n - 10 * p, 10);
        DivBounds(n - 10 * p, 10);
      }
      NumDigitsDivPow10(n / 10, k - 1);
      assert n >= 10 by {
        MulAtLeast(p, 10);
      }
    }
  }

  /** A number below 10^k has at most k decimal digits. */
  lemma {:induction false} NumDigitsBelow(n: nat, k: nat)
    requires k >= 1 && n < Pow10(k)
    ensures NumDigits(n) <= k
  {
    if n >= 10 {
      var p := Pow10(k - 1);
      assert Pow10(k) == p * 10;
      DivBelow(n, 10, p);
      NumDigitsBelow(n / 10, k - 1);
    }
  }

  /** A 64-bit number has at most twenty decimal digits. */
  lemma NumDigitsU64(n: u64)
    ensures NumDigits(n) <= 20
  {
    Pow10Table();
    assert Pow10(20) == 10 * Pow10(19);
    NumDigitsBelow(n, 20);
  }

  /**
   * `scientific_exponent`: the exponent of the leading digit of mant * 10^exp,
   * found by dropping four, then two, then one digit at a time.
   */
  method ScientificExponent(num: Number) returns (r: i32)
    requires num.exp + 19 < 0x8000_0000
    ensures r == num.exp + NumDigits(num.mant) - 1
  {
    NumDigitsU64(num.mant);
    Pow10Table();
    var mant: u64 := num.mant;
    var exp: int := num.exp;
    while mant >= 10000
      invariant exp + NumDigits(mant) == num.exp + NumDigits(num.mant)
    {
      NumDigitsDivPow10(mant, 4);
      mant := mant / 10000;
      exp := exp + 4;
    }
    while mant >= 100
      invariant exp + NumDigits(mant) == num.exp + NumDigits(num.mant)
    {
      NumDigitsDivPow10(mant, 2);
      mant := mant / 100;
      exp := exp + 2;
    }
    while mant >= 10
      invariant exp + NumDigits(mant) == num.exp + NumDigits(num.mant)
    {
      NumDigitsDivPow10(mant, 1);
      mant := mant / 10;
      exp := exp + 1;
    }
    r := exp;
  }

  // ------------------------------------------------- skip_zeros, is_truncated

  /** Whether some byte of a digit run is not `0`. */
  predicate HasNonzero(s: seq<u8>)
  {
    Tokens.LeadingZeros(s) < |s|
  }

  /** Eight bytes read as a little-endian word equal eight `0` bytes exactly when each is `0`. */
  lemma EightZeros(b: seq<u8>)
    requires |b| == 8
    ensures ReadU64(b) == EIGHT_ZEROS <==> forall j :: 0 <= j < 8 ==> b[j] == ZERO
  {
    var t6 := b[6] as int + 0x100 * b[7] as int;
    var t5 := b[5] as int + 0x100 * t6;
    var t4 := b[4] as int + 0x100 * t5;
    var t3 := b[3] as int + 0x100 * t4;
    var t2 := b[2] as int + 0x100 * t3;
    var t1 := b[1] as int + 0x100 * t2;
    assert ReadU64(b) == b[0] as int + 0x100 * t1;
    var z6 := 0x3030;
    var z5 := 0x30 + 0x100 * z6;
    var z4 := 0x30 + 0x100 * z5;
    var z3 := 0x30 + 0x100 * z4;
    var z2 := 0x30 + 0x100 * z3;
    var z1 := 0x30 + 0x100 * z2;
    assert EIGHT_ZEROS == 0x30 + 0x100 * z1;
    if ReadU64(b) == EIGHT_ZEROS {
      PeelByte(b[0], t1, 0x30, z1);
      PeelByte(b[1], t2, 0x30, z2);
      PeelByte(b[2], t3, 0x30, z3);
      PeelByte(b[3], t4, 0x30, z4);
      PeelByte(b[4], t5, 0x30, z5);
      PeelByte(b[5], t6, 0x30, z6);
      PeelByte(b[6], b[7], 0x30, 0x30);
    }
  }

  /** The low byte and the rest of a number written in base 256 are unique. */
  lemma PeelByte(c: int, t: int, c': int, t': int)
    requires 0 <= c < 0x100 && 0 <= c' < 0x100 && c + 0x100 * t == c' + 0x100 * t'
    ensures c == c' && t == t'
  {
  }

  /** A digit run has a nonzero digit exactly when one of its two parts has. */
  lemma HasNonzeroAppend(a: seq<u8>, b: seq<u8>)
    ensures HasNonzero(a + b) <==> HasNonzero(a) || HasNonzero(b)
  {
    LeadingZerosAppend(a, b);
  }

  /**
   * `skip_zeros`: drops the leading `0` bytes, a word of eight at a time
   * while the next eight bytes are all `0`, then one byte at a time.
   */
  method SkipZeros(d: seq<u8>) returns (r: seq<u8>)
    ensures r == d[Tokens.LeadingZeros(d)..]
  {
    r := d;
    ghost var k: nat := 0;
    while |r| >= 8
      invariant k <= |d| && r == d[k..]
      invariant forall j :: 0 <= j < k ==> d[j] == ZERO
    {
      EightZeros(r[..8]);
      if ReadU64(r[..8]) != EIGHT_ZEROS {
        break;
      }
      r := r[8..];
      k := k + 8;
    }
    while |r| >= 1
      invariant k <= |d| && r == d[k..]
      invariant forall j :: 0 <= j < k ==> d[j] == ZERO
    {
      if r[0] != ZERO {
        break;
      }
      r := r[1..];
      k := k + 1;
    }
    LeadingZerosUnique(d, k);
  }

  /**
   * `is_truncated`: whether some byte is not `0`, looking a word of eight
   * at a time while eight bytes remain, then one byte at a time.
   */
  method IsTruncated(d: seq<u8>) returns (r: bool)
    ensures r == HasNonzero(d)
  {
    var rest := d;
    ghost var k: nat := 0;
    while |rest| >= 8
      invariant k <= |d| && rest == d[k..]
      invariant forall j :: 0 <= j < k ==> d[j] == ZERO
    {
      EightZeros(rest[..8]);
      if ReadU64(rest[..8]) != EIGHT_ZEROS {
        var j :| 0 <= j < 8 && rest[j] != ZERO;
        assert d[k + j] != ZERO;
        return true;
      }
      rest := rest[8..];
      k := k + 8;
    }
    while |rest| >= 1
      invariant k <= |d| && rest == d[k..]
      invariant forall j :: 0 <= j < k ==> d[j] == ZERO
    {
      if rest[0] != ZERO {
        assert d[k] != ZERO;
        return true;
      }
      rest := rest[1..];
      k := k + 1;
    }
    LeadingZerosUnique(d, k);
    return false;
  }

  // ------------------------------------------------------------- add_native

  /**
   * `add_native`: big := big * power + value, by `mul_small` and then
   * `add_small`.  The source unwraps both; a result that does not fit in
   * the vector is reported as failure.
   */
  method AddNative(big: StackVec, power: u64, value: u64) returns (ok: bool)
    requires big.Valid()
    modifies big, big.data
    ensures big.Valid()
    ensures var total := Val(old(big.Contents())) * power + value;
            (ok <==> total < BPow(BIGINT_LIMBS)) && (ok ==> Val(big.Contents()) == total)
    ensures ok && power != 0 && IsNormalized(old(big.Contents())) ==> IsNormalized(big.Contents())
  {
    ok := SmallMul(big, power);
    if !ok {
      return;
    }
    ok := SmallAdd(big, value);
  }

  // ---------------------------------------------------------- parse_mantissa

  /**
   * The digits `parse_mantissa` reads: the integer digits without their
   * leading zeros followed by the fraction digits, or, when no integer digit
   * is significant, the fraction digits without their leading zeros.
   */
  function Significant(integer: seq<u8>, fraction: seq<u8>): seq<u8>
  {
    var i := integer[Tokens.LeadingZeros(integer)..];
    if |i| > 0 then i + fraction else fraction[Tokens.LeadingZeros(fraction)..]
  }

  /**
   * The significant digits are the integer and fraction digits together
   * without their leading zeros, and have the same value.
   */
  lemma SignificantStripsZeros(integer: seq<u8>, fraction: seq<u8>)
    ensures Significant(integer, fraction) == (integer + fraction)[Tokens.LeadingZeros(integer + fraction)..]
    ensures DecimalValue(Significant(integer, fraction)) == DecimalValue(integer + fraction)
  {
    var s := integer + fraction;
    assert Significant(integer, fraction) == s[Tokens.LeadingZeros(s)..] by {
      StripJoin(integer, fraction);
    }
    DecimalValueSkipZeros(s, Tokens.LeadingZeros(s));
  }

  /** Leading zeros of a + b: those of a, and those of b when a is all zeros. */
  lemma StripJoin(a: seq<u8>, b: seq<u8>)
    ensures var za := Tokens.LeadingZeros(a);
            (a + b)[Tokens.LeadingZeros(a + b)..] == if za < |a| then a[za..] + b else b[Tokens.LeadingZeros(b)..]
  {
    LeadingZerosAppend(a, b);
    var za := Tokens.LeadingZeros(a);
    if za < |a| {
      assert (a + b)[za..] == a[za..] + b;
    } else {
      assert (a + b)[|a| + Tokens.LeadingZeros(b)..] == b[Tokens.LeadingZeros(b)..];
    }
  }

  /**
   * The big integer and digit count `parse_mantissa` makes of the digits s:
   * all of them when there are at most `maxDigits`; otherwise the first
   * `maxDigits`, followed by a digit 1 when a nonzero digit was dropped.
   */
  function Capped(s: seq<u8>, maxDigits: nat): (int, nat)
  {
    if |s| <= maxDigits then (DecimalValue(s), |s|)
    else if HasNonzero(s[maxDigits..]) then (10 * DecimalValue(s[..maxDigits]) + 1, maxDigits + 1)
    else (DecimalValue(s[..maxDigits]), maxDigits)
  }

  /**
   * What the capped digits mean without a sticky digit: they are the value
   * of all the digits, scaled down by the dropped zeros.
   */
  lemma CappedExact(s: seq<u8>, maxDigits: nat, v: int, c: nat)
    requires AllDigits(s) && (v, c) == Capped(s, maxDigits) && c <= maxDigits
    ensures c <= |s| && 0 <= v < Pow10(c) && v * Pow10(|s| - c) == DecimalValue(s)
  {
    if |s| <= maxDigits {
      assert Pow10(0) == 1;
      DecimalValueBounds(s);
    } else {
      assert !HasNonzero(s[maxDigits..]) && v == DecimalValue(s[..maxDigits]) && c == maxDigits;
      CappedZeros(s, maxDigits);
    }
  }

  /**
   * What the capped digits mean with a sticky digit: the appended 1 puts
   * them strictly between the kept digits and the next value up, where the
   * value of all the digits lies too.
   */
  lemma CappedInexact(s: seq<u8>, maxDigits: nat, v: int, c: nat)
    requires AllDigits(s) && (v, c) == Capped(s, maxDigits) && c == maxDigits + 1
    ensures maxDigits < |s| && v % 10 == 1
    ensures (v / 10) * Pow10(|s| - maxDigits) < DecimalValue(s) < (v / 10 + 1) * Pow10(|s| - maxDigits)
  {
    var h := DecimalValue(s[..maxDigits]);
    assert HasNonzero(s[maxDigits..]) && v == 10 * h + 1;
    DivMod10(h);
    assert v / 10 == h;
    CappedSticky(s, maxDigits);
  }

  /** CappedMeaning when the dropped digits are all zero. */
  lemma CappedZeros(s: seq<u8>, maxDigits: nat)
    requires AllDigits(s) && maxDigits < |s| && !HasNonzero(s[maxDigits..])
    ensures Capped(s, maxDigits) == (DecimalValue(s[..maxDigits]), maxDigits)
    ensures 0 <= DecimalValue(s[..maxDigits]) < Pow10(maxDigits)
    ensures DecimalValue(s[..maxDigits]) * Pow10(|s| - maxDigits) == DecimalValue(s)
  {
    var head, tail := s[..maxDigits], s[maxDigits..];
    var h := DecimalValue(head);
    assert AllDigits(head) by {
      DigitsSlice(s, 0, maxDigits);
      assert head == s[0..maxDigits];
    }
    assert 0 <= h < Pow10(maxDigits) && h * Pow10(|s| - maxDigits) == DecimalValue(s) by {
      ZeroTail(head, tail);
      assert head + tail == s && |tail| == |s| - maxDigits && |head| == maxDigits;
    }
  }

  /** CappedMeaning when a nonzero digit is dropped: the value lies strictly inside the kept digits' range. */
  lemma CappedSticky(s: seq<u8>, maxDigits: nat)
    requires AllDigits(s) && maxDigits < |s| && HasNonzero(s[maxDigits..])
    ensures DecimalValue(s[..maxDigits]) * Pow10(|s| - maxDigits) < DecimalValue(s)
    ensures DecimalValue(s) < (DecimalValue(s[..maxDigits]) + 1) * Pow10(|s| - maxDigits)
  {
    var head, tail := s[..maxDigits], s[maxDigits..];
    var h, p, t := DecimalValue(head), Pow10(|tail|), DecimalValue(tail);
    assert p == Pow10(|s| - maxDigits);
    assert DecimalValue(s) == h * p + t by {
      assert s == head + tail;
      DecimalValueAppend(head, tail);
    }
    assert 0 < t < p by {
      DigitsSlice(s, maxDigits, |s|);
      TailPositive(tail);
    }
    StrictlyInside(h, p, t);
  }

  /** Dropped digits that are all zero only scale the kept ones. */
  lemma ZeroTail(head: seq<u8>, tail: seq<u8>)
    requires AllDigits(head) && !HasNonzero(tail)
    ensures 0 <= DecimalValue(head) < Pow10(|head|)
    ensures DecimalValue(head) * Pow10(|tail|) == DecimalValue(head + tail)
  {
    DecimalValueBounds(head);
    DecimalValueAppend(head, tail);
    DecimalValueSkipZeros(tail, Tokens.LeadingZeros(tail));
    assert tail[Tokens.LeadingZeros(tail)..] == [];
  }

  /** A run of digits with a nonzero digit has a positive value. */
  lemma TailPositive(tail: seq<u8>)
    requires AllDigits(tail) && HasNonzero(tail)
    ensures 0 < DecimalValue(tail) < Pow10(|tail|)
  {
    var z := Tokens.LeadingZeros(tail);
    DecimalValueSkipZeros(tail, z);
    DigitsSlice(tail, z, |tail|);
    LeadingDigitBound(tail[z..]);
    PowPositive(10, |tail[z..]| - 1);
    DecimalValueBounds(tail);
  }

  /** h * p + t lies strictly between h * p and (h + 1) * p when 0 < t < p. */
  lemma StrictlyInside(h: int, p: int, t: int)
    requires 0 < t < p
    ensures h * p < h * p + t < (h + 1) * p
  {
    MulDistrib(h, 1, p);
  }

  /** The last decimal digit of 10h + 1. */
  lemma DivMod10(h: int)
    ensures (10 * h + 1) % 10 == 1 && (10 * h + 1) / 10 == h
  {
  }

  /** Appending digits b to a prefix a whose value v0 * 10^n + a was gathered. */
  lemma AppendDigits(v0: int, n: nat, a: seq<u8>, b: seq<u8>, v: int)
    requires v == v0 * Pow10(n) + DecimalValue(a)
    ensures v * Pow10(|b|) + DecimalValue(b) == v0 * Pow10(n + |b|) + DecimalValue(a + b)
  {
    DecimalValueAppend(a, b);
    PowAdd(10, n, |b|);
    ShiftAdd(v0, Pow10(n), DecimalValue(a), Pow10(|b|), DecimalValue(b), v);
  }

  /** The arithmetic of AppendDigits. */
  lemma ShiftAdd(v0: int, p: int, a: int, q: int, b: int, v: int)
    requires v == v0 * p + a
    ensures v * q + b == v0 * (p * q) + (a * q + b)
  {
    MulDistrib(v0 * p, a, q);
    assert (v0 * p) * q == v0 * (p * q);
  }

  /** Gathering m more digits x below 10^m keeps the value below 10 to the digit count. */
  lemma GatheredBound(v: int, c: nat, m: nat, x: int)
    requires 0 <= v < Pow10(c) && 0 <= x < Pow10(m)
    ensures 0 <= v * Pow10(m) + x < Pow10(c + m)
  {
    PowAdd(10, c, m);
    MulMonotone(v + 1, Pow10(m), Pow10(c), Pow10(m));
    MulDistrib(v, 1, Pow10(m));
  }

  /**
   * What the inner loops keep: v is the value v0 gathered before position
   * p0 followed by the digits from p0 up to p, and has at most c digits.
   */
  predicate Gathered(d: seq<u8>, p0: nat, p: nat, v0: int, v: int, c: nat)
    requires p0 <= p <= |d|
  {
    v == v0 * Pow10(p - p0) + DecimalValue(d[p0..p]) && 0 <= v < Pow10(c)
  }

  /** One step of the inner loops: m more digits are gathered, and stay below 10^STEP. */
  lemma GatherStep(d: seq<u8>, p0: nat, p: nat, m: nat, v0: int, v: int, c: nat)
    requires p0 <= p && p + m <= |d| && AllDigits(d) && c + m <= STEP && Gathered(d, p0, p, v0, v, c)
    ensures Gathered(d, p0, p + m, v0, v * Pow10(m) + DecimalValue(d[p..p + m]), c + m)
    ensures v * Pow10(m) + DecimalValue(d[p..p + m]) < TWO64
  {
    var b := d[p..p + m];
    assert d[p0..p + m] == d[p0..p] + b;
    DigitsSlice(d, p, p + m);
    AppendDigits(v0, p - p0, d[p0..p], b, v);
    DecimalValueBounds(b);
    GatheredBound(v, c, m, DecimalValue(b));
    PowMonotone(10, c + m, STEP);
    Pow10Table();
  }

  /** A slice of a digit run is a digit run. */
  lemma DigitsSlice(d: seq<u8>, i: nat, j: nat)
    requires i <= j <= |d| && AllDigits(d)
    ensures AllDigits(d[i..j])
  {
    assert forall k :: 0 <= k < j - i ==> d[i..j][k] == d[i + k];
  }

  /**
   * The first inner loop of `parse_mantissa`: from position p0 of the run d,
   * eight digits at a time while eight remain and fit both in the step of
   * STEP digits and under the cap.
   */
  method GatherEight(d: seq<u8>, p0: nat, counter0: nat, value0: u64, count0: nat, maxDigits: nat)
    returns (p: nat, counter: nat, value: u64, count: nat)
    requires p0 <= |d| && AllDigits(d) && counter0 <= STEP && value0 < Pow10(counter0) && count0 <= maxDigits
    ensures p0 <= p <= |d|
    ensures counter == counter0 + (p - p0) <= STEP && count == count0 + (p - p0) <= maxDigits
    ensures Gathered(d, p0, p, value0, value, counter)
  {
    assert Pow10(8) == 100000000 by {
      Pow10Table();
    }
    p, counter, value, count := p0, counter0, value0, count0;
    assert d[p0..p0] == [];
    assert Pow10(0) == 1;
    while |d| - p >= 8 && STEP - counter >= 8 && maxDigits - count >= 8
      invariant p0 <= p <= |d|
      invariant counter == counter0 + (p - p0) <= STEP && count == count0 + (p - p0) <= maxDigits
      invariant Gathered(d, p0, p, value0, value, counter)
    {
      value := GatherEightStep(d, p0, p, value0, value, counter);
      p := p + 8;
      counter := counter + 8;
      count := count + 8;
    }
  }

  /** One pass of the first inner loop: the eight digits from p, parsed at once, appended to value. */
  method GatherEightStep(d: seq<u8>, p0: nat, p: nat, value0: int, value: int, counter: nat) returns (next: u64)
    requires p0 <= p && p + 8 <= |d| && AllDigits(d) && counter + 8 <= STEP && Gathered(d, p0, p, value0, value, counter)
    ensures Gathered(d, p0, p + 8, value0, next, counter + 8)
  {
    var eight := d[p..p + 8];
    assert AllDigits(eight) by {
      DigitsSlice(d, p, p + 8);
    }
    var digits := ParseEightDigits(eight);
    assert Pow10(8) == 100000000 by {
      Pow10Table();
    }
    GatherStep(d, p0, p, 8, value0, value, counter);
    next := value * 100000000 + digits;
  }

  /**
   * The second inner loop of `parse_mantissa`: one digit at a time while
   * digits remain, the step is not full and the cap not reached.
   */
  method GatherOne(d: seq<u8>, p0: nat, counter0: nat, value0: u64, count0: nat, maxDigits: nat)
    returns (p: nat, counter: nat, value: u64, count: nat)
    requires p0 <= |d| && AllDigits(d) && counter0 <= STEP && value0 < Pow10(counter0) && count0 <= maxDigits
    ensures p0 <= p <= |d|
    ensures counter == counter0 + (p - p0) <= STEP && count == count0 + (p - p0) <= maxDigits
    ensures Gathered(d, p0, p, value0, value, counter)
    ensures p == |d| || counter == STEP || count == maxDigits
  {
    assert Pow10(1) == 10;
    p, counter, value, count := p0, counter0, value0, count0;
    assert d[p0..p0] == [];
    assert Pow10(0) == 1;
    while |d| - p >= 1 && counter < STEP && count < maxDigits
      invariant p0 <= p <= |d|
      invariant counter == counter0 + (p - p0) <= STEP && count == count0 + (p - p0) <= maxDigits
      invariant Gathered(d, p0, p, value0, value, counter)
    {
      assert DecimalValue(d[p..p + 1]) == DigitValue(d[p]) by {
        assert d[p..p + 1][..0] == [];
      }
      ghost var next := value * Pow10(1) + DecimalValue(d[p..p + 1]);
      GatherStep(d, p0, p, 1, value0, value, counter);
      value := value * 10 + (d[p] - ZERO);
      assert value == next;
      p := p + 1;
      counter := counter + 1;
      count := count + 1;
    }
  }

  /** The value gathered so far, shifted by the digits of a chunk, gathers the chunk too. */
  lemma Regather(big: int, c: nat, v: int, taken: seq<u8>, chunk: seq<u8>, v': int)
    requires big * Pow10(c) + v == DecimalValue(taken)
    requires v' == v * Pow10(|chunk|) + DecimalValue(chunk)
    ensures big * Pow10(c + |chunk|) + v' == DecimalValue(taken + chunk)
  {
    DecimalValueAppend(taken, chunk);
    PowAdd(10, c, |chunk|);
    ShiftAdd(big, Pow10(c), v, Pow10(|chunk|), DecimalValue(chunk), DecimalValue(taken));
  }

  /** Up to 770 decimal digits fit in the vector: 10^770 < 2^3080 <= 2^(64 * BIGINT_LIMBS). */
  lemma Pow10Fits(n: nat)
    requires n <= 770
    ensures Pow10(n) < BPow(BIGINT_LIMBS)
  {
    PowBaseMonotone(10, 16, n);
    assert Pow(2, 4) == 16;
    PowOfPow(2, 4, n);
    PowStrictMonotone(2, 4 * n, 64 * BIGINT_LIMBS);
    BPowIsPow2(BIGINT_LIMBS);
  }

  /**
   * The outer loop of `parse_mantissa` over one digit run: gathers digits
   * with the two inner loops and adds them into the big integer with
   * `add_native(big, 10^counter, value)`; stops with `full` once the cap
   * `maxDigits` is reached, and otherwise starts a new step.  `p` is how far
   * the run was read.
   */
  method ParseRun(out: StackVec, run: seq<u8>, counter0: nat, value0: u64, count0: nat, maxDigits: nat, ghost pre: seq<u8>)
    returns (p: nat, counter: nat, value: u64, count: nat, full: bool)
    requires out.Valid() && IsNormalized(out.Contents())
    requires AllDigits(run) && AllDigits(pre) && count0 == |pre| <= maxDigits <= 769
    requires counter0 <= STEP && value0 < Pow10(counter0)
    requires Val(out.Contents()) * Pow10(counter0) + value0 == DecimalValue(pre)
    modifies out, out.data
    ensures out.Valid() && IsNormalized(out.Contents())
    ensures p <= |run| && count == |pre| + p <= maxDigits
    ensures full ==> count == maxDigits && Val(out.Contents()) == DecimalValue(pre + run[..p])
    ensures !full ==> p == |run| && (|run| > 0 ==> count < maxDigits)
    ensures !full ==> counter <= STEP && value < Pow10(counter)
                      && Val(out.Contents()) * Pow10(counter) + value == DecimalValue(pre + run)
  {
    p, counter, value, count, full := 0, counter0, value0, count0, false;
    ghost var taken := pre;
    assert run[..0] == [] && pre + [] == pre;
    while |run| - p >= 1
      invariant out.Valid() && IsNormalized(out.Contents())
      invariant p <= |run| && count == |pre| + p <= maxDigits && taken == pre + run[..p]
      invariant counter <= STEP && value < Pow10(counter)
      invariant Val(out.Contents()) * Pow10(counter) + value == DecimalValue(taken)
      invariant p > 0 ==> count < maxDigits
      decreases |run| - p, counter
    {
      ghost var big := Val(out.Contents());
      p, counter, value, count := GatherRun(run, p, counter, value, count, maxDigits, big, pre);
      taken := pre + run[..p];
      CountBound(taken, count);
      assert Pow10(counter) < TWO64 by {
        Pow10Table();
        PowMonotone(10, counter, STEP);
      }
      var ok := AddNative(out, Pow10(counter), value);
      if count == maxDigits {
        full := true;
        return;
      }
      counter := 0;
      value := 0;
    }
    assert run[..|run|] == run;
  }

  /**
   * The two inner loops of `parse_mantissa` in turn, from position p0 of
   * the run: the digits gathered extend what `big` and `value0` hold, and
   * they stop at the end of the run, a full step or the cap.
   */
  method GatherRun(run: seq<u8>, p0: nat, counter0: nat, value0: u64, count0: nat, maxDigits: nat, ghost big: int, ghost pre: seq<u8>)
    returns (p: nat, counter: nat, value: u64, count: nat)
    requires AllDigits(run) && p0 <= |run| && count0 == |pre| + p0 <= maxDigits
    requires counter0 <= STEP && value0 < Pow10(counter0)
    requires big * Pow10(counter0) + value0 == DecimalValue(pre + run[..p0])
    ensures p0 <= p <= |run| && count == |pre| + p <= maxDigits && counter == counter0 + (p - p0) <= STEP
    ensures value < Pow10(counter)
    ensures big * Pow10(counter) + value == DecimalValue(pre + run[..p])
    ensures p == |run| || counter == STEP || count == maxDigits
  {
    var p1, counter1, value1, count1 := GatherEight(run, p0, counter0, value0, count0, maxDigits);
    Regather(big, counter0, value0, pre + run[..p0], run[p0..p1], value1);
    assert pre + run[..p1] == (pre + run[..p0]) + run[p0..p1] by {
      SliceJoin(pre, run, 0, p0, p1);
      assert run[..p1] == run[0..p1] && run[..p0] == run[0..p0];
    }
    p, counter, value, count := GatherOne(run, p1, counter1, value1, count1, maxDigits);
    Regather(big, counter1, value1, pre + run[..p1], run[p1..p], value);
    assert pre + run[..p] == (pre + run[..p1]) + run[p1..p] by {
      SliceJoin(pre, run, 0, p1, p);
      assert run[..p1] == run[0..p1] && run[..p] == run[0..p];
    }
  }

  /** Digits gathered under the cap fit in the vector. */
  lemma CountBound(taken: seq<u8>, count: nat)
    requires AllDigits(taken) && |taken| == count <= 770
    ensures 0 <= DecimalValue(taken) < BPow(BIGINT_LIMBS)
  {
    DecimalValueBounds(taken);
    PowMonotone(10, count, 770);
    Pow10Fits(770);
  }

  /**
   * When the cap is reached the digits are the kept head and the dropped
   * tail, and the flag `is_truncated` raises is whether the tail has a
   * nonzero digit.
   */
  lemma CapReached(s: seq<u8>, maxDigits: nat, head: seq<u8>, tail: seq<u8>, truncated: bool)
    requires s == head + tail && |head| == maxDigits && truncated == HasNonzero(tail)
    ensures Capped(s, maxDigits) == if truncated then (10 * DecimalValue(head) + 1, maxDigits + 1)
                                    else (DecimalValue(head), maxDigits)
  {
    assert s[..maxDigits] == head && s[maxDigits..] == tail;
  }

  /** The sticky digit fits in the vector too. */
  lemma StickyFits(head: seq<u8>)
    requires AllDigits(head) && |head| <= 769
    ensures 0 <= 10 * DecimalValue(head) + 1 < BPow(BIGINT_LIMBS)
  {
    DecimalValueBounds(head);
    GatheredBound(DecimalValue(head), |head|, 1, 1);
    assert Pow10(1) == 10;
    PowMonotone(10, |head| + 1, 770);
    Pow10Fits(770);
  }

  /**
   * The end of `parse_mantissa` once the cap is reached: `head` has been
   * read into the vector, and a digit 1 is appended when `tail` or `more`
   * (the fraction digits, which are only looked at when there are some)
   * holds a nonzero digit.
   */
  method AppendSticky(out: StackVec, ghost head: seq<u8>, count0: nat, tail: seq<u8>, more: seq<u8>) returns (count: nat)
    requires out.Valid() && IsNormalized(out.Contents())
    requires AllDigits(head) && |head| == count0 <= 769 && Val(out.Contents()) == DecimalValue(head)
    modifies out, out.data
    ensures out.Valid() && IsNormalized(out.Contents())
    ensures (Val(out.Contents()), count) == Capped(head + (tail + more), |head|)
  {
    var truncated := IsTruncated(tail);
    if |more| >= 1 {
      var t := IsTruncated(more);
      truncated := truncated || t;
    }
    HasNonzeroAppend(tail, more);
    CapReached(head + (tail + more), |head|, head, tail + more, truncated);
    count := count0;
    if truncated {
      StickyFits(head);
      var ok := AddNative(out, 10, 1);
      count := count + 1;
    }
  }

  /** With a significant integer digit, the significant digits split at p of the integer digits. */
  lemma SignificantInteger(integer: seq<u8>, fraction: seq<u8>, d: seq<u8>, p: nat)
    requires d == integer[Tokens.LeadingZeros(integer)..] && 0 < p <= |d|
    ensures Significant(integer, fraction) == d[..p] + (d[p..] + fraction)
  {
    assert d == d[..p] + d[p..];
  }

  /** The significant digits are the integer digits and the fraction digits `parse_mantissa` reads. */
  lemma SignificantFraction(integer: seq<u8>, fraction: seq<u8>, d: seq<u8>)
    requires d == integer[Tokens.LeadingZeros(integer)..]
    ensures Significant(integer, fraction) ==
            d + if |d| == 0 then fraction[Tokens.LeadingZeros(fraction)..] else fraction
  {
  }

  /** The digits d + f split at p of f. */
  lemma SplitFraction(d: seq<u8>, f: seq<u8>, p: nat)
    requires p <= |f|
    ensures d + f == (d + f[..p]) + (f[p..] + [])
  {
    assert f == f[..p] + f[p..];
  }

  /**
   * The last step of `parse_mantissa` when the cap was not reached: the
   * digits still held in `value` are added to the vector.
   */
  method Flush(out: StackVec, counter: nat, value: u64, ghost sig: seq<u8>, count: nat, maxDigits: nat)
    requires out.Valid() && IsNormalized(out.Contents())
    requires AllDigits(sig) && |sig| == count <= maxDigits <= 769
    requires counter <= STEP && value < Pow10(counter)
    requires Val(out.Contents()) * Pow10(counter) + value == DecimalValue(sig)
    modifies out, out.data
    ensures out.Valid() && IsNormalized(out.Contents())
    ensures (Val(out.Contents()), count) == Capped(sig, maxDigits)
  {
    CountBound(sig, count);
    if counter != 0 {
      assert Pow10(counter) < TWO64 by {
        Pow10Table();
        PowMonotone(10, counter, STEP);
      }
      var ok := AddNative(out, Pow10(counter), value);
    } else {
      assert Pow10(0) == 1;
    }
  }

  /**
   * The fraction half of `parse_mantissa`: `d`, the significant integer
   * digits, has been read; the fraction digits follow, without their
   * leading zeros when no integer digit was significant.
   */
  method ParseFraction(out: StackVec, fraction: seq<u8>, ghost d: seq<u8>, counter0: nat, value0: u64, count0: nat, maxDigits: nat)
    returns (count: nat)
    requires out.Valid() && IsNormalized(out.Contents())
    requires AllDigits(d) && AllDigits(fraction) && count0 == |d| <= maxDigits <= 769
    requires counter0 <= STEP && value0 < Pow10(counter0)
    requires Val(out.Contents()) * Pow10(counter0) + value0 == DecimalValue(d)
    modifies out, out.data
    ensures out.Valid() && IsNormalized(out.Contents())
    ensures (Val(out.Contents()), count) ==
            Capped(d + if count0 == 0 then fraction[Tokens.LeadingZeros(fraction)..] else fraction, maxDigits)
  {
    var f := fraction;
    if |f| >= 1 {
      if count0 == 0 {
        f := SkipZeros(f);
      }
      DigitsSlice(fraction, Tokens.LeadingZeros(fraction), |fraction|);
      var p, counter, value, full;
      p, counter, value, count, full := ParseRun(out, f, counter0, value0, count0, maxDigits, d);
      if full {
        DigitsSlice(f, 0, p);
        count := AppendSticky(out, d + f[..p], count, f[p..], []);
        SplitFraction(d, f, p);
      } else {
        Flush(out, counter, value, d + f, count, maxDigits);
      }
    } else {
      assert fraction[Tokens.LeadingZeros(fraction)..] == [] && d + [] == d;
      Flush(out, counter0, value0, d, count0, maxDigits);
      count := count0;
    }
  }

  /**
   * `parse_mantissa`: reads the significant digits of the token into a big
   * integer, STEP digits per `add_native`, at most MAX_DIGITS of them, and
   * appends a digit 1 when a nonzero digit beyond the cap was dropped;
   * returns the big integer and its number of digits.
   */
  method ParseMantissa(tok: Number, fw: Width) returns (out: StackVec, count: nat)
    requires AllDigits(tok.integer) && AllDigits(tok.fraction)
    ensures fresh(out) && fresh(out.data) && out.Valid() && IsNormalized(out.Contents())
    ensures (Val(out.Contents()), count) == Capped(Significant(tok.integer, tok.fraction), MaxDigits(fw))
  {
    var maxDigits := MaxDigits(fw);
    out := new StackVec();
    assert out.Contents() == [] && Val([]) == 0 && Pow10(0) == 1;
    var d := SkipZeros(tok.integer);
    DigitsSlice(tok.integer, Tokens.LeadingZeros(tok.integer), |tok.integer|);
    var p, counter, value, full;
    p, counter, value, count, full := ParseRun(out, d, 0, 0, 0, maxDigits, []);
    assert [] + d[..p] == d[..p] && [] + d == d;
    if full {
      DigitsSlice(d, 0, p);
      count := AppendSticky(out, d[..p], count, d[p..], tok.fraction);
      SignificantInteger(tok.integer, tok.fraction, d, p);
    } else {
      count := ParseFraction(out, tok.fraction, d, counter, value, count, maxDigits);
      SignificantFraction(tok.integer, tok.fraction, d);
    }
  }

  // ------------------------------------------------------ positive_digit_comp

  /**
   * How far `hi64` shifts a value of bit length L to align its top bit with
   * bit 63: left by 64 - L when L <= 64, else right by L - 64.
   */
  function ScaleUp(v: nat): nat { if BitLen(v) <= 64 then 64 - BitLen(v) else 0 }

  function ScaleDown(v: nat): nat { if BitLen(v) > 64 then BitLen(v) - 64 else 0 }

  /** The value shifted left so that only a right shift remains. */
  function Scaled(v: nat): nat { v * Pow2(ScaleUp(v)) }

  /** The 64 top bits of v, left-aligned: what `hi64` returns as its word. */
  function TopWord(v: nat): (r: u64)
    ensures v > 0 ==> Pow2(63) <= r
  {
    TopWordBounds(v);
    Scaled(v) / Pow2(ScaleDown(v))
  }

  /** Whether a set bit of v falls below the 64 top bits: the flag `hi64` returns. */
  predicate Sticky(v: nat)
  {
    Scaled(v) % Pow2(ScaleDown(v)) != 0
  }

  lemma TopWordBounds(v: nat)
    ensures Scaled(v) / Pow2(ScaleDown(v)) < TWO64
    ensures v > 0 ==> Pow2(63) <= Scaled(v) / Pow2(ScaleDown(v))
  {
    var l := BitLen(v);
    BitLenBounds(v);
    var sd, sc := ScaleDown(v), Scaled(v);
    var p := Pow2(sd);
    if l <= 64 {
      assert sd == 0 && sc == v * Pow2(64 - l);
      assert p == 1;
      assert sc / p == sc;
      ShiftedUpBounds(v, l, 64 - l);
    } else {
      assert sd == l - 64 && sc == v;
      ShiftedDownBounds(v, l, l - 64);
    }
  }

  /** A value of bit length l <= 64 shifted left by 64 - l has its top bit at bit 63. */
  lemma ShiftedUpBounds(v: nat, l: nat, u: nat)
    requires v < Pow2(l) && (v > 0 ==> Pow2(l - 1) <= v) && l + u == 64
    ensures v * Pow2(u) < TWO64
    ensures v > 0 ==> Pow2(63) <= v * Pow2(u)
  {
    Pow2Of64();
    PowPositive(2, u);
    MulMonotone(v + 1, Pow2(u), Pow2(l), Pow2(u));
    MulDistrib(v, 1, Pow2(u));
    PowAdd(2, l, u);
    if v > 0 {
      MulMonotone(Pow2(l - 1), Pow2(u), v, Pow2(u));
      PowAdd(2, l - 1, u);
    }
  }

  /** A value of bit length l = 64 + d shifted right by d has its top bit at bit 63. */
  lemma ShiftedDownBounds(v: nat, l: nat, d: nat)
    requires l == 64 + d && v < Pow2(l) && Pow2(l - 1) <= v
    ensures v / Pow2(d) < TWO64
    ensures Pow2(63) <= v / Pow2(d)
  {
    Pow2Of64();
    PowPositive(2, d);
    PowAdd(2, 64, d);
    DivBelow(v, Pow2(d), TWO64);
    PowAdd(2, 63, d);
    DivAtLeast(v, Pow2(d), Pow2(63));
  }


  /** x / d is at least n when n * d <= x. */
  lemma DivAtLeast(x: nat, d: nat, n: nat)
    requires d > 0 && n * d <= x
    ensures n <= x / d
  {
    FloorBounds(x, d);
    if x / d < n {
      MulMonotone(x / d + 1, d, n, d);
    }
  }

  /** `hi64` of a normalized vector is the top word and sticky flag of its value. */
  lemma TopWordIsHi64(x: seq<u64>)
    requires IsNormalized(x)
    ensures Hi64(x) == (TopWord(Val(x)), Sticky(Val(x)))
  {
    var v := Val(x);
    if |x| == 0 {
      assert v == 0 && BitLen(0) == 0;
      assert Pow2(ScaleDown(v)) == 1;
    } else {
      Hi64Correct(x);
      var l := BitLen(v);
      if l <= 64 {
        assert Pow2(ScaleDown(v)) == 1;
      }
    }
  }

  /**
   * The tie rule `positive_digit_comp` hands to `round_nearest_tie_even`:
   * up when above halfway, and at halfway when bits were truncated by
   * `hi64` or the mantissa is odd.
   */
  function PositiveDecide(truncated: bool): (bool, bool, bool) -> bool
  {
    (isOdd: bool, isHalfway: bool, isAbove: bool) => isAbove || (isHalfway && truncated) || (isOdd && isHalfway)
  }

  /**
   * Round-to-nearest, ties-to-even (roundTiesToEven, section 4.3.1 of
   * IEEE 754-2019) of w / 2^s on the exact integer w.
   */
  function NearestEven(w: nat, s: nat): nat
    requires s >= 1
  {
    var q, t := w / Pow2(s), w % Pow2(s);
    q + if TieEven(q % 2 == 1, t == Pow2(s - 1), t > Pow2(s - 1)) then 1 else 0
  }

  /** NearestEven is within half a unit of w / 2^s, and an exact tie picks the even neighbour. */
  lemma NearestEvenRounds(w: nat, s: nat)
    requires s >= 1
    ensures var r := NearestEven(w, s);
            var d: int := r * Pow2(s) - w;
            2 * d <= Pow2(s) && 0 <= 2 * d + Pow2(s) &&
            ((2 * d == Pow2(s) || 2 * d + Pow2(s) == 0) ==> r % 2 == 0)
  {
    var p, h := Pow2(s), Pow2(s - 1);
    assert p == 2 * h && h >= 1 by {
      PowPositive(2, s - 1);
    }
    TieEvenStep(w, w / p, w % p, p, h, NearestEven(w, s));
  }

  /**
   * The bits below the kept ones, scaled: with t = r * K + lo and lo < K,
   * t compares with h * K as r does with h, the dropped lo deciding a tie.
   */
  lemma CompareScaled(r: nat, h: nat, lo: nat, k: nat)
    requires lo < k
    ensures r * k + lo > h * k <==> r > h || (r == h && lo > 0)
    ensures r * k + lo == h * k <==> r == h && lo == 0
  {
    if r > h {
      MulMonotone(h + 1, k, r, k);
      MulDistrib(h, 1, k);
    } else if r < h {
      MulMonotone(r + 1, k, h, k);
      MulDistrib(r, 1, k);
    }
  }

  /**
   * Rounding the 64 top bits of w with the truncation flag, as
   * `positive_digit_comp` does, is rounding w itself to nearest, ties to
   * even: the flag breaks exactly the ties that the dropped bits break.
   */
  lemma StickyRounding(w: nat, k: nat, s: nat, e: int)
    requires 1 <= s <= 64 && w / Pow2(k) < TWO64
    ensures Nearest(ExtendedFloat(w / Pow2(k), e), s, PositiveDecide(w % Pow2(k) != 0)).mant
            == NearestEven(w, s + k) % TWO64
  {
    var K, S, h := Pow2(k), Pow2(s), Pow2(s - 1);
    PowPositive(2, k);
    PowPositive(2, s - 1);
    var hi, lo := w / K, w % K;
    var q, r := hi / S, hi % S;
    assert Pow2(s + k) == S * K by {
      PowAdd(2, s, k);
    }
    assert Pow2(s + k - 1) == h * K by {
      PowAdd(2, s - 1, k);
    }
    assert w / (S * K) == q by {
      DivDivGeneral(w, K, S);
    }
    assert w % (S * K) == r * K + lo by {
      ModSplit(w, K, S);
    }
    CompareScaled(r, h, lo, K);
  }

  /**
   * The value `positive_digit_comp` produces for the big integer v: its 64
   * top bits under the biased exponent bit_length - 64 + EXP_BIAS, rounded
   * with the sticky tie rule.
   */
  function PositiveValue(fw: Width, v: nat): ExtendedFloat
  {
    RoundSpec(fw, ExtendedFloat(TopWord(v), BitLen(v) - 64 + ExpBias(fw)), NearestTieEven(PositiveDecide(Sticky(v))))
  }

  /**
   * The rounding step `round` performs for `positive_digit_comp`, at any
   * shift, is round-to-nearest-even of the exact value.
   */
  lemma PositiveRoundsExactly(fw: Width, v: nat, s: nat)
    requires 1 <= s <= 64
    ensures Apply(NearestTieEven(PositiveDecide(Sticky(v))), ExtendedFloat(TopWord(v), BitLen(v) - 64 + ExpBias(fw)), s).mant
            == NearestEven(Scaled(v), s + ScaleDown(v)) % TWO64
  {
    var w, k, e := Scaled(v), ScaleDown(v), BitLen(v) - 64 + ExpBias(fw);
    var fp := ExtendedFloat(TopWord(v), e);
    assert fp == ExtendedFloat(w / Pow2(k), e);
    var t := w % Pow2(k) != 0;
    assert Sticky(v) == t;
    assert Apply(NearestTieEven(PositiveDecide(t)), fp, s) == Nearest(fp, s, PositiveDecide(t));
    StickyRounding(w, k, s, e);
  }

  /**
   * The second half of `positive_digit_comp`: hi64 and bit_length of the
   * scaled digits, rounded with the sticky tie rule.
   */
  method RoundTop(fw: Width, x: seq<u64>) returns (rounded: ExtendedFloat)
    requires IsNormalized(x) && |x| <= BIGINT_LIMBS
    ensures rounded == PositiveValue(fw, Val(x))
  {
    ghost var v := Val(x);
    var (mant, isTruncated) := Hi64(x);
    var exp := BitLength(x) - 64 + ExpBias(fw);
    TopWordIsHi64(x);
    BitLengthCorrect(x);
    var fp := ExtendedFloat(mant, exp);
    assert fp == ExtendedFloat(TopWord(v), BitLen(v) - 64 + ExpBias(fw)) && isTruncated == Sticky(v);
    rounded := Round(fw, fp, NearestTieEven(PositiveDecide(isTruncated)));
  }

  /**
   * `positive_digit_comp`: multiplies the digits by 10^exponent, takes the
   * 64 top bits and the truncation flag, and rounds them to the format with
   * the sticky tie rule.  The `unwrap` of `pow` is the failure result.
   */
  method PositiveDigitComp(fw: Width, bigmant: StackVec, exponent: u32, largePow5: seq<u64>, largeStep: nat)
    returns (r: Option<ExtendedFloat>)
    requires bigmant.Valid() && IsNormalized(bigmant.Contents()) && LargePow5Table(largePow5, largeStep)
    modifies bigmant, bigmant.data
    ensures var v := Val(old(bigmant.Contents())) * Pow10(exponent);
            && (old(bigmant.length) > 0 ==> (r.None? <==> v >= BPow(BIGINT_LIMBS)))
            && (r.Some? && (old(bigmant.length) > 0 || exponent < largeStep) ==> r.value == PositiveValue(fw, v))
  {
    if bigmant.length > 0 {
      NormalizedPositive(bigmant.Contents());
    }
    var ok := BigintPow(bigmant, 10, exponent, largePow5, largeStep);
    PowFactorTen(exponent);
    if !ok {
      return None;
    }
    var rounded := RoundTop(fw, bigmant.Contents());
    return Some(rounded);
  }

  // ------------------------------------------------------------------ b, bh

  /** The float exponent stays in [DENORMAL_EXP, MAX_EXP] for every bit pattern. */
  lemma ExponentRange(w: Width, bits: u64)
    ensures DenormalExp(w) <= Exponent(w, bits) <= MaxExp(w)
  {
    DecomposeFields(w, bits);
    Pow2Table();
    var f := ExponentField(w, bits);
    assert f < Pow2(ExponentBits(w));
  }

  /** `b`: the float as its integer significand (hidden bit included) and binary exponent. */
  function BFloat(w: Width, bits: u64): (r: ExtendedFloat)
    ensures r.mant < 2 * Pow2(MantSize(w))
    ensures DenormalExp(w) <= r.exp <= MaxExp(w)
  {
    ExponentRange(w, bits);
    ExtendedFloat(Mantissa(w, bits), Exponent(w, bits))
  }

  /**
   * `bh`: the halfway point between the float and the next one up, as the
   * odd mantissa 2m + 1 one binary place lower.
   */
  function BH(w: Width, bits: u64): (r: ExtendedFloat)
    ensures r.mant % 2 == 1 && r.mant < 4 * Pow2(MantSize(w))
    ensures DenormalExp(w) - 1 <= r.exp <= MaxExp(w) - 1
  {
    var b := BFloat(w, bits);
    Pow2Table();
    ExtendedFloat(2 * b.mant + 1, b.exp - 1)
  }

  /**
   * With both sides scaled by 2^k to integers, twice the value of `bh` is
   * the float's value plus the value of its successor m + 1.
   */
  lemma BhMidpoint(w: Width, bits: u64, k: nat)
    requires BFloat(w, bits).exp - 1 + k >= 0
    ensures var b, h := BFloat(w, bits), BH(w, bits);
            2 * (h.mant * Pow2(h.exp + k)) == b.mant * Pow2(b.exp + k) + (b.mant + 1) * Pow2(b.exp + k)
  {
    var b, h := BFloat(w, bits), BH(w, bits);
    assert h.mant == 2 * b.mant + 1 && h.exp + 1 == b.exp;
    var p := Pow2(h.exp + k);
    assert Pow2(b.exp + k) == 2 * p by {
      PowAdd(2, 1, h.exp + k);
    }
    MidpointArith(b.mant, h.mant, p, Pow2(b.exp + k));
  }

  lemma MidpointArith(bm: int, hm: int, p: int, q: int)
    requires hm == 2 * bm + 1 && q == 2 * p
    ensures 2 * (hm * p) == bm * q + (bm + 1) * q
  {
  }

  /**
   * `b` of a packed rounding result gives back its fields: the mantissa with
   * the hidden bit restored and the unbiased exponent, or DENORMAL_EXP for
   * exponent field 0.
   */
  lemma BRecoversPacked(w: Width, x: ExtendedFloat)
    requires x.mant < Pow2(MantSize(w)) && 0 <= x.exp < InfinitePower(w)
    ensures BFloat(w, ExtendedToFloat(w, x)) ==
      if x.exp == 0 then ExtendedFloat(x.mant, DenormalExp(w))
      else ExtendedFloat(x.mant + Pow2(MantSize(w)), x.exp - ExpBias(w))
  {
    Pow2Table();
    ExtendedToFloatFields(w, x);
    DecomposeFields(w, ExtendedToFloat(w, x));
  }

  // ------------------------------------------------------ negative_digit_comp

  /** max(x, 0). */
  function PosPart(x: int): nat { if x > 0 then x else 0 }

  /**
   * The integers `negative_digit_comp` compares, for digits m with decimal
   * exponent re < 0 against the halfway mantissa h with binary exponent te:
   * m times 2^-(te - re) when that is positive, and h times 5^-re and
   * times 2^(te - re) when that is positive.
   */
  function RealSide(m: nat, re: int, te: int): nat
  {
    m * Pow2(PosPart(re - te))
  }

  function TheorSide(h: nat, re: int, te: int): nat
    requires re < 0
  {
    h * Pow5(-re) * Pow2(PosPart(te - re))
  }

  /** Multiplying both sides by the same positive factor keeps their order. */
  lemma CmpScale(x: nat, y: nat, p: nat)
    requires p > 0
    ensures Cmp(x * p, y * p) == Cmp(x, y)
  {
    if x < y {
      MulStrict(x, y, p);
    } else if y < x {
      MulStrict(y, x, p);
    }
  }

  /**
   * The comparison is that of the exact decimal m * 10^re with the halfway
   * point h * 2^te: both multiplied by 10^-re * 2^t, where t = max(0, -te)
   * makes them integers.
   */
  lemma NegativeOrderMeaning(m: nat, h: nat, re: int, te: int)
    requires re < 0
    ensures var t := PosPart(-te);
            Cmp(RealSide(m, re, te), TheorSide(h, re, te)) == Cmp(m * Pow2(t), h * Pow10(-re) * Pow2(te + t))
  {
    var n, t := -re, PosPart(-te);
    var y5 := h * Pow5(n);
    TenSplit(h, n, te + t);
    if te - re >= 0 {
      var be := te - re;
      assert RealSide(m, re, te) == m && TheorSide(h, re, te) == y5 * Pow2(be);
      assert n + (te + t) == be + t;
      OrderAbove(m, y5, be, t);
    } else {
      var k := re - te;
      assert RealSide(m, re, te) == m * Pow2(k) && TheorSide(h, re, te) == y5;
      assert t == k + n && n + (te + t) == n;
      OrderBelow(m, y5, k, n);
    }
  }

  /** 10^n = 5^n * 2^n, merged with a further power of two. */
  lemma TenSplit(h: nat, n: nat, e: nat)
    ensures h * Pow10(n) * Pow2(e) == h * Pow5(n) * Pow2(n + e)
  {
    PowMul(5, 2, n);
    PowAdd(2, n, e);
    MulShuffle(h, Pow5(n), Pow2(n), Pow2(e));
  }

  lemma OrderAbove(m: nat, y: nat, be: nat, t: nat)
    ensures Cmp(m, y * Pow2(be)) == Cmp(m * Pow2(t), y * Pow2(be + t))
  {
    var b, p := y * Pow2(be), Pow2(t);
    CmpScale(m, b, p);
    assert b * p == y * Pow2(be + t) by {
      PowAdd(2, be, t);
      MulAssoc(y, Pow2(be), p);
    }
  }

  lemma OrderBelow(m: nat, y: nat, k: nat, n: nat)
    ensures Cmp(m * Pow2(k), y) == Cmp(m * Pow2(k + n), y * Pow2(n))
  {
    var a, p := m * Pow2(k), Pow2(n);
    CmpScale(a, y, p);
    assert a * p == m * Pow2(k + n) by {
      PowAdd(2, k, n);
      MulAssoc(m, Pow2(k), p);
    }
  }

  /** The tie rule of `negative_digit_comp`: up when above, down when below, to even on equality. */
  function NegativeDecide(ord: Ordering): (bool, bool, bool) -> bool
  {
    (isOdd: bool, isHalfway: bool, isAbove: bool) =>
      match ord
      case Greater => true
      case Less => false
      case Equal => isOdd
  }

  /** The halfway point above fp rounded down to the format, packed and unpacked. */
  function HalfwayAbove(w: Width, fp: ExtendedFloat): ExtendedFloat
  {
    BH(w, ExtendedToFloat(w, RoundSpec(w, fp, Down)))
  }
  /**
   * What `negative_digit_comp` produces for digits m with decimal exponent
   * re < 0: fp rounded to nearest, with the comparison of the digits against
   * the halfway point deciding the direction and ties to even.
   */
  function NegativeValue(w: Width, m: nat, re: int, fp: ExtendedFloat): ExtendedFloat
    requires re < 0
  {
    var h := HalfwayAbove(w, fp);
    RoundSpec(w, fp, NearestTieEven(NegativeDecide(Cmp(RealSide(m, re, h.exp), TheorSide(h.mant, re, h.exp)))))
  }

  /** When one of the two scaled integers of `negative_digit_comp` does not fit in the limbs. */
  predicate NegativeOverflows(w: Width, m: nat, re: int, fp: ExtendedFloat)
    requires re < 0
  {
    var h := HalfwayAbove(w, fp);
    RealSide(m, re, h.exp) >= BPow(BIGINT_LIMBS) || TheorSide(h.mant, re, h.exp) >= BPow(BIGINT_LIMBS)
  }


  /** `pow(5, e)` multiplies by 5^e and `pow(2, e)` by 2^e. */
  lemma PowFactorPrimes(e: u32)
    ensures PowFactor(5, e) == Pow5(e) && PowFactor(2, e) == Pow2(e)
  {
  }

  /** A factor of at least one does not shrink a product. */
  lemma ScaleGrows(x: nat, p: nat)
    requires p >= 1
    ensures x <= x * p
  {
    MulMonotone(x, 1, x, p);
  }

  /** The two sides in terms of binary_exp = te - re. */
  lemma SidesAt(m: nat, h: nat, re: int, te: int, be: int)
    requires re < 0 && be == te - re
    ensures RealSide(m, re, te) == m * Pow2(PosPart(-be))
    ensures TheorSide(h, re, te) == h * Pow5(-re) * Pow2(PosPart(be))
  {
  }

  /**
   * The scaling of the halfway mantissa in `negative_digit_comp`: from_u64,
   * then pow(5, n) unless n is 0, then pow(2, be) when be is positive.  It
   * fails exactly when h * 5^n * 2^max(be, 0) does not fit.
   */
  method ScaleTheor(h: u64, n: u32, be: int, largePow5: seq<u64>, largeStep: nat) returns (t: StackVec, ok: bool)
    requires h > 0 && be < TWO32 && LargePow5Table(largePow5, largeStep)
    ensures fresh(t) && fresh(t.data) && t.Valid()
    ensures ok <==> h * Pow5(n) * Pow2(PosPart(be)) < BPow(BIGINT_LIMBS)
    ensures ok ==> IsNormalized(t.Contents()) && Val(t.Contents()) == h * Pow5(n) * Pow2(PosPart(be))
  {
    t := FromU64(h);
    ghost var y5 := h * Pow5(n);
    PowFactorPrimes(n);
    ScaleGrows(y5, Pow2(PosPart(be)));
    if n != 0 {
      ok := BigintPow(t, 5, n, largePow5, largeStep);
      if !ok {
        return;
      }
    } else {
      assert y5 == h;
      ValBound(t.Contents());
      BPowMonotone(t.length, BIGINT_LIMBS);
    }
    assert Val(t.Contents()) == y5 && IsNormalized(t.Contents());
    if be > 0 {
      PowFactorPrimes(be);
      ok := BigintPow(t, 2, be, largePow5, largeStep);
    } else {
      ok := true;
      ValBound(t.Contents());
      BPowMonotone(t.length, BIGINT_LIMBS);
    }
  }

  /**
   * The scaling of the digits in `negative_digit_comp`: pow(2, -be) when be
   * is negative, nothing otherwise.
   */
  method ScaleReal(x: StackVec, be: int, largePow5: seq<u64>, largeStep: nat) returns (ok: bool)
    requires x.Valid() && IsNormalized(x.Contents()) && LargePow5Table(largePow5, largeStep)
    requires -be < TWO32
    modifies x, x.data
    ensures x.Valid()
    ensures ok ==> IsNormalized(x.Contents()) && Val(x.Contents()) == Val(old(x.Contents())) * Pow2(PosPart(-be))
    ensures old(x.length) > 0 ==> (ok <==> Val(old(x.Contents())) * Pow2(PosPart(-be)) < BPow(BIGINT_LIMBS))
  {
    if be < 0 {
      PowFactorPrimes(-be);
      ok := BigintPow(x, 2, -be, largePow5, largeStep);
    } else {
      ok := true;
      ValBound(x.Contents());
      BPowMonotone(x.length, BIGINT_LIMBS);
    }
  }

  /**
   * `negative_digit_comp`: rounds fp down to the format to find the float b
   * below it, forms the halfway point bh above b, scales the digits and bh
   * to integers (the `pow` calls whose `unwrap` is the failure result),
   * compares them and rounds fp up, down or to even by the outcome.
   */
  method NegativeDigitComp(fw: Width, bigmant: StackVec, fp: ExtendedFloat, exponent: int, largePow5: seq<u64>, largeStep: nat)
    returns (r: Option<ExtendedFloat>)
    requires bigmant.Valid() && IsNormalized(bigmant.Contents()) && LargePow5Table(largePow5, largeStep)
    requires -0x10000 <= exponent < 0
    modifies bigmant, bigmant.data
    ensures old(bigmant.length) > 0 ==> (r.None? <==> NegativeOverflows(fw, Val(old(bigmant.Contents())), exponent, fp))
    ensures r.Some? ==> r.value == NegativeValue(fw, Val(old(bigmant.Contents())), exponent, fp)
  {
    var b := Round(fw, fp, Down);
    var bits := ExtendedToFloat(fw, b);
    var theor := BH(fw, bits);
    assert theor == HalfwayAbove(fw, fp);
    assert -0x1_0000 <= theor.exp - exponent <= 0x2_0000 by {
      Pow2Table();
    }
    var ord := CompareSides(bigmant, theor.mant, exponent, theor.exp, largePow5, largeStep);
    if ord.None? {
      return None;
    }
    var rounded := Round(fw, fp, NearestTieEven(NegativeDecide(ord.value)));
    return Some(rounded);
  }

  /**
   * The comparison in `negative_digit_comp`: the digits m scaled by
   * 2^-binary_exp and the halfway mantissa h scaled by 5^-exponent *
   * 2^binary_exp, where binary_exp = te - exponent; None when either does
   * not fit in the vector.
   */
  method CompareSides(bigmant: StackVec, h: u64, exponent: int, te: int, largePow5: seq<u64>, largeStep: nat)
    returns (r: Option<Ordering>)
    requires bigmant.Valid() && IsNormalized(bigmant.Contents()) && LargePow5Table(largePow5, largeStep)
    requires -0x10000 <= exponent < 0 && h > 0 && -0x1_0000 <= te - exponent <= 0x2_0000
    modifies bigmant, bigmant.data
    ensures var x, y := RealSide(Val(old(bigmant.Contents())), exponent, te), TheorSide(h, exponent, te);
            && (old(bigmant.length) > 0 ==> (r.None? <==> x >= BPow(BIGINT_LIMBS) || y >= BPow(BIGINT_LIMBS)))
            && (r.Some? ==> r.value == Cmp(x, y))
  {
    var halfradixExp: u32 := -exponent;
    ghost var m, len0 := Val(bigmant.Contents()), bigmant.length;
    var binaryExp := te - exponent;
    ghost var x, y := RealSide(m, exponent, te), TheorSide(h, exponent, te);
    SidesAt(m, h, exponent, te, binaryExp);
    var theorDigits, ok := ScaleTheor(h, halfradixExp, binaryExp, largePow5, largeStep);
    if !ok {
      assert y >= BPow(BIGINT_LIMBS);
      return None;
    }
    ok := ScaleReal(bigmant, binaryExp, largePow5, largeStep);
    if !ok {
      assert len0 > 0 ==> x >= BPow(BIGINT_LIMBS);
      return None;
    }
    assert Val(bigmant.Contents()) == x && Val(theorDigits.Contents()) == y && y < BPow(BIGINT_LIMBS);
    assert len0 > 0 ==> x < BPow(BIGINT_LIMBS);
    var ord := Compare(bigmant.Contents(), theorDigits.Contents());
    assert ord == Cmp(x, y);
    return Some(ord);
  }

  // --------------------------------------------------------------------- slow

  /** The capped digits are fewer than 10^count, and count is at most one past the cap. */
  lemma CappedBound(s: seq<u8>, maxDigits: nat, v: int, c: nat)
    requires AllDigits(s) && (v, c) == Capped(s, maxDigits)
    ensures 0 <= v < Pow10(c) && c <= maxDigits + 1
  {
    if c <= maxDigits {
      CappedExact(s, maxDigits, v, c);
    } else {
      var head := s[..maxDigits];
      assert v == 10 * DecimalValue(head) + 1 && c == maxDigits + 1;
      DigitsSlice(s, 0, maxDigits);
      DecimalValueBounds(head);
      assert Pow10(c) == 10 * Pow10(maxDigits);
    }
  }

  /** 10^k < 16^k = 2^(4k) fits in the 62 limbs of 64 bits while 4k < 3968. */
  lemma PowTenFits(k: nat)
    requires k < 992
    ensures Pow10(k) < BPow(BIGINT_LIMBS)
  {
    PowBaseMonotone(10, 16, k);
    assert Pow(2, 4) == 16;
    PowOfPow(2, 4, k);
    Pow2Of64();
    PowOfPow(2, 64, BIGINT_LIMBS);
    PowStrictMonotone(2, 4 * k, 64 * BIGINT_LIMBS);
  }

  /**
   * In the positive branch the scaled digits always fit: fewer than 10^count
   * digits times 10^exponent stay below 10^(count + exponent).
   */
  lemma PositiveFits(v: nat, c: nat, e: nat)
    requires v < Pow10(c) && c + e < 992
    ensures v * Pow10(e) < BPow(BIGINT_LIMBS)
  {
    PowPositive(10, e);
    MulStrict(v, Pow10(c), Pow10(e));
    PowAdd(10, c, e);
    PowTenFits(c + e);
  }

  /**
   * The big integer and the decimal exponent `slow` works with: the capped
   * significant digits, and sci_exp + 1 - count, that is the token's
   * exponent plus the number of digits of its significand minus the count.
   */
  function ScaledDigits(w: Width, num: Number): (nat, int)
    requires AllDigits(num.integer) && AllDigits(num.fraction)
  {
    var s := Significant(num.integer, num.fraction);
    var vc := Capped(s, MaxDigits(w));
    CappedBound(s, MaxDigits(w), vc.0, vc.1);
    (vc.0, num.exp + NumDigits(num.mant) - vc.1)
  }

  /** What `slow` produces: the positive or the negative comparison by the sign of the exponent. */
  function SlowValue(w: Width, num: Number, fp: ExtendedFloat): ExtendedFloat
    requires AllDigits(num.integer) && AllDigits(num.fraction)
  {
    var (v, e) := ScaledDigits(w, num);
    if e >= 0 then PositiveValue(w, v * Pow10(e)) else NegativeValue(w, v, e, fp)
  }

  /** When `slow` panics in an `unwrap`: only in the negative branch, on overflow. */
  predicate SlowOverflows(w: Width, num: Number, fp: ExtendedFloat)
    requires AllDigits(num.integer) && AllDigits(num.fraction)
  {
    var (v, e) := ScaledDigits(w, num);
    e < 0 && NegativeOverflows(w, v, e, fp)
  }

  /** A nonzero digit string keeps a nonzero capped value. */
  lemma CappedPositive(s: seq<u8>, maxDigits: nat, v: int, c: nat)
    requires AllDigits(s) && (v, c) == Capped(s, maxDigits) && DecimalValue(s) > 0
    ensures v > 0
  {
    if c <= maxDigits {
      CappedExact(s, maxDigits, v, c);
      NonzeroFactor(v, Pow10(|s| - c), DecimalValue(s));
    } else {
      CappedBound(s, maxDigits, v, c);
      assert v == 10 * DecimalValue(s[..maxDigits]) + 1;
    }
  }

  lemma NonzeroFactor(v: int, p: int, x: int)
    requires v >= 0 && v * p == x && x > 0
    ensures v > 0
  {
  }

  /**
   * `slow`: reads the significant digits into a big integer (at most
   * MAX_DIGITS of them and a sticky digit), and takes the positive branch
   * when the scientific exponent + 1 - digit count is not negative, the
   * negative branch otherwise.  The caller reaches this only through the
   * moderate path's error result, whose decimal exponent lies in
   * [SMALLEST_POWER_OF_FIVE, LARGEST_POWER_OF_FIVE].  For nonzero digits
   * it fails exactly when the negative branch overflows, and otherwise
   * yields SlowValue (zero digits meet `large_mul` as written).
   */
  method Slow(fw: Width, num: Number, fp: ExtendedFloat, largePow5: seq<u64>, largeStep: nat)
    returns (r: Option<ExtendedFloat>)
    requires AllDigits(num.integer) && AllDigits(num.fraction)
    requires -342 <= num.exp <= 308
    requires LargePow5Table(largePow5, largeStep)
    ensures DecimalValue(Significant(num.integer, num.fraction)) > 0 ==> (r.None? <==> SlowOverflows(fw, num, fp))
    ensures r.Some? && DecimalValue(Significant(num.integer, num.fraction)) > 0 ==> r.value == SlowValue(fw, num, fp)
  {
    var sciExp := ScientificExponent(num);
    var bigmant, digits := ParseMantissa(num, fw);
    ghost var sig := Significant(num.integer, num.fraction);
    ghost var v := Val(bigmant.Contents());
    CappedBound(sig, MaxDigits(fw), v, digits);
    if DecimalValue(sig) > 0 {
      CappedPositive(sig, MaxDigits(fw), v, digits);
    }
    NumDigitsU64(num.mant);
    var exponent := sciExp + 1 - digits;
    assert ScaledDigits(fw, num) == (v, exponent);
    if exponent >= 0 {
      if v > 0 {
        PositiveFits(v, digits, exponent);
        assert bigmant.Contents() != [];
      }
      r := PositiveDigitComp(fw, bigmant, exponent, largePow5, largeStep);
    } else {
      r := NegativeDigitComp(fw, bigmant, fp, exponent, largePow5, largeStep);
    }
  }
}
