/**
 * The fixed-capacity big integer of the exact (slow) parsing path: a
 * little-endian vector of 64-bit limbs stored inline in an array of
 * BIGINT_LIMBS slots with an explicit length, and the in-place arithmetic on
 * it (add and multiply by a limb, add and multiply by a limb sequence, shift
 * left, multiply by a power of five, top-64-bit extraction).
 *
 * Every operation that can outgrow the capacity reports it as `false` (or
 * `None`), as the Rust code does with `Option<()>`.  A limb slice `&[Limb]`
 * is a `seq<u64>`; the vector itself is the class `StackVec`.
 */
module BigInt {
  import opened Arith

  const LIMB_BITS: nat := 64
  const BIGINT_BITS: nat := 4000
  /** 4000 / 64 = 62 limbs. */
  const BIGINT_LIMBS: nat := BIGINT_BITS / LIMB_BITS

  // ------------------------------------------------------------ limb values

  /** B^n for the limb base B = 2^64. */
  function BPow(n: nat): (r: nat)
    ensures r >= 1
  {
    PowPositive(TWO64, n);
    Pow(TWO64, n)
  }

  /** The number a limb sequence denotes, least significant limb first. */
  function Val(s: seq<u64>): nat
  {
    if |s| == 0 then 0 else Val(s[..|s| - 1]) + s[|s| - 1] * BPow(|s| - 1)
  }

  /** No most-significant zero limb: the canonical form, with [] for zero. */
  predicate IsNormalized(s: seq<u64>)
  {
    |s| == 0 || s[|s| - 1] != 0
  }

  function Zeros(n: nat): (r: seq<u64>)
    ensures |r| == n && forall i :: 0 <= i < n ==> r[i] == 0
  {
    seq(n, _ => 0)
  }

  lemma BPowStep(n: nat)
    ensures BPow(n + 1) == BPow(n) * TWO64
  {
    PowAdd(TWO64, n, 1);
  }

  /** Appending a limb adds it at weight B^|s|. */
  lemma ValPush(s: seq<u64>, v: u64)
    ensures Val(s + [v]) == Val(s) + v * BPow(|s|)
  {
    assert (s + [v])[..|s|] == s;
  }

  /** n limbs denote a value below B^n. */
  lemma {:induction false} ValBound(s: seq<u64>)
    ensures Val(s) < BPow(|s|)
  {
    if |s| > 0 {
      var n := |s| - 1;
      ValBound(s[..n]);
      BPowStep(n);
      MulMonotone(s[n], BPow(n), TWO64 - 1, BPow(n));
      MulDistrib(TWO64, -1, BPow(n));
    }
  }

  /** A nonzero top limb puts the value at least at B^(|s| - 1). */
  lemma ValTopNonzero(s: seq<u64>)
    requires |s| > 0 && s[|s| - 1] != 0
    ensures BPow(|s| - 1) <= Val(s)
  {
    MulAtLeast(s[|s| - 1], BPow(|s| - 1));
  }

  /** The value of a concatenation: the second part sits above the first. */
  lemma {:induction false} ValAppend(s: seq<u64>, t: seq<u64>)
    ensures Val(s + t) == Val(s) + Val(t) * BPow(|s|)
  {
    if |t| > 0 {
      var n := |t| - 1;
      var t' := t[..n];
      var d := t[n];
      assert (s + t)[..|s + t| - 1] == s + t';
      assert Val(s + t) == Val(s + t') + d * BPow(|s| + n);
      assert Val(t) == Val(t') + d * BPow(n);
      ValAppend(s, t');
      assert BPow(|s| + n) == BPow(n) * BPow(|s|) by {
        PowAdd(TWO64, n, |s|);
      }
      PlaceArith(Val(s), Val(t'), d, BPow(|s|), BPow(n), BPow(|s| + n));
    } else {
      assert s + t == s;
    }
  }

  /** a + b*P + d*(Q*P) == a + (b + d*Q)*P, the step of ValAppend. */
  lemma PlaceArith(a: int, b: int, d: int, p: int, q: int, r: int)
    requires r == q * p
    ensures a + b * p + d * r == a + (b + d * q) * p
  {
    MulDistrib(b, d * q, p);
  }

  /** Splitting a sequence at k splits its value. */
  lemma ValSplit(s: seq<u64>, k: nat)
    requires k <= |s|
    ensures Val(s) == Val(s[..k]) + Val(s[k..]) * BPow(k)
  {
    assert s == s[..k] + s[k..];
    ValAppend(s[..k], s[k..]);
  }

  /** The value of a prefix grows by one limb at a time. */
  lemma ValPrefix(s: seq<u64>, i: nat)
    requires i < |s|
    ensures Val(s[..i + 1]) == Val(s[..i]) + s[i] * BPow(i)
  {
    assert s[..i + 1][..i] == s[..i];
  }

  /** All-zero limbs denote 0. */
  lemma {:induction false} ValZeros(n: nat)
    ensures Val(Zeros(n)) == 0
  {
    if n > 0 {
      assert Zeros(n)[..n - 1] == Zeros(n - 1);
      ValZeros(n - 1);
    }
  }

  /** A value is 0 exactly when every limb is 0. */
  lemma {:induction false} ValZeroIff(s: seq<u64>)
    ensures Val(s) == 0 <==> forall i :: 0 <= i < |s| ==> s[i] == 0
  {
    if |s| > 0 {
      var n := |s| - 1;
      ValZeroIff(s[..n]);
      if s[n] != 0 {
        MulAtLeast(s[n], BPow(n));
      }
      assert forall i :: 0 <= i < n ==> s[..n][i] == s[i];
    }
  }

  /** Replacing limb i by v changes the value by (v - s[i]) * B^i. */
  lemma ValUpdate(s: seq<u64>, i: nat, v: u64)
    requires i < |s|
    ensures Val(s[i := v]) + s[i] * BPow(i) == Val(s) + v * BPow(i)
  {
    var t := s[i := v];
    var lo, hi := s[..i], s[i + 1..];
    assert s == (lo + [s[i]]) + hi;
    assert t == (lo + [v]) + hi;
    ValAppend(lo + [s[i]], hi);
    ValAppend(lo + [v], hi);
    ValPush(lo, s[i]);
    ValPush(lo, v);
  }

  /** Trailing zero limbs do not change the value. */
  lemma ValTrailingZeros(s: seq<u64>, n: nat)
    ensures Val(s + Zeros(n)) == Val(s)
  {
    ValAppend(s, Zeros(n));
    ValZeros(n);
  }

  /** Leading zero limbs (a whole-limb shift) multiply by B^n. */
  lemma ValShiftLimbs(s: seq<u64>, n: nat)
    ensures Val(Zeros(n) + s) == Val(s) * BPow(n)
  {
    ValAppend(Zeros(n), s);
    ValZeros(n);
  }

  // ------------------------------------------------------------ StackVec

  /** A run of n copies of v (the slots `resize` fills). */
  function Fill(n: nat, v: u64): (r: seq<u64>)
    ensures |r| == n && forall i :: 0 <= i < n ==> r[i] == v
  {
    seq(n, _ => v)
  }

  /**
   * `StackVec`: BIGINT_LIMBS limbs stored inline, of which the first `length`
   * are in use.  Unused slots start out as 0 here (Rust leaves them
   * uninitialised and never reads them).
   */
  class StackVec {
    const data: array<u64>
    var length: nat

    predicate Valid()
      reads this
    {
      data.Length == BIGINT_LIMBS && length <= BIGINT_LIMBS
    }

    /** The limbs in use: what `Deref` exposes as a slice. */
    function Contents(): seq<u64>
      reads this, data
      requires Valid()
    {
      data[..length]
    }

    /** `StackVec::new`: an empty vector. */
    constructor ()
      ensures Valid() && Contents() == [] && fresh(data)
    {
      data := new u64[BIGINT_LIMBS](_ => 0);
      length := 0;
    }

    /** `try_push`: appends one limb, or reports that the vector is full and leaves it alone. */
    method TryPush(value: u64) returns (ok: bool)
      requires Valid()
      modifies this, data
      ensures Valid()
      ensures ok <==> old(length) < BIGINT_LIMBS
      ensures Contents() == if ok then old(Contents()) + [value] else old(Contents())
    {
      if length < BIGINT_LIMBS {
        data[length] := value;
        length := length + 1;
        ok := true;
      } else {
        ok := false;
      }
    }

    /** `try_extend`: appends a slice, or leaves the vector alone when it would not fit. */
    method TryExtend(slc: seq<u64>) returns (ok: bool)
      requires Valid()
      modifies this, data
      ensures Valid()
      ensures ok <==> old(length) + |slc| <= BIGINT_LIMBS
      ensures Contents() == if ok then old(Contents()) + slc else old(Contents())
    {
      if length + |slc| <= BIGINT_LIMBS {
        var index := length;
        var i := 0;
        while i < |slc|
          invariant 0 <= i <= |slc| && length == index
          invariant data[..index + i] == old(Contents()) + slc[..i]
        {
          data[index + i] := slc[i];
          i := i + 1;
        }
        length := index + |slc|;
        ok := true;
      } else {
        ok := false;
      }
    }

    /**
     * `try_resize`: truncates to `len` limbs or pads with copies of `value`;
     * fails, changing nothing, when `len` exceeds the capacity.
     */
    method TryResize(len: nat, value: u64) returns (ok: bool)
      requires Valid()
      modifies this, data
      ensures Valid()
      ensures ok <==> len <= BIGINT_LIMBS
      ensures !ok ==> Contents() == old(Contents())
      ensures ok ==> Contents() == if len > old(length) then old(Contents()) + Fill(len - old(length), value)
                                   else old(Contents())[..len]
    {
      if len > BIGINT_LIMBS {
        ok := false;
      } else {
        var oldLen := length;
        if len > oldLen {
          var count := len - oldLen;
          var index := 0;
          while index < count
            invariant 0 <= index <= count && length == oldLen
            invariant data[..oldLen + index] == old(Contents()) + Fill(index, value)
          {
            data[oldLen + index] := value;
            index := index + 1;
          }
        }
        length := len;
        ok := true;
      }
    }

    /** Assignment `*self = other` of a whole vector. */
    method CopyFrom(other: StackVec)
      requires Valid() && other.Valid() && other != this && other.data != data
      modifies this, data
      ensures Valid() && Contents() == old(other.Contents())
    {
      forall i | 0 <= i < BIGINT_LIMBS {
        data[i] := other.data[i];
      }
      length := other.length;
    }

    /**
     * `normalize`: drops most-significant zero limbs, keeping the value and
     * leaving the vector empty or with a nonzero top limb.
     */
    method Normalize()
      requires Valid()
      modifies this
      ensures Valid()
      ensures length <= old(length) && old(Contents()) == Contents() + Zeros(old(length) - length)
      ensures IsNormalized(Contents())
      ensures Val(Contents()) == Val(old(Contents()))
    {
      while length > 0
        invariant length <= old(length)
        invariant old(Contents()) == Contents() + Zeros(old(length) - length)
        decreases length
      {
        if data[length - 1] == 0 {
          length := length - 1;
        } else {
          break;
        }
      }
      ValTrailingZeros(Contents(), old(length) - length);
    }
  }

  // ------------------------------------------------------------ comparison

  /** With equal upper limbs, the first differing limb from the top decides. */
  lemma ValCompareAt(x: seq<u64>, y: seq<u64>, k: nat)
    requires |x| == |y| && k < |x| && x[k + 1..] == y[k + 1..] && x[k] < y[k]
    ensures Val(x) < Val(y)
  {
    var p := BPow(k);
    var top := Val(x[k + 1..]) * BPow(k + 1);
    assert Val(x) == Val(x[..k + 1]) + top by {
      ValSplit(x, k + 1);
    }
    assert Val(y) == Val(y[..k + 1]) + top by {
      ValSplit(y, k + 1);
    }
    assert Val(x[..k + 1]) < x[k] * p + p by {
      ValPrefix(x, k);
      ValBound(x[..k]);
    }
    assert y[k] * p <= Val(y[..k + 1]) by {
      ValPrefix(y, k);
    }
    assert x[k] * p + p <= y[k] * p by {
      MulDistrib(x[k], 1, p);
      MulMonotone(x[k] + 1, p, y[k], p);
    }
  }

  /**
   * `compare`: orders by length first and then limb by limb from the most
   * significant one, which for equal lengths is the numeric order, and for
   * normalized operands is the numeric order outright.
   */
  method Compare(x: seq<u64>, y: seq<u64>) returns (r: Ordering)
    ensures |x| != |y| ==> r == Cmp(|x|, |y|)
    ensures |x| == |y| ==> r == Cmp(Val(x), Val(y))
    ensures IsNormalized(x) && IsNormalized(y) ==> r == Cmp(Val(x), Val(y))
  {
    if |x| != |y| {
      if IsNormalized(x) && IsNormalized(y) {
        if |x| < |y| {
          NormalizedOrder(x, y);
        } else {
          NormalizedOrder(y, x);
        }
      }
      return Cmp(|x|, |y|);
    }
    var n := |x|;
    var i := 0;
    while i < n
      invariant 0 <= i <= n
      invariant x[n - i..] == y[n - i..]
    {
      var k := n - 1 - i;
      if x[k] != y[k] {
        assert x[k + 1..] == y[k + 1..];
        if x[k] < y[k] {
          ValCompareAt(x, y, k);
        } else {
          ValCompareAt(y, x, k);
        }
        return Cmp(x[k], y[k]);
      }
      assert x[k..] == [x[k]] + x[k + 1..];
      assert y[k..] == [y[k]] + y[k + 1..];
      i := i + 1;
    }
    assert x == x[0..] && y == y[0..];
    return Equal;
  }

  /** Normalized limb sequences of different lengths compare as their lengths. */
  lemma NormalizedOrder(x: seq<u64>, y: seq<u64>)
    requires IsNormalized(x) && IsNormalized(y) && |x| < |y|
    ensures Val(x) < Val(y)
  {
    ValBound(x);
    ValTopNonzero(y);
    PowMonotone(TWO64, |x|, |y| - 1);
  }

  // ------------------------------------------------------------ from_u64, hi64

  /** `from_u64`: the one-limb vector of x, normalized (empty for 0). */
  method FromU64(x: u64) returns (v: StackVec)
    ensures v.Valid() && fresh(v) && fresh(v.data)
    ensures Val(v.Contents()) == x && IsNormalized(v.Contents()) && v.length <= 1
  {
    v := new StackVec();
    var ok := v.TryPush(x);
    assert v.Contents() == [x];
    assert Val([x]) == x by {
      ValPush([], x);
      assert [] + [x] == [x];
    }
    v.Normalize();
  }

  /** Whether some limb is nonzero, scanning from the most significant one. */
  function AnyNonzero(s: seq<u64>): bool
  {
    |s| > 0 && (s[|s| - 1] != 0 || AnyNonzero(s[..|s| - 1]))
  }

  lemma {:induction false} AnyNonzeroIff(s: seq<u64>)
    ensures AnyNonzero(s) <==> Val(s) != 0
  {
    ValZeroIff(s);
    if |s| > 0 {
      var n := |s| - 1;
      AnyNonzeroIff(s[..n]);
      ValZeroIff(s[..n]);
      assert forall i :: 0 <= i < n ==> s[..n][i] == s[i];
    }
  }

  /** `nonzero`: whether any limb below the top `rindex` ones is nonzero. */
  function Nonzero(x: seq<u64>, rindex: nat): (r: bool)
    requires rindex <= |x|
    ensures r <==> Val(x[..|x| - rindex]) != 0
  {
    AnyNonzeroIff(x[..|x| - rindex]);
    AnyNonzero(x[..|x| - rindex])
  }

  /** B^k is 2^(64 k). */
  lemma BPowIsPow2(k: nat)
    ensures BPow(k) == Pow2(64 * k)
  {
    Pow2Of64();
    PowOfPow(2, 64, k);
  }

  /** `u64_to_hi64_1`: shifts the word left until its top bit is set; nothing is dropped. */
  function U64ToHi64One(r0: u64): (r: (u64, bool))
    ensures !r.1
    ensures r0 != 0 ==> Pow2(63) <= r.0 && r.0 == r0 * Pow2(LeadingZeros64(r0))
  {
    var ls := LeadingZeros64(r0);
    var hl := Pow2(ls);
    assert r0 != 0 ==> Pow2(63) <= r0 * hl < TWO64 by {
      if r0 != 0 {
        LeadingZerosNormalises(r0);
      }
    }
    Hi64OneFacts(r0, hl);
    (r0 * hl % TWO64, false)
  }

  lemma Hi64OneFacts(r0: nat, hl: nat)
    requires r0 != 0 ==> r0 * hl < TWO64
    ensures r0 * hl % TWO64 < TWO64
    ensures r0 != 0 ==> r0 * hl % TWO64 == r0 * hl
  {
    if r0 != 0 {
      SmallDiv(r0 * hl, TWO64);
    }
  }

  /**
   * `u64_to_hi64_2`: the top 64 bits of the 128-bit value r0:r1 (r0 the high
   * word) after shifting out r0's leading zeros, and whether any bit of r1
   * fell below them.
   */
  function U64ToHi64Two(r0: u64, r1: u64): (r: (u64, bool))
    requires r0 != 0
    ensures var rs := BitLen(r0);
            r.0 == (r0 * TWO64 + r1) / Pow2(rs) && (r.1 <==> r1 % Pow2(rs) != 0)
    ensures Pow2(63) <= r.0
  {
    var ls := LeadingZeros64(r0);
    var v := if ls == 0 then r0 else BitOr(Shl64(r0, ls), Shr(r1, 64 - ls));
    var nz := Shl64(r1, ls) != 0;
    Hi64TwoFacts(r0, r1, ls, v, nz);
    (v, nz)
  }

  lemma Hi64TwoFacts(r0: u64, r1: u64, ls: nat, v: int, nz: bool)
    requires r0 != 0 && ls == LeadingZeros64(r0)
    requires v == if ls == 0 then r0 else BitOr(Shl64(r0, ls), Shr(r1, 64 - ls))
    requires nz == (Shl64(r1, ls) != 0)
    ensures var rs := BitLen(r0);
            0 <= v < TWO64 && Pow2(63) <= v &&
            v == (r0 * TWO64 + r1) / Pow2(rs) && (nz <==> r1 % Pow2(rs) != 0)
  {
    var rs := 64 - ls;
    assert rs == BitLen(r0);
    var hl, hr := Pow2(ls), Pow2(rs);
    assert hl * hr == TWO64 by {
      PowAdd(2, ls, rs);
      Pow2Of64();
    }
    assert Pow2(63) <= r0 * hl by {
      LeadingZerosNormalises(r0);
    }
    assert r0 < hr by {
      BitLenBounds(r0);
    }
    var q := Shr(r1, rs);
    assert v == r0 * hl + q by {
      Hi64TwoWord(r0, r1, ls, hl, hr);
    }
    assert q < hl by {
      DivBelow(r1, hr, hl);
    }
    Hi64TwoArith(r0, r1, hl, hr, q, v);
    ShiftedOut(r1, hl, hr);
  }

  /** The or in `u64_to_hi64_2` joins two disjoint bit ranges, so it adds. */
  lemma Hi64TwoWord(r0: u64, r1: u64, ls: nat, hl: nat, hr: nat)
    requires ls <= 64 && hl == Pow2(ls) && hr == Pow2(64 - ls) && hl * hr == TWO64 && r0 < hr
    ensures (if ls == 0 then r0 else BitOr(Shl64(r0, ls), Shr(r1, 64 - ls))) == r0 * hl + Shr(r1, 64 - ls)
  {
    var q := Shr(r1, 64 - ls);
    if ls > 0 {
      assert q < hl by {
        DivBelow(r1, hr, hl);
      }
      CombinedBelow(r0, 0, hl, hr);
      WordJoin(r0, q, ls, hl);
    } else {
      assert hr == TWO64 by {
        Pow2Of64();
      }
      SmallDiv(r1, TWO64);
    }
  }

  /** The word `u64_to_hi64_2` builds is the 128-bit value shifted right by rs. */
  lemma Hi64TwoArith(r0: nat, r1: nat, hl: nat, hr: nat, q: nat, v: int)
    requires hl * hr == TWO64 && hl > 0 && hr > 0 && r0 < hr
    requires q == r1 / hr && q < hl && v == r0 * hl + q
    ensures v < TWO64 && v == (r0 * TWO64 + r1) / hr
  {
    CombinedBelow(r0, q, hl, hr);
    ShiftJoin(r0, r1, hl, hr);
  }

  /** (r0:r1) >> rs == (r0 << ls) + (r1 >> rs) when ls + rs == 64. */
  lemma ShiftJoin(r0: nat, r1: nat, hl: nat, hr: nat)
    requires hl * hr == TWO64 && hr > 0
    ensures (r0 * TWO64 + r1) / hr == r0 * hl + r1 / hr
  {
    assert r0 * TWO64 == (r0 * hl) * hr;
    DivAddMultiple(r0 * hl, r1, hr);
  }

  /** r1 << ls loses a set bit modulo 2^64 exactly when r1's low rs bits are not all zero. */
  lemma ShiftedOut(r1: nat, hl: nat, hr: nat)
    requires hl * hr == TWO64 && hl > 0 && hr > 0
    ensures r1 * hl % TWO64 != 0 <==> r1 % hr != 0
  {
    var q, t := r1 / hr, r1 % hr;
    ShiftedOutBits(r1, q, t, hl, hr);
  }

  /** (r0 << ls) | q is r0 * 2^ls + q when r0 << ls does not overflow and q < 2^ls. */
  lemma WordJoin(r0: nat, q: nat, ls: nat, hl: nat)
    requires hl == Pow2(ls) && q < hl && r0 * hl < TWO64
    ensures BitOr(Shl64(r0, ls), q) == r0 * hl + q
  {
    assert Shl64(r0, ls) == r0 * hl by {
      SmallDiv(r0 * hl, TWO64);
    }
    BitOrDisjoint(q, r0, ls);
    OrCommutes(q, r0 * hl);
  }

  /** With r0 < hr and q < hl, the word r0 * hl + q fits in hl * hr. */
  lemma CombinedBelow(r0: nat, q: nat, hl: nat, hr: nat)
    requires r0 < hr && q < hl
    ensures r0 * hl + q < hl * hr
  {
    MulMonotone(r0, hl, hr - 1, hl);
    MulDistrib(hr - 1, 1, hl);
  }

  /** The bits r1 << ls keeps modulo 2^64 are t << ls, for r1 = q * 2^rs + t. */
  lemma ShiftedOutBits(r1: nat, q: nat, t: nat, hl: nat, hr: nat)
    requires hl * hr == TWO64 && hr > 0 && hl > 0 && r1 == q * hr + t && t < hr
    ensures r1 * hl % TWO64 != 0 <==> t != 0
  {
    assert r1 * hl == q * TWO64 + t * hl by {
      MulDistrib(q * hr, t, hl);
      MulSwap(q, hr, hl);
    }
    assert t * hl < TWO64 by {
      MulStrict(t, hr, hl);
    }
    DivAddMultiple(q, t * hl, TWO64);
    SmallDiv(t * hl, TWO64);
    if t != 0 {
      MulAtLeast(t, hl);
    }
  }

  /**
   * `hi64`: the 64 most significant bits of a normalized value, left-aligned,
   * and whether any less significant bit is set.  Only the top two limbs feed
   * the word; `nonzero` looks at the rest.
   */
  function Hi64(x: seq<u64>): (r: (u64, bool))
    requires IsNormalized(x)
  {
    var n := |x|;
    if n == 0 then (0, false)
    else if n == 1 then U64ToHi64One(x[0])
    else if n == 2 then U64ToHi64Two(x[1], x[0])
    else
      var (v, nz) := U64ToHi64Two(x[n - 1], x[n - 2]);
      (v, nz || Nonzero(x, 2))
  }

  /** Placing w above m low bits r adds m to its bit length. */
  lemma BitLenShift(w: nat, r: nat, m: nat, v: nat)
    requires w > 0 && r < Pow2(m) && v == w * Pow2(m) + r
    ensures BitLen(v) == BitLen(w) + m
  {
    var l := BitLen(w);
    var p := Pow2(m);
    BitLenBounds(w);
    assert Pow2(l - 1 + m) <= v by {
      PowAdd(2, l - 1, m);
      MulMonotone(Pow2(l - 1), p, w, p);
    }
    assert v < Pow2(l + m) by {
      PowAdd(2, l, m);
      MulMonotone(w + 1, p, Pow2(l), p);
      MulDistrib(w, 1, p);
    }
    BitLenUnique(v, l + m);
  }

  /**
   * The arithmetic of `hi64` above two limbs: the value is W * P + R with W
   * the top two limbs and R < P the rest; shifting W right by Q's bits is
   * shifting the whole value right by P * Q's, and the bits lost are those of
   * W below Q together with all of R.
   */
  lemma Hi64Split(v: nat, w: nat, r: nat, p: nat, q: nat)
    requires p > 0 && q > 0 && v == w * p + r && r < p
    ensures v / (p * q) == w / q
    ensures v % (p * q) != 0 <==> w % q != 0 || r != 0
  {
    assert v / p == w && v % p == r by {
      DivAddMultiple(w, r, p);
      SmallDiv(r, p);
    }
    DivDivGeneral(v, p, q);
    ModSplit(v, p, q);
    if w % q != 0 {
      MulAtLeast(w % q, p);
    }
  }

  /** The value of two limbs, low first. */
  lemma ValTwo(lo: u64, hi: u64)
    ensures Val([lo, hi]) == hi * TWO64 + lo
  {
    ValPush([], lo);
    assert [] + [lo] == [lo];
    ValPush([lo], hi);
    assert [lo] + [hi] == [lo, hi];
    assert BPow(0) == 1;
    BPowStep(0);
  }

  /**
   * `hi64` is correct: with L the bit length of the value, the word is the
   * value shifted so that its top bit is bit 63, and the flag says whether
   * the shift to the right, if any, dropped a set bit.
   */
  lemma Hi64Correct(x: seq<u64>)
    requires IsNormalized(x) && |x| > 0
    ensures var v := Val(x); var l := BitLen(v); var r := Hi64(x);
            Pow2(63) <= r.0 &&
            (l <= 64 ==> r.0 == v * Pow2(64 - l) && !r.1) &&
            (l > 64 ==> r.0 == v / Pow2(l - 64) && (r.1 <==> v % Pow2(l - 64) != 0))
  {
    if |x| == 1 {
      assert x[..0] == [];
      assert Val(x) == x[0];
      BitLenAtMost64(x[0]);
    } else {
      Hi64CorrectWide(x);
    }
  }

  lemma Hi64CorrectWide(x: seq<u64>)
    requires IsNormalized(x) && |x| >= 2
    ensures var v := Val(x); var l := BitLen(v); var r := Hi64(x);
            l > 64 && r.0 == v / Pow2(l - 64) && (r.1 <==> v % Pow2(l - 64) != 0)
  {
    var n := |x|;
    var k := n - 2;
    var r0, r1 := x[n - 1], x[n - 2];
    var rest := Val(x[..k]);
    WideSplit(x);
    var h := U64ToHi64Two(r0, r1);
    assert Hi64(x) == (h.0, h.1 || rest != 0) by {
      if n == 2 {
        assert x[..k] == [];
      }
    }
    Hi64WideArith(r0, r1, rest, k, r0 * TWO64 + r1, Val(x), h.0, h.1);
  }

  /**
   * A value of two or more limbs is its top two limbs, shifted up by the
   * 64 k bits of the k limbs below them, plus those limbs.
   */
  lemma WideSplit(x: seq<u64>)
    requires |x| >= 2
    ensures var n := |x|; var k := n - 2;
            Val(x) == (x[n - 1] * TWO64 + x[n - 2]) * Pow2(64 * k) + Val(x[..k]) &&
            Val(x[..k]) < Pow2(64 * k)
  {
    var n := |x|;
    var k := n - 2;
    var r0, r1 := x[n - 1], x[n - 2];
    assert Val(x) == (r0 * TWO64 + r1) * BPow(k) + Val(x[..k]) by {
      ValSplit(x, k);
      assert x[k..] == [r1, r0];
      ValTwo(r1, r0);
    }
    assert Val(x[..k]) < BPow(k) by {
      ValBound(x[..k]);
    }
    BPowIsPow2(k);
  }

  /**
   * The arithmetic of `hi64` above two limbs: for v = (r0:r1) << 64 k plus
   * rest below 2^(64 k), the word `u64_to_hi64_2` makes of the top two limbs
   * is v shifted right by its bit length less 64, and the bits shifted out
   * are those r1 loses together with rest.
   */
  lemma Hi64WideArith(r0: nat, r1: nat, rest: nat, k: nat, w: nat, v: nat, h0: nat, h1: bool)
    requires 0 < r0 < TWO64 && r1 < TWO64 && rest < Pow2(64 * k)
    requires w == r0 * TWO64 + r1 && v == w * Pow2(64 * k) + rest
    requires h0 == w / Pow2(BitLen(r0))
    requires h1 <==> r1 % Pow2(BitLen(r0)) != 0
    ensures var l := BitLen(v);
            l > 64 && h0 == v / Pow2(l - 64) && (h1 || rest != 0 <==> v % Pow2(l - 64) != 0)
  {
    WideShift(r0, r1, rest, k, w, v);
    var p, q, pq := Pow2(64 * k), Pow2(BitLen(r0)), Pow2(BitLen(v) - 64);
    assert pq == p * q;
    Hi64Split(v, w, rest, p, q);
    assert w % q == r1 % q by {
      BitLenAtMost64(r0);
      LowWordMod(r0, r1, BitLen(r0));
    }
  }

  /** The shift `hi64` applies to a value of two or more limbs. */
  lemma WideShift(r0: nat, r1: nat, rest: nat, k: nat, w: nat, v: nat)
    requires 0 < r0 < TWO64 && r1 < TWO64 && rest < Pow2(64 * k)
    requires w == r0 * TWO64 + r1 && v == w * Pow2(64 * k) + rest
    ensures BitLen(v) > 64
    ensures Pow2(BitLen(v) - 64) == Pow2(64 * k) * Pow2(BitLen(r0))
  {
    WideBitLen(r0, r1, rest, 64 * k, w, v);
    assert BitLen(v) - 64 == 64 * k + BitLen(r0);
    PowAdd(2, 64 * k, BitLen(r0));
  }

  /** The bit length of (r0:r1) << m plus something below 2^m. */
  lemma WideBitLen(r0: nat, r1: nat, rest: nat, m: nat, w: nat, v: nat)
    requires r0 > 0 && r1 < TWO64 && rest < Pow2(m)
    requires w == r0 * TWO64 + r1 && v == w * Pow2(m) + rest
    ensures BitLen(r0) >= 1
    ensures BitLen(v) == BitLen(r0) + 64 + m
  {
    assert BitLen(w) == BitLen(r0) + 64 by {
      Pow2Of64();
      BitLenShift(r0, r1, 64, w);
    }
    BitLenShift(w, rest, m, v);
  }

  /** Below 2^b with b <= 64, the high word of r0:r1 does not matter. */
  lemma LowWordMod(r0: nat, r1: nat, b: nat)
    requires b <= 64
    ensures (r0 * TWO64 + r1) % Pow2(b) == r1 % Pow2(b)
  {
    var q, hl := Pow2(b), Pow2(64 - b);
    assert q * hl == TWO64 by {
      PowAdd(2, b, 64 - b);
      Pow2Of64();
    }
    assert r0 * TWO64 == (r0 * hl) * q;
    DivAddMultiple(r0 * hl, r1, q);
  }

  // ------------------------------------------------------------ scalar and small arithmetic

  /** `scalar_add`: u64::overflowing_add, the wrapped sum and whether it wrapped. */
  function ScalarAdd(x: u64, y: u64): (r: (u64, bool))
    ensures r.0 + (if r.1 then TWO64 else 0) == x + y
  {
    ((x + y) % TWO64, x + y >= TWO64)
  }

  /** `scalar_mul`: the low and high limbs of the 128-bit x * y + carry. */
  function ScalarMul(x: u64, y: u64, carry: u64): (r: (u64, u64))
    ensures r.0 + r.1 * TWO64 == x * y + carry
  {
    var z := x * y + carry;
    assert z / TWO64 < TWO64 by {
      WideProduct(x, y, carry, z);
    }
    (z % TWO64, z / TWO64)
  }

  /** x * y + c for three limbs fits in two limbs. */
  lemma WideProduct(x: nat, y: nat, c: nat, z: nat)
    requires x < TWO64 && y < TWO64 && c < TWO64 && z == x * y + c
    ensures z / TWO64 < TWO64
  {
    MulMonotone(x, y, TWO64 - 1, TWO64 - 1);
    assert (TWO64 - 1) * (TWO64 - 1) + (TWO64 - 1) < TWO64 * TWO64;
    DivBelow(z, TWO64, TWO64);
  }

  /** Adding c at limb i through a limb update r0 and an outgoing carry c'. */
  lemma AddStep(s: seq<u64>, i: nat, c: nat, r0: u64, c': nat)
    requires i < |s| && r0 + c' * TWO64 == s[i] + c
    ensures Val(s[i := r0]) + c' * BPow(i + 1) == Val(s) + c * BPow(i)
  {
    ValUpdate(s, i, r0);
    BPowStep(i);
    StepArith(r0, c', s[i], c, BPow(i));
  }

  lemma StepArith(r0: int, c': int, xi: int, c: int, p: int)
    requires r0 + c' * TWO64 == xi + c
    ensures r0 * p + c' * (p * TWO64) == (xi + c) * p
  {
    MulDistrib(r0, c' * TWO64, p);
    MulDistrib(xi, c, p);
    assert c' * (p * TWO64) == (c' * TWO64) * p;
  }

  /** A value at least B^(n - 1) has a nonzero top limb. */
  lemma TopNonzeroFromValue(s: seq<u64>)
    requires |s| > 0 && BPow(|s| - 1) <= Val(s)
    ensures IsNormalized(s)
  {
    var n := |s| - 1;
    assert s[..n] == s[..|s| - 1];
    ValBound(s[..n]);
  }

  /** B^n grows with n. */
  lemma BPowMonotone(m: nat, n: nat)
    requires m <= n
    ensures BPow(m) <= BPow(n)
  {
    PowMonotone(TWO64, m, n);
  }

  /** The position `small_add_from` adds at: `start`, or the end when `start` is past it. */
  function AddPosition(start: nat, len: nat): nat
  {
    if start <= len then start else len
  }

  /**
   * `small_add_from`: adds the limb y at limb position `start`, carrying
   * upward and pushing a final carry limb.  It fails exactly when the sum
   * does not fit in BIGINT_LIMBS limbs; limbs already carried into stay
   * changed then, as in the source.
   */
  method SmallAddFrom(x: StackVec, y: u64, start: nat) returns (ok: bool)
    requires x.Valid()
    modifies x, x.data
    ensures x.Valid()
    ensures var total := Val(old(x.Contents())) + y * BPow(AddPosition(start, old(x.length)));
            (ok <==> total < BPow(BIGINT_LIMBS)) && (ok ==> Val(x.Contents()) == total)
    ensures ok && IsNormalized(old(x.Contents())) ==> IsNormalized(x.Contents())
    ensures ok ==> old(x.length) <= x.length
  {
    ghost var v0 := Val(x.Contents());
    ghost var len := x.length;
    ghost var total := v0 + y * BPow(AddPosition(start, len));
    assert v0 <= total by {
      MulNonneg(y, BPow(AddPosition(start, len)));
    }
    var index := start;
    var carry: u64 := y;
    while carry != 0 && index < x.length
      invariant x.Valid() && x.length == len
      invariant (index == start && carry == y) || (start < index <= len)
      invariant Val(x.Contents()) + carry * BPow(AddPosition(index, len)) == total
      decreases len - index
    {
      var result := ScalarAdd(x.data[index], carry);
      ghost var before := x.Contents();
      x.data[index] := result.0;
      assert x.Contents() == before[index := result.0];
      var c': u64 := if result.1 then 1 else 0;
      AddStep(before, index, carry, result.0, c');
      carry := c';
      index := index + 1;
    }
    assert carry == 0 || AddPosition(index, len) == len;
    assert Val(x.Contents()) + carry * BPow(len) == total;
    PushCarryTail(old(x.Contents()), x.Contents(), carry, total, true);
    if carry != 0 {
      ok := x.TryPush(carry);
    } else {
      ok := true;
    }
  }

  /**
   * What is left after the carry loops of `small_add_from` and `small_mul`:
   * the limbs `cur` plus the carry at the top make the total; pushing a
   * nonzero carry fits exactly when the total does.  When the operation
   * cannot shrink the value, a nonzero top limb survives.
   */
  lemma PushCarryTail(orig: seq<u64>, cur: seq<u64>, carry: u64, total: int, grows: bool)
    requires |orig| == |cur| <= BIGINT_LIMBS && (grows ==> Val(orig) <= total)
    requires Val(cur) + carry * BPow(|cur|) == total
    ensures carry != 0 ==> Val(cur + [carry]) == total && IsNormalized(cur + [carry]) &&
                           (total < BPow(BIGINT_LIMBS) <==> |cur| < BIGINT_LIMBS)
    ensures carry == 0 ==> total < BPow(BIGINT_LIMBS)
    ensures carry == 0 && grows && IsNormalized(orig) ==> IsNormalized(cur)
  {
    var len := |cur|;
    if carry != 0 {
      ValPush(cur, carry);
      if len < BIGINT_LIMBS {
        ValBound(cur + [carry]);
        BPowMonotone(len + 1, BIGINT_LIMBS);
      } else {
        MulAtLeast(carry, BPow(BIGINT_LIMBS));
      }
    } else {
      ValBound(cur);
      BPowMonotone(len, BIGINT_LIMBS);
      if grows && IsNormalized(orig) && len > 0 {
        ValTopNonzero(orig);
        TopNonzeroFromValue(cur);
      }
    }
  }

  /** One limb of `small_mul`: limb i becomes the low half, the high half carries. */
  lemma MulStep(before: seq<u64>, orig: seq<u64>, i: nat, y: u64, carry: u64, r0: u64, r1: u64)
    requires |before| == |orig| && i < |orig| && before[i..] == orig[i..]
    requires Val(before[..i]) + carry * BPow(i) == Val(orig[..i]) * y
    requires r0 + r1 * TWO64 == orig[i] * y + carry
    ensures before[i := r0][i + 1..] == orig[i + 1..]
    ensures Val(before[i := r0][..i + 1]) + r1 * BPow(i + 1) == Val(orig[..i + 1]) * y
  {
    var after := before[i := r0];
    assert after[i + 1..] == before[i + 1..];
    assert before[i + 1..] == orig[i + 1..] by {
      assert before[i + 1..] == before[i..][1..];
      assert orig[i + 1..] == orig[i..][1..];
    }
    assert after[..i + 1] == before[..i] + [r0];
    ValPush(before[..i], r0);
    ValPrefix(orig, i);
    BPowStep(i);
    MulStepArith(Val(before[..i]), carry, BPow(i), r0, r1, orig[i], y, Val(orig[..i]));
  }

  lemma MulStepArith(a: int, c: int, p: int, r0: int, r1: int, xi: int, y: int, vo: int)
    requires a + c * p == vo * y && r0 + r1 * TWO64 == xi * y + c
    ensures a + r0 * p + r1 * (p * TWO64) == (vo + xi * p) * y
  {
    assert r1 * (p * TWO64) == (r1 * TWO64) * p;
    MulDistrib(r0, r1 * TWO64, p);
    assert (xi * y + c) * p == xi * y * p + c * p;
    assert (vo + xi * p) * y == vo * y + (xi * p) * y;
    assert xi * y * p == (xi * p) * y;
  }

  /** `small_add`: adds one limb to the value. */
  method SmallAdd(x: StackVec, y: u64) returns (ok: bool)
    requires x.Valid()
    modifies x, x.data
    ensures x.Valid()
    ensures var total := Val(old(x.Contents())) + y;
            (ok <==> total < BPow(BIGINT_LIMBS)) && (ok ==> Val(x.Contents()) == total)
    ensures ok && IsNormalized(old(x.Contents())) ==> IsNormalized(x.Contents())
  {
    ok := SmallAddFrom(x, y, 0);
  }

  /**
   * `small_mul`: multiplies the value by one limb, limb by limb with a
   * running carry, and pushes a nonzero final carry.  It fails exactly when
   * the product does not fit; the limbs are already multiplied then.
   */
  method SmallMul(x: StackVec, y: u64) returns (ok: bool)
    requires x.Valid()
    modifies x, x.data
    ensures x.Valid()
    ensures var total := Val(old(x.Contents())) * y;
            (ok <==> total < BPow(BIGINT_LIMBS)) && (ok ==> Val(x.Contents()) == total)
    ensures ok && y != 0 && IsNormalized(old(x.Contents())) ==> IsNormalized(x.Contents())
  {
    ghost var orig := x.Contents();
    ghost var len := x.length;
    var carry: u64 := 0;
    var i := 0;
    while i < x.length
      invariant x.Valid() && x.length == len && 0 <= i <= len
      invariant x.Contents()[i..] == orig[i..]
      invariant Val(x.Contents()[..i]) + carry * BPow(i) == Val(orig[..i]) * y
    {
      var result := ScalarMul(x.data[i], y, carry);
      ghost var before := x.Contents();
      x.data[i] := result.0;
      MulStep(before, orig, i, y, carry, result.0, result.1);
      assert x.Contents() == before[i := result.0];
      carry := result.1;
      i := i + 1;
    }
    assert x.Contents()[..i] == x.Contents() && orig[..i] == orig;
    ghost var total := Val(orig) * y;
    assert Val(orig) <= total || y == 0 by {
      if y != 0 {
        MulGrows(Val(orig), y);
      }
    }
    PushCarryTail(orig, x.Contents(), carry, total, y != 0);
    if carry != 0 {
      ok := x.TryPush(carry);
    } else {
      ok := true;
    }
  }

  /** usize::saturating_sub. */
  function SaturatingSub(a: nat, b: nat): (r: nat)
    ensures r == 0 || r + b == a
  {
    if a >= b then a - b else 0
  }

  /** Adding limb y[k] (and carry c) at limb start + k extends the sum by one limb of y. */
  lemma LargeAddStep(before: seq<u64>, after: seq<u64>, y: seq<u64>, start: nat, k: nat, c: nat, n: u64, c': nat, v0: int)
    requires k < |y| && start + k < |before|
    requires after == before[start + k := n]
    requires Val(before) + c * BPow(start + k) == v0 + Val(y[..k]) * BPow(start)
    requires n + c' * TWO64 == before[start + k] + y[k] + c
    ensures Val(after) + c' * BPow(start + k + 1) == v0 + Val(y[..k + 1]) * BPow(start)
  {
    var i := start + k;
    AddStep(before, i, y[k] + c, n, c');
    ValPrefix(y, k);
    PowAdd(TWO64, start, k);
    LargeAddArith(Val(after), Val(before), v0, Val(y[..k]), Val(y[..k + 1]), y[k], c, c',
                  BPow(start), BPow(k), BPow(i), BPow(i + 1));
  }

  lemma LargeAddArith(va: int, vb: int, v0: int, a: int, a1: int, yk: int, c: int, c': int,
                      p: int, q: int, r: int, r1: int)
    requires va + c' * r1 == vb + (yk + c) * r
    requires vb + c * r == v0 + a * p
    requires a1 == a + yk * q && r == p * q
    ensures va + c' * r1 == v0 + a1 * p
  {
    MulDistrib(yk, c, r);
    MulDistrib(a, yk * q, p);
    assert yk * r == (yk * q) * p;
  }

  /**
   * The body of the `large_add_from` loop: adds yi and the incoming carry to
   * limb i in place, with the two wrapping adds the source performs.
   */
  method AddLimb(x: StackVec, i: nat, yi: u64, carry: bool) returns (out: bool)
    requires x.Valid() && i < x.length
    modifies x.data
    ensures x.Valid() && x.length == old(x.length)
    ensures var n := x.Contents()[i];
            x.Contents() == old(x.Contents())[i := n] &&
            n + (if out then 1 else 0) * TWO64 == old(x.Contents())[i] + yi + (if carry then 1 else 0)
  {
    var result := ScalarAdd(x.data[i], yi);
    x.data[i] := result.0;
    out := result.1;
    if carry {
      var result := ScalarAdd(x.data[i], 1);
      x.data[i] := result.0;
      out := out || result.1;
    }
    assert x.Contents() == old(x.Contents())[i := x.data[i]];
  }

  /**
   * The carry loop of `large_add_from`: adds y limb by limb at `start`,
   * where the vector already covers those limbs, and returns the final carry.
   */
  method LargeAddLoop(x: StackVec, y: seq<u64>, start: nat) returns (carry: bool)
    requires x.Valid() && start + |y| <= x.length
    modifies x.data
    ensures x.Valid() && x.length == old(x.length)
    ensures carry ==> |y| > 0
    ensures Val(x.Contents()) + (if carry then 1 else 0) * BPow(start + |y|) == Val(old(x.Contents())) + Val(y) * BPow(start)
  {
    ghost var v0 := Val(x.Contents());
    carry := false;
    var index := 0;
    while index < |y|
      invariant x.Valid() && x.length == old(x.length) && index <= |y|
      invariant carry ==> index > 0
      invariant Val(x.Contents()) + (if carry then 1 else 0) * BPow(start + index) == v0 + Val(y[..index]) * BPow(start)
    {
      ghost var before := x.Contents();
      ghost var c: nat := if carry then 1 else 0;
      var tmp := AddLimb(x, start + index, y[index], carry);
      ghost var after := x.Contents();
      LargeAddStep(before, after, y, start, index, c, after[start + index], if tmp then 1 else 0, v0);
      carry := tmp;
      index := index + 1;
    }
    assert y[..index] == y;
  }

  /**
   * `large_add_from` once the vector covers limbs start .. start + |y|: the
   * carry loop, then the final carry added with `small_add_from`.
   */
  method LargeAddCovered(x: StackVec, y: seq<u64>, start: nat) returns (ok: bool)
    requires x.Valid() && start + |y| <= x.length
    modifies x, x.data
    ensures x.Valid()
    ensures var total := Val(old(x.Contents())) + Val(y) * BPow(start);
            (ok <==> total < BPow(BIGINT_LIMBS)) && (ok ==> Val(x.Contents()) == total)
  {
    ghost var total: int := Val(x.Contents()) + Val(y) * BPow(start);
    ghost var len := x.length;
    var carry := LargeAddLoop(x, y, start);
    if carry {
      assert Val(x.Contents()) + 1 * BPow(AddPosition(|y| + start, len)) == total;
      ok := SmallAddFrom(x, 1, |y| + start);
    } else {
      assert Val(x.Contents()) == total;
      LargeAddNoCarry(x.Contents(), len);
      ok := true;
    }
  }

  /**
   * `large_add_from`: adds the limbs y at limb position `start`, first
   * growing the vector with zero limbs to cover them.  It fails when the
   * grown length or the sum exceeds the capacity.
   */
  method LargeAddFrom(x: StackVec, y: seq<u64>, start: nat) returns (ok: bool)
    requires x.Valid()
    modifies x, x.data
    ensures x.Valid()
    ensures var total := Val(old(x.Contents())) + Val(y) * BPow(start);
            (ok <==> (|y| == 0 || |y| + start <= BIGINT_LIMBS) && total < BPow(BIGINT_LIMBS)) &&
            (ok ==> Val(x.Contents()) == total)
  {
    if |y| > SaturatingSub(x.length, start) {
      ghost var before := x.Contents();
      var resized := x.TryResize(|y| + start, 0);
      if !resized {
        assert |y| > 0 && |y| + start > BIGINT_LIMBS;
        ok := false;
        return;
      }
      assert Fill(x.length - |before|, 0) == Zeros(x.length - |before|);
      ValTrailingZeros(before, x.length - |before|);
    }
    if |y| == 0 {
      LargeAddNoCarry(x.Contents(), x.length);
      return true;
    }
    ok := LargeAddCovered(x, y, start);
  }

  lemma LargeAddNoCarry(s: seq<u64>, len: nat)
    requires |s| == len <= BIGINT_LIMBS
    ensures Val(s) < BPow(BIGINT_LIMBS)
  {
    ValBound(s);
    BPowMonotone(len, BIGINT_LIMBS);
  }

  // ---------------------------------------------------------- multiplication

  /** `StackVec::try_from`: a fresh vector holding the limbs x, if they fit. */
  method TryFrom(x: seq<u64>) returns (r: Option<StackVec>)
    ensures r.Some? <==> |x| <= BIGINT_LIMBS
    ensures r.Some? ==> r.value.Valid() && fresh(r.value) && fresh(r.value.data) && r.value.Contents() == x
  {
    var v := new StackVec();
    var ok := v.TryExtend(x);
    if ok {
      r := Some(v);
    } else {
      r := None;
    }
  }

  /** Adding the partial product for limb y[k] extends the product by that limb. */
  lemma LongMulStep(vx: nat, y: seq<u64>, k: nat, vz: int, vzi: int)
    requires k < |y|
    requires vz == vx * Val(y[..k]) && vzi == vx * y[k]
    ensures vz + vzi * BPow(k) == vx * Val(y[..k + 1])
  {
    ValPrefix(y, k);
    LongMulArith(vx, Val(y[..k]), y[k], BPow(k));
  }

  lemma LongMulArith(vx: int, a: int, yk: int, p: int)
    ensures vx * a + (vx * yk) * p == vx * (a + yk * p)
  {
    MulDistrib(a, yk * p, vx);
    assert (vx * yk) * p == vx * (yk * p);
  }

  /** A prefix of the limbs denotes at most the whole. */
  lemma ValPrefixAtMost(s: seq<u64>, k: nat)
    requires k <= |s|
    ensures Val(s[..k]) <= Val(s)
  {
    ValSplit(s, k);
    MulNonneg(Val(s[k..]), BPow(k));
  }

  /** One row x * y[k] of the schoolbook product is at most the whole product. */
  lemma RowAtMostProduct(vx: nat, y: seq<u64>, k: nat)
    requires k < |y|
    ensures vx * y[k] <= vx * Val(y)
  {
    ValPrefix(y, k);
    ValPrefixAtMost(y, k + 1);
    MulGrows(y[k], BPow(k));
    MulMonotone(vx, y[k], vx, Val(y));
  }

  /** The product of x with a prefix of y is at most the whole product. */
  lemma PartialAtMostProduct(vx: nat, y: seq<u64>, k: nat)
    requires k <= |y|
    ensures vx * Val(y[..k]) <= vx * Val(y)
  {
    ValPrefixAtMost(y, k);
    MulMonotone(vx, Val(y[..k]), vx, Val(y));
  }

  /**
   * A normalized row that `large_add_from` cannot fit at limb k because of
   * its length already puts the sum at or above B^BIGINT_LIMBS.
   */
  lemma RowTooLong(zi: seq<u64>, k: nat, vz: nat, total: int)
    requires IsNormalized(zi) && |zi| > 0 && |zi| + k > BIGINT_LIMBS
    requires total == vz + Val(zi) * BPow(k)
    ensures total >= BPow(BIGINT_LIMBS)
  {
    ValTopNonzero(zi);
    MulMonotone(BPow(|zi| - 1), BPow(k), Val(zi), BPow(k));
    PowAdd(TWO64, |zi| - 1, k);
    BPowMonotone(BIGINT_LIMBS, |zi| - 1 + k);
  }

  /**
   * The row loop of `long_mul`: with z holding x * y[0], adds x * y[i] at
   * limb i for every later nonzero limb.  For normalized x it fails exactly
   * when the product does not fit.
   */
  method LongMulRows(z: StackVec, x: seq<u64>, y: seq<u64>) returns (ok: bool)
    requires z.Valid() && |x| <= BIGINT_LIMBS && |y| > 0
    requires Val(z.Contents()) == Val(x) * y[0]
    modifies z, z.data
    ensures z.Valid()
    ensures ok ==> Val(z.Contents()) == Val(x) * Val(y)
    ensures IsNormalized(x) ==> (ok <==> Val(x) * Val(y) < BPow(BIGINT_LIMBS))
  {
    LongMulStep(Val(x), y, 0, 0, Val(z.Contents()));
    var index := 1;
    while index < |y|
      invariant z.Valid() && 1 <= index <= |y|
      invariant Val(z.Contents()) == Val(x) * Val(y[..index])
    {
      ghost var vz := Val(z.Contents());
      if y[index] != 0 {
        var u := TryFrom(x);
        if u.None? {
          assert false;
          return false;
        }
        var zi := u.value;
        ok := SmallMul(zi, y[index]);
        if !ok {
          if IsNormalized(x) {
            RowAtMostProduct(Val(x), y, index);
          }
          return false;
        }
        var row := zi.Contents();
        LongMulStep(Val(x), y, index, vz, Val(row));
        ok := LargeAddFrom(z, row, index);
        if !ok {
          if IsNormalized(x) {
            PartialAtMostProduct(Val(x), y, index + 1);
            if |row| > 0 && |row| + index > BIGINT_LIMBS {
              RowTooLong(row, index, vz, Val(x) * Val(y[..index + 1]));
            }
          }
          return false;
        }
      } else {
        LongMulStep(Val(x), y, index, vz, 0);
      }
      index := index + 1;
    }
    assert y[..index] == y;
    LargeAddNoCarry(z.Contents(), z.length);
    ok := true;
  }

  /**
   * `long_mul`: schoolbook multiplication.  A copy of x is multiplied by
   * y[0], then each later row is added by `LongMulRows`, and the result is
   * normalized.  With y empty the result is x itself.  For normalized x it
   * fails exactly when x does not fit or the product does not.
   */
  method LongMul(x: seq<u64>, y: seq<u64>) returns (r: Option<StackVec>)
    ensures r.Some? ==> r.value.Valid() && fresh(r.value) && fresh(r.value.data)
    ensures r.Some? ==> IsNormalized(r.value.Contents()) &&
                        Val(r.value.Contents()) == if |y| == 0 then Val(x) else Val(x) * Val(y)
    ensures IsNormalized(x) ==>
              (r.Some? <==> |x| <= BIGINT_LIMBS && (|y| == 0 || Val(x) * Val(y) < BPow(BIGINT_LIMBS)))
  {
    var t := TryFrom(x);
    if t.None? {
      return None;
    }
    var z := t.value;
    if |y| > 0 {
      var ok := SmallMul(z, y[0]);
      if !ok {
        if IsNormalized(x) {
          RowAtMostProduct(Val(x), y, 0);
        }
        return None;
      }
      ok := LongMulRows(z, x, y);
      if !ok {
        return None;
      }
    }
    z.Normalize();
    return Some(z);
  }

  lemma ValOne(a: u64)
    ensures Val([a]) == a
  {
    ValPush([], a);
    assert [] + [a] == [a];
  }

  /**
   * The value `large_mul` leaves, as written: with y of length other than 1
   * it returns `long_mul(y, x)`, which for an empty x is y itself rather than 0.
   */
  function LargeMulValue(x: seq<u64>, y: seq<u64>): nat
  {
    if |y| != 1 && |x| == 0 then Val(y) else Val(x) * Val(y)
  }

  /** The discrepancy: an empty (zero) x times y = [1, 1] is left as y. */
  lemma LargeMulZeroCounterexample()
    ensures LargeMulValue([], [1, 1]) == TWO64 + 1
    ensures LargeMulValue([], [1, 1]) != Val([]) * Val([1, 1])
  {
    ValTwo(1, 1);
  }

  /**
   * `large_mul`, as written: multiplies x by the limbs y, by `small_mul`
   * for a single limb and by `long_mul(y, x)` otherwise.  For normalized y
   * that fits, it fails exactly when the product does not fit.
   */
  method LargeMul(x: StackVec, y: seq<u64>) returns (ok: bool)
    requires x.Valid()
    modifies x, x.data
    ensures x.Valid()
    ensures ok ==> Val(x.Contents()) == LargeMulValue(old(x.Contents()), y)
    ensures IsNormalized(y) && |y| <= BIGINT_LIMBS ==>
              (ok <==> Val(old(x.Contents())) * Val(y) < BPow(BIGINT_LIMBS))
    ensures ok && IsNormalized(old(x.Contents())) && IsNormalized(y) ==> IsNormalized(x.Contents())
  {
    if |y| == 1 {
      ValOne(y[0]);
      ok := SmallMul(x, y[0]);
    } else {
      ghost var vx := Val(x.Contents());
      assert Val(y) * vx == vx * Val(y);
      assert x.length == 0 ==> vx * Val(y) == 0;
      var r := LongMul(y, x.Contents());
      if r.None? {
        return false;
      }
      x.CopyFrom(r.value);
      ok := true;
    }
  }

  /**
   * `large_mul` with the empty-x case fixed: a zero value stays zero, so the
   * result is always the product.
   */
  method LargeMulCorrected(x: StackVec, y: seq<u64>) returns (ok: bool)
    requires x.Valid()
    modifies x, x.data
    ensures x.Valid()
    ensures ok ==> Val(x.Contents()) == Val(old(x.Contents())) * Val(y)
    ensures IsNormalized(y) && |y| <= BIGINT_LIMBS ==>
              (ok <==> Val(old(x.Contents())) * Val(y) < BPow(BIGINT_LIMBS))
    ensures ok && IsNormalized(old(x.Contents())) && IsNormalized(y) ==> IsNormalized(x.Contents())
  {
    if x.length == 0 {
      return true;
    }
    ok := LargeMul(x, y);
  }

  // ---------------------------------------------------------------- shifts

  /**
   * One limb of `shl_bits`: the limb a shifted left by n with the top bits
   * of the previous limb ORed in, plus the bits of a shifted out times B,
   * is a * 2^n plus the incoming bits.
   */
  lemma ShlLimb(a: u64, prev: u64, n: nat)
    requires 0 < n < 64
    ensures BitOr(Shl64(a, n), Shr(prev, 64 - n)) < TWO64
    ensures BitOr(Shl64(a, n), Shr(prev, 64 - n)) + Shr(a, 64 - n) * TWO64 == a * Pow2(n) + Shr(prev, 64 - n)
  {
    var hl, hr := Pow2(n), Pow2(64 - n);
    assert hl * hr == TWO64 by {
      PowAdd(2, n, 64 - n);
      Pow2Of64();
    }
    var c := Shr(prev, 64 - n);
    ShiftedBelow(prev, 64 - n);
    var q, t := a / hr, a % hr;
    ShlLimbArith(a, q, t, hl, hr);
    assert Shl64(a, n) == t * hl by {
      DivAddMultiple(q, t * hl, TWO64);
      SmallDiv(t * hl, TWO64);
    }
    BitOrDisjoint(c, t, n);
    OrCommutes(c, t * hl);
  }

  lemma ShlLimbArith(a: nat, q: nat, t: nat, hl: nat, hr: nat)
    requires hl * hr == TWO64 && hr > 0 && q == a / hr && t == a % hr
    ensures a * hl == q * TWO64 + t * hl && t * hl + hl <= TWO64
  {
    assert a == q * hr + t;
    MulDistrib(q * hr, t, hl);
    assert (q * hr) * hl == q * TWO64;
    MulMonotone(t + 1, hl, hr, hl);
  }

  /**
   * `shl_bits`: shifts the value left by 0 < n < 64 bits, limb by limb,
   * carrying each limb's top n bits into the next, and pushes a nonzero
   * final carry.  It fails exactly when the result does not fit.
   */
  method ShlBits(x: StackVec, n: nat) returns (ok: bool)
    requires x.Valid() && 0 < n < 64
    modifies x, x.data
    ensures x.Valid()
    ensures var total := Val(old(x.Contents())) * Pow2(n);
            (ok <==> total < BPow(BIGINT_LIMBS)) && (ok ==> Val(x.Contents()) == total)
    ensures ok && IsNormalized(old(x.Contents())) ==> IsNormalized(x.Contents())
  {
    ghost var orig := x.Contents();
    ghost var len := x.length;
    Pow2Below64(n);
    ghost var y: u64 := Pow2(n);
    var prev: u64 := 0;
    var i := 0;
    while i < x.length
      invariant x.Valid() && x.length == len && 0 <= i <= len
      invariant x.Contents()[i..] == orig[i..]
      invariant Val(x.Contents()[..i]) + Shr(prev, 64 - n) * BPow(i) == Val(orig[..i]) * y
    {
      ghost var before := x.Contents();
      var tmp := x.data[i];
      ShlLimb(tmp, prev, n);
      x.data[i] := Shl64(x.data[i], n);
      x.data[i] := BitOr(x.data[i], Shr(prev, 64 - n));
      MulStep(before, orig, i, y, Shr(prev, 64 - n), x.data[i], Shr(tmp, 64 - n));
      assert x.Contents() == before[i := x.data[i]];
      prev := tmp;
      i := i + 1;
    }
    assert x.Contents()[..i] == x.Contents() && orig[..i] == orig;
    var carry := Shr(prev, 64 - n);
    ghost var total := Val(orig) * y;
    assert Val(orig) <= total by {
      MulGrows(Val(orig), y);
    }
    PushCarryTail(orig, x.Contents(), carry, total, true);
    if carry != 0 {
      ok := x.TryPush(carry);
    } else {
      ok := true;
    }
  }

  /**
   * `shl_limbs`: shifts the value left by n whole limbs, moving the limbs
   * up and zero-filling the bottom n.  It fails, leaving the vector alone,
   * when the longer vector would exceed the capacity; an empty vector stays
   * empty.
   */
  method ShlLimbs(x: StackVec, n: nat) returns (ok: bool)
    requires x.Valid()
    modifies x, x.data
    ensures x.Valid()
    ensures ok <==> n + old(x.length) <= BIGINT_LIMBS
    ensures !ok ==> x.Contents() == old(x.Contents())
    ensures ok ==> x.Contents() == if old(x.length) == 0 then [] else Zeros(n) + old(x.Contents())
    ensures ok ==> Val(x.Contents()) == Val(old(x.Contents())) * BPow(n)
    ensures ok && IsNormalized(old(x.Contents())) ==> IsNormalized(x.Contents())
  {
    if n + x.length > BIGINT_LIMBS {
      ok := false;
    } else if x.length != 0 {
      ghost var orig := x.Contents();
      var len := n + x.length;
      var count := x.length;
      forall i | n <= i < n + count {
        x.data[i] := x.data[i - n];
      }
      assert forall i :: n <= i < len ==> x.data[i] == orig[i - n];
      forall i | 0 <= i < n {
        x.data[i] := 0;
      }
      assert forall i :: 0 <= i < len ==> x.data[i] == (Zeros(n) + orig)[i];
      x.length := len;
      assert x.Contents() == Zeros(n) + orig;
      ValShiftLimbs(orig, n);
      ok := true;
    } else {
      ok := true;
    }
  }

  /** A shift by n bits is one by n % 64 bits and n / 64 limbs. */
  lemma ShlSplit(n: nat)
    ensures Pow2(n) == Pow2(n % 64) * BPow(n / 64)
  {
    BPowIsPow2(n / 64);
    PowAdd(2, n % 64, 64 * (n / 64));
  }

  lemma ShlSplitValue(v0: nat, p: nat, q: nat, pq: nat)
    requires pq == p * q && q >= 1
    ensures v0 * pq == (v0 * p) * q && v0 * p <= v0 * pq
  {
    MulGrows(v0 * p, q);
  }

  /** A nonempty normalized value has a nonzero value. */
  lemma NormalizedPositive(s: seq<u64>)
    requires IsNormalized(s) && |s| > 0
    ensures Val(s) > 0
  {
    ValTopNonzero(s);
  }

  /**
   * `shl`: multiplies the value by 2^n, as a bit shift by n % 64 and then a
   * limb shift by n / 64.  For a normalized value it fails exactly when the
   * result does not fit, except that an empty vector fails when the limb
   * shift alone exceeds the capacity.
   */
  method Shl(x: StackVec, n: nat) returns (ok: bool)
    requires x.Valid()
    modifies x, x.data
    ensures x.Valid()
    ensures ok ==> Val(x.Contents()) == Val(old(x.Contents())) * Pow2(n)
    ensures ok && IsNormalized(old(x.Contents())) ==> IsNormalized(x.Contents())
    ensures IsNormalized(old(x.Contents())) ==>
              (ok <==> if old(x.length) == 0 then n / 64 <= BIGINT_LIMBS
                       else Val(old(x.Contents())) * Pow2(n) < BPow(BIGINT_LIMBS))
  {
    ghost var x0 := x.Contents();
    ghost var v0 := Val(x0);
    var rem := n % 64;
    var div := n / 64;
    ShlSplit(n);
    ShlSplitValue(v0, Pow2(rem), BPow(div), Pow2(n));
    if rem != 0 {
      ok := ShlBits(x, rem);
      if !ok {
        return;
      }
    }
    ghost var x1 := x.Contents();
    ghost var v1 := Val(x1);
    assert v1 == v0 * Pow2(rem);
    assert IsNormalized(x0) ==> IsNormalized(x1);
    if div != 0 {
      ok := ShlLimbs(x, div);
      if !ok {
        if IsNormalized(x0) && |x0| > 0 {
          ShlTooLong(x0, x1, div, Pow2(rem));
        }
        return;
      }
    }
    if IsNormalized(x0) && |x0| > 0 {
      LargeAddNoCarry(x.Contents(), x.length);
    }
    ok := true;
  }

  /** The limb shift of a nonzero normalized value fails only when the result is too big. */
  lemma ShlTooLong(x0: seq<u64>, x1: seq<u64>, div: nat, p: nat)
    requires IsNormalized(x0) && |x0| > 0 && IsNormalized(x1) && p >= 1
    requires Val(x1) == Val(x0) * p && div + |x1| > BIGINT_LIMBS
    ensures Val(x1) * BPow(div) >= BPow(BIGINT_LIMBS)
  {
    NormalizedPositive(x0);
    MulGrows(Val(x0), p);
    RowTooLong(x1, div, 0, Val(x1) * BPow(div));
  }

  /** `leading_zeros`: the leading zero bits of the top limb, 0 for no limbs. */
  function LeadingZeros(x: seq<u64>): (r: nat)
    ensures r <= 64
    ensures |x| > 0 ==> r == 64 - BitLen(x[|x| - 1])
  {
    if |x| > 0 then LeadingZeros64(x[|x| - 1]) else 0
  }

  /** `bit_length`: 64 bits per limb less the top limb's leading zeros. */
  function BitLength(x: seq<u64>): (r: u32)
    requires |x| <= BIGINT_LIMBS
  {
    64 * |x| - LeadingZeros(x)
  }

  /** For a normalized vector the bit length is that of its value. */
  lemma BitLengthCorrect(x: seq<u64>)
    requires |x| <= BIGINT_LIMBS && IsNormalized(x)
    ensures BitLength(x) == BitLen(Val(x))
  {
    if |x| > 0 {
      var k := |x| - 1;
      assert x[..k + 1] == x;
      ValPrefix(x, k);
      ValBound(x[..k]);
      BPowIsPow2(k);
      BitLenShift(x[k], Val(x[..k]), 64 * k, Val(x));
    }
  }

  // ---------------------------------------------------------------- powers

  /** The limb step of the small-power loop of `pow`. */
  const SMALL_POW5_STEP: nat := 27

  /** 5^27, the largest power of five in one limb. */
  lemma Pow5Limb(k: nat)
    requires k <= SMALL_POW5_STEP
    ensures 1 <= Pow5(k) <= Pow5(SMALL_POW5_STEP) < TWO64
  {
    PowPositive(5, k);
    PowMonotone(5, k, SMALL_POW5_STEP);
    assert Pow(5, 3) == 125;
    PowAdd(5, 3, 3);
    PowAdd(5, 6, 3);
    PowAdd(5, 9, 9);
    PowAdd(5, 18, 9);
  }

  /**
   * What `pow` assumes of LARGE_POW5 and LARGE_POW5_STEP, which live in a
   * table file that is not part of this model: the limbs denote 5^step, in
   * normalized form, within the capacity.
   */
  predicate LargePow5Table(t: seq<u64>, step: nat)
  {
    step > 0 && |t| <= BIGINT_LIMBS && IsNormalized(t) && Val(t) == Pow5(step)
  }

  /**
   * One multiplication step of `pow`: multiplying by f = 5^k leaves k fewer
   * factors to go, and the partial product is at most the final one.
   */
  lemma Pow5Step(v: nat, f: nat, e: nat, k: nat)
    requires k <= e && f == Pow5(k)
    ensures (v * f) * Pow5(e - k) == v * Pow5(e)
    ensures v * f <= v * Pow5(e)
  {
    PowAdd(5, k, e - k);
    PowPositive(5, e - k);
    MulGrows(v * f, Pow5(e - k));
  }

  /**
   * The first loop of `pow`: multiplies by LARGE_POW5 (with `large_mul` as
   * written) while at least LARGE_POW5_STEP factors of five remain, and
   * returns how many remain.  The value is exact for a nonzero start or
   * when the loop does not run; an empty (zero) vector picks up LARGE_POW5
   * at the first step.
   */
  method MulLargePow5(x: StackVec, exp: u32, largePow5: seq<u64>, largeStep: nat) returns (ok: bool, e: u32)
    requires x.Valid() && LargePow5Table(largePow5, largeStep)
    modifies x, x.data
    ensures x.Valid()
    ensures ok ==> e < largeStep
    ensures exp < largeStep ==> ok && e == exp
    ensures ok && (Val(old(x.Contents())) > 0 || exp < largeStep) ==>
              Val(x.Contents()) * Pow5(e) == Val(old(x.Contents())) * Pow5(exp)
    ensures !ok && Val(old(x.Contents())) > 0 ==> Val(old(x.Contents())) * Pow5(exp) >= BPow(BIGINT_LIMBS)
    ensures ok && IsNormalized(old(x.Contents())) ==> IsNormalized(x.Contents())
  {
    ghost var total: int := Val(x.Contents()) * Pow5(exp);
    ghost var nonzero := Val(x.Contents()) > 0;
    ghost var norm := IsNormalized(x.Contents());
    e := exp;
    while e >= largeStep
      invariant x.Valid()
      invariant e <= exp && (exp < largeStep ==> e == exp)
      invariant nonzero || exp < largeStep ==> Val(x.Contents()) * Pow5(e) == total
      invariant nonzero ==> Val(x.Contents()) > 0
      invariant norm ==> IsNormalized(x.Contents())
    {
      ghost var v := Val(x.Contents());
      Pow5Step(v, Val(largePow5), e, largeStep);
      assert nonzero ==> |x.Contents()| > 0;
      ok := LargeMul(x, largePow5);
      if !ok {
        return;
      }
      if nonzero {
        assert Val(x.Contents()) == v * Val(largePow5);
        assert Val(x.Contents()) * Pow5(e - largeStep) == total;
        PowPositive(5, largeStep);
        MulAtLeast(Val(largePow5), v);
      }
      e := e - largeStep;
    }
    ok := true;
  }

  /**
   * The second loop of `pow`: multiplies by 5^27 while at least 27 factors
   * of five remain, and returns how many remain.
   */
  method MulSmallPow5(x: StackVec, exp: u32) returns (ok: bool, e: u32)
    requires x.Valid()
    modifies x, x.data
    ensures x.Valid()
    ensures ok ==> e < SMALL_POW5_STEP && Val(x.Contents()) * Pow5(e) == Val(old(x.Contents())) * Pow5(exp)
    ensures !ok ==> Val(old(x.Contents())) * Pow5(exp) >= BPow(BIGINT_LIMBS)
    ensures ok && IsNormalized(old(x.Contents())) ==> IsNormalized(x.Contents())
  {
    ghost var total: int := Val(x.Contents()) * Pow5(exp);
    ghost var norm := IsNormalized(x.Contents());
    Pow5Limb(SMALL_POW5_STEP);
    var maxNative: u64 := Pow5(SMALL_POW5_STEP);
    e := exp;
    while e >= SMALL_POW5_STEP
      invariant x.Valid()
      invariant Val(x.Contents()) * Pow5(e) == total
      invariant norm ==> IsNormalized(x.Contents())
    {
      ghost var v := Val(x.Contents());
      Pow5Step(v, maxNative, e, SMALL_POW5_STEP);
      ok := SmallMul(x, maxNative);
      if !ok {
        return;
      }
      assert Val(x.Contents()) * Pow5(e - SMALL_POW5_STEP) == total;
      e := e - SMALL_POW5_STEP;
    }
    ok := true;
  }

  /**
   * `pow`: multiplies the value by 5^exp, first by LARGE_POW5 while that
   * many factors remain, then by 5^27 per limb step, then by the remaining
   * small power of five.  For a nonzero value, or an exponent below
   * LARGE_POW5_STEP, it leaves value·5^exp and fails exactly when that does
   * not fit; `large_mul` as written makes an empty vector nonzero otherwise.
   */
  method MulPow5(x: StackVec, exp: u32, largePow5: seq<u64>, largeStep: nat) returns (ok: bool)
    requires x.Valid() && LargePow5Table(largePow5, largeStep)
    modifies x, x.data
    ensures x.Valid()
    ensures ok && (Val(old(x.Contents())) > 0 || exp < largeStep) ==>
              Val(x.Contents()) == Val(old(x.Contents())) * Pow5(exp)
    ensures Val(old(x.Contents())) > 0 || exp < largeStep ==>
              (ok <==> Val(old(x.Contents())) * Pow5(exp) < BPow(BIGINT_LIMBS))
    ensures ok && IsNormalized(old(x.Contents())) ==> IsNormalized(x.Contents())
  {
    ghost var total: int := Val(x.Contents()) * Pow5(exp);
    ghost var exact := Val(x.Contents()) > 0 || exp < largeStep;
    var e;
    ok, e := MulLargePow5(x, exp, largePow5, largeStep);
    if !ok {
      return;
    }
    ok, e := MulSmallPow5(x, e);
    if !ok {
      return;
    }
    if e != 0 {
      Pow5Limb(e);
      var smallPower: u64 := Pow5(e);
      Pow5Step(Val(x.Contents()), smallPower, e, e);
      ok := SmallMul(x, smallPower);
      if !ok {
        return;
      }
    }
    assert Pow5(0) == 1;
    assert exact ==> Val(x.Contents()) == total;
    LargeAddNoCarry(x.Contents(), x.length);
    ok := true;
  }

  /** The factor `Bigint::pow(base, exp)` multiplies by. */
  function PowFactor(base: u32, exp: u32): (r: nat)
    ensures r >= 1
  {
    PowPositive(5, exp);
    (if base % 5 == 0 then Pow5(exp) else 1) * (if base % 2 == 0 then Pow2(exp) else 1)
  }

  /** For base 10 the factor is 10^exp. */
  lemma PowFactorTen(exp: u32)
    ensures PowFactor(10, exp) == Pow10(exp)
  {
    PowMul(5, 2, exp);
  }

  /**
   * `Bigint::pow`: multiplies by 5^exp when 5 divides the base and then by
   * 2^exp (a shift) when 2 does.  The product is exact unless an empty
   * vector meets `large_mul` (see MulPow5); for a nonzero normalized value
   * it fails exactly when the product does not fit.
   */
  method BigintPow(x: StackVec, base: u32, exp: u32, largePow5: seq<u64>, largeStep: nat) returns (ok: bool)
    requires x.Valid() && LargePow5Table(largePow5, largeStep)
    modifies x, x.data
    ensures x.Valid()
    ensures ok && (Val(old(x.Contents())) > 0 || base % 5 != 0 || exp < largeStep) ==>
              Val(x.Contents()) == Val(old(x.Contents())) * PowFactor(base, exp)
    ensures ok && IsNormalized(old(x.Contents())) ==> IsNormalized(x.Contents())
    ensures IsNormalized(old(x.Contents())) && old(x.length) > 0 ==>
              (ok <==> Val(old(x.Contents())) * PowFactor(base, exp) < BPow(BIGINT_LIMBS))
  {
    ghost var x0 := x.Contents();
    ghost var v0 := Val(x0);
    ghost var f5: nat := if base % 5 == 0 then Pow5(exp) else 1;
    ghost var f2: nat := if base % 2 == 0 then Pow2(exp) else 1;
    PowPositive(5, exp);
    assert PowFactor(base, exp) == f5 * f2;
    ShlSplitValue(v0, f5, f2, f5 * f2);
    ghost var exact := v0 > 0 || base % 5 != 0 || exp < largeStep;
    if IsNormalized(x0) && |x0| > 0 {
      NormalizedPositive(x0);
    }
    if base % 5 == 0 {
      ok := MulPow5(x, exp, largePow5, largeStep);
      if !ok {
        return;
      }
    }
    ghost var x1 := x.Contents();
    assert exact ==> Val(x1) == v0 * f5;
    if base % 2 == 0 {
      if IsNormalized(x0) && |x0| > 0 {
        MulGrows(v0, f5);
        assert |x1| > 0;
      }
      ok := Shl(x, exp);
      if !ok {
        return;
      }
    }
    if IsNormalized(x0) && |x0| > 0 {
      LargeAddNoCarry(x.Contents(), x.length);
    }
    ok := true;
  }
}
