/**
 * Whether a Natural is a power of two: a limb slice is one exactly when all
 * limbs below the top one are zero and the top limb has a single bit set.
 */
module IsPowerOfTwo {
  import opened Limbs
  import opened Modular
  import opened Naturals

  /** The meaning of every `is_power_of_two`: v = 2^k for some k. */
  ghost predicate PowerOfTwo(v: nat)
  {
    exists k: nat :: Pow2(k) == v
  }

  /** Number of one bits of v (`count_ones`). */
  function CountOnes(v: nat): nat
  {
    if v == 0 then 0 else v % 2 + CountOnes(v / 2)
  }

  /** `u32::is_power_of_two`: exactly one bit is set. */
  function U32IsPowerOfTwo(v: nat): (r: bool)
    requires IsLimb(v)
    ensures r <==> PowerOfTwo(v)
  {
    OneBitIffPowerOfTwo(v);
    CountOnes(v) == 1
  }

  lemma {:induction false} NoBitsIffZero(v: nat)
    ensures CountOnes(v) == 0 <==> v == 0
  {
    if v > 0 && v % 2 == 0 {
      NoBitsIffZero(v / 2);
    }
  }

  /** A number has a single one bit exactly when it is a power of two. */
  lemma {:induction false} OneBitIffPowerOfTwo(v: nat)
    ensures CountOnes(v) == 1 <==> PowerOfTwo(v)
  {
    if PowerOfTwo(v) {
      var k: nat :| Pow2(k) == v;
      OneBitOfPower(k);
    }
    if CountOnes(v) == 1 {
      if v % 2 == 1 {
        NoBitsIffZero(v / 2);
        assert Pow2(0) == v;
      } else {
        OneBitIffPowerOfTwo(v / 2);
        var k: nat :| Pow2(k) == v / 2;
        assert Pow2(k + 1) == v;
      }
    }
  }

  lemma {:induction false} OneBitOfPower(k: nat)
    ensures CountOnes(Pow2(k)) == 1
  {
    if k > 0 {
      OneBitOfPower(k - 1);
      var h := Pow2(k - 1);
      ModUnique(2 * h, 2, h, 0);
    }
  }

  /** `limbs_test_zero`: scans the slice for a nonzero limb. */
  method LimbsTestZero(s: seq<nat>) returns (r: bool)
    ensures r <==> AllZero(s)
  {
    var i := 0;
    while i < |s|
      invariant 0 <= i <= |s|
      invariant AllZero(s[..i])
    {
      if s[i] != 0 {
        assert s[..i + 1][i] == s[i];
        return false;
      }
      assert s[..i + 1] == s[..i] + [s[i]];
      i := i + 1;
    }
    assert s[..i] == s;
    return true;
  }

  /**
   * `limbs_is_power_of_two`: `None` is the panic on an empty slice; otherwise
   * the low limbs must be zero and the top limb a power of two.
   */
  method LimbsIsPowerOfTwo(limbs: seq<nat>) returns (r: Option<bool>)
    requires AreLimbs(limbs)
    ensures r.None? <==> |limbs| == 0
    ensures r.Some? ==> (r.value <==> AllZero(limbs[..|limbs| - 1]) && PowerOfTwo(limbs[|limbs| - 1]))
    ensures r.Some? && Normalized(limbs) ==> (r.value <==> PowerOfTwo(Value(limbs)))
  {
    if |limbs| == 0 {
      return None;
    }
    var n := |limbs| - 1;
    var low := LimbsTestZero(limbs[..n]);
    var b := low && U32IsPowerOfTwo(limbs[n]);
    if Normalized(limbs) {
      PowerOfTwoLimbs(limbs);
    }
    return Some(b);
  }

  /**
   * A normalized slice denotes a power of two exactly when its low limbs are
   * zero and its top limb is a power of two.
   */
  lemma PowerOfTwoLimbs(s: seq<nat>)
    requires AreLimbs(s) && Normalized(s)
    ensures PowerOfTwo(Value(s)) <==> AllZero(s[..|s| - 1]) && PowerOfTwo(s[|s| - 1])
  {
    var j := |s| - 1;
    var low, top := s[..j], s[j];
    assert Value(s) == Value(low) + Pow(Base, j) * top by {
      ValueSplit(s, j);
      assert s[j..] == [top];
      assert Value([top]) == top + Base * Value([top][1..]);
    }
    ValueZero(low);
    ValueBound(low);
    BasePow(j);
    if AllZero(low) && PowerOfTwo(top) {
      PowerFromTop(Value(s), Value(low), Pow(Base, j), top, j);
    }
    if PowerOfTwo(Value(s)) {
      TopFromPower(Value(s), Value(low), Pow(Base, j), top, j);
    }
  }

  /** 2^(32 j) times a power of two is a power of two. */
  lemma PowerFromTop(v: nat, l: nat, pj: nat, top: nat, j: nat)
    requires l == 0 && v == l + pj * top && pj == Pow2(Width * j) && PowerOfTwo(top)
    ensures PowerOfTwo(v)
  {
    var k: nat :| Pow2(k) == top;
    PowAdd(2, Width * j, k);
    assert Pow2(Width * j + k) == v;
  }

  /** A power of two at least 2^(32 j) has no bits below position 32 j. */
  lemma TopFromPower(v: nat, l: nat, pj: nat, top: nat, j: nat)
    requires l < pj && v == l + pj * top && top > 0 && pj == Pow2(Width * j) && PowerOfTwo(v)
    ensures l == 0 && PowerOfTwo(top)
  {
    var m: nat :| Pow2(m) == v;
    assert Width * j <= m by {
      if m < Width * j {
        PowMonotone(2, m + 1, Width * j);
        assert Pow2(m + 1) == 2 * Pow2(m);
        MulPositive(pj, top);
      }
    }
    PowAdd(2, Width * j, m - Width * j);
    TopCarriesAll(l, pj, top, Pow2(m - Width * j));
  }

  /** The arithmetic of `PowerOfTwoLimbs`: L + P t = P u with 0 <= L < P forces L = 0 and t = u. */
  lemma TopCarriesAll(l: int, p: int, t: int, u: int)
    requires 0 <= l < p && l + p * t == p * u
    ensures l == 0 && t == u
  {
    ModUnique(l + p * t, p, t, l);
    ModUnique(p * u, p, u, 0);
  }

  /**
   * `Natural::is_power_of_two`: a `Small` value uses the primitive check, a
   * `Large` one the limb check.
   */
  method NaturalIsPowerOfTwo(n: Natural) returns (r: bool)
    requires WellFormed(n)
    ensures r <==> PowerOfTwo(ToNat(n))
  {
    match n
    case Small(v) =>
      r := U32IsPowerOfTwo(v);
    case Large(limbs) =>
      var o := LimbsIsPowerOfTwo(limbs);
      r := o.value;
  }

  /** Zero is not a power of two. */
  lemma ZeroIsNotPowerOfTwo()
    ensures !PowerOfTwo(0)
  {
  }

  /** The limb examples: [3] and [1, 8] and [0, 10] are not powers of two; [0, 8] = 2^35 is. */
  lemma LimbsIsPowerOfTwoExamples()
    ensures !PowerOfTwo(Value([3]))
    ensures PowerOfTwo(Value([0, 8]))
    ensures !PowerOfTwo(Value([1, 8]))
    ensures !PowerOfTwo(Value([0, 10]))
  {
    PowerOfTwoLimbs([3]);
    assert CountOnes(3) == 2;
    OneBitIffPowerOfTwo(3);
    PowerOfTwoLimbs([0, 8]);
    assert [0, 8][..1] == [0];
    assert Pow2(3) == 8;
    PowerOfTwoLimbs([1, 8]);
    assert [1, 8][..1][0] == 1;
    PowerOfTwoLimbs([0, 10]);
    assert [0, 10][..1] == [0];
    assert CountOnes(10) == 2;
    OneBitIffPowerOfTwo(10);
  }

  /** The Natural examples: 0 and 123 are not powers of two; 0x80 is. */
  lemma SmallIsPowerOfTwoExamples()
    ensures !PowerOfTwo(ToNat(Small(0)))
    ensures !PowerOfTwo(ToNat(Small(123)))
    ensures PowerOfTwo(ToNat(Small(0x80)))
  {
    assert CountOnes(7) == 3;
    assert CountOnes(30) == 4;
    assert CountOnes(123) == 6;
    OneBitIffPowerOfTwo(123);
    assert Pow2(7) == 0x80;
  }

  /** 10^12, two limbs with a nonzero low limb, is not a power of two. */
  lemma TrillionIsNotPowerOfTwo()
    ensures ToNat(Large([0xd4a5_1000, 0xe8])) == 1_000_000_000_000
    ensures !PowerOfTwo(ToNat(Large([0xd4a5_1000, 0xe8])))
  {
    assert [0xd4a5_1000, 0xe8][1..] == [0xe8];
    PowerOfTwoLimbs([0xd4a5_1000, 0xe8]);
    assert [0xd4a5_1000, 0xe8][..1][0] != 0;
  }

  /** 2^40 = [0, 0x100] is a power of two. */
  lemma TwoToTheFortyIsPowerOfTwo()
    ensures ToNat(Large([0, 0x100])) == 1_099_511_627_776
    ensures PowerOfTwo(ToNat(Large([0, 0x100])))
  {
    assert [0, 0x100][1..] == [0x100];
    PowerOfTwoLimbs([0, 0x100]);
    assert [0, 0x100][..1] == [0];
    assert Pow2(8) == 0x100 by { assert Pow2(4) == 16; PowAdd(2, 4, 4); }
  }
}
