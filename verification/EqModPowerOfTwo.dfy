/**
 * Whether two Integers agree modulo 2^pow. Operands of different signs reduce
 * to the limb scan `limbs_eq_mod_power_of_two_neg_pos`, which decides
 * x = -y (mod 2^pow) by comparing the limbs of x against the two's-complement
 * negation of y, produced one limb at a time.
 */
module EqModPowerOfTwo {
  import opened Limbs
  import opened Modular
  import opened Integers
  import opened Naturals

  /** `pow` is a `u64`. */
  predicate IsU64(v: nat) { v < 0x1_0000_0000_0000_0000 }

  /** The carry a scan passes on: 1 once a nonzero limb of y has been seen. */
  function Carry(seen: bool): nat { if seen then 1 else 0 }

  /** Limb i of a slice, or 0 past its end. */
  function LimbOrZero(s: seq<nat>, i: nat): nat { if i < |s| then s[i] else 0 }

  /** x = -y (mod 2^pow): the meaning of every `neg_pos` routine. */
  predicate NegEquivalent(x: nat, y: nat, pow: nat)
  {
    (x + y) % Pow2(pow) == 0
  }

  /** `Limb::wrapping_neg`. */
  function WrappingNeg(v: nat): (r: nat)
    requires IsLimb(v)
    ensures IsLimb(r) && (v + r) % Base == 0
  {
    if v == 0 then 0 else ModUnique(Base, Base, 1, 0); Base - v
  }

  /**
   * The invariant of the scan after j limbs: if the low j limbs of y are
   * zero, so are those of x; otherwise the low parts add up to exactly B^j,
   * i.e. a carry leaves position j.
   */
  predicate ScanInvariant(xs: seq<nat>, ys: seq<nat>, j: nat, seen: bool)
    requires j <= |xs|
  {
    && (seen <==> Low(ys, j) != 0)
    && Value(xs[..j]) + Low(ys, j) == (if seen then Pow(Base, j) else 0)
  }

  /**
   * Limb j of -y as the scan produces it, given whether a nonzero limb of y
   * lies below j: zeros stay zero, the first nonzero limb is negated, every
   * later limb is complemented, and positions past the end of y are all ones.
   */
  function NegLimb(ys: seq<nat>, j: nat, seen: bool): (y: nat)
    requires AreLimbs(ys)
    ensures IsLimb(y)
  {
    if j >= |ys| then MaxLimb
    else if seen then MaxLimb - ys[j]
    else if ys[j] == 0 then 0
    else WrappingNeg(ys[j])
  }

  /** The low n limbs of the two's-complement negation of y, limb by limb. */
  function Negation(ys: seq<nat>, n: nat): (r: seq<nat>)
    requires AreLimbs(ys)
    ensures |r| == n
  {
    if n == 0 then [] else Negation(ys, n - 1) + [NegLimb(ys, n - 1, Low(ys, n - 1) != 0)]
  }

  /**
   * The limbs produced by `NegLimb` are -y modulo B^n: added to the low n
   * limbs of y they give exactly B^n, or 0 when those limbs are all zero.
   */
  lemma {:induction false} NegationComplement(ys: seq<nat>, n: nat)
    requires AreLimbs(ys) && Normalized(ys)
    ensures AreLimbs(Negation(ys, n))
    ensures Value(Negation(ys, n)) + Low(ys, n) == (if Low(ys, n) != 0 then Pow(Base, n) else 0)
  {
    if n > 0 {
      var j := n - 1;
      NegationComplement(ys, j);
      var xs := Negation(ys, n);
      var seen := Low(ys, j) != 0;
      assert xs[..j] == Negation(ys, j);
      assert AreLimbs(xs) by {
        forall i | 0 <= i < n ensures xs[i] < Base {
          if i < j { assert xs[i] == Negation(ys, j)[i]; }
        }
      }
      var y := xs[j];
      var seen' := seen || (j < |ys| && ys[j] != 0);
      if j >= |ys| { SeenPastEnd(ys, j, seen); }
      ScanStep(xs, ys, j, seen, seen', y);
      assert xs[..n] == xs;
    }
  }

  /**
   * `limbs_eq_mod_power_of_two_neg_pos_greater`: xs is the longer operand;
   * both slices are normalized.
   */
  method NegPosGreater(xs: seq<nat>, ys: seq<nat>, pow: nat) returns (r: bool)
    requires AreLimbs(xs) && AreLimbs(ys) && IsU64(pow)
    requires Normalized(xs) && Normalized(ys)
    requires |ys| <= |xs|
    ensures r <==> NegEquivalent(Value(xs), Value(ys), pow)
  {
    var i := pow / 32;
    var smallPow := pow % 32;
    if i > |xs| || (i == |xs| && smallPow != 0) {
      TooLongNeverEquivalent(xs, ys, pow);
      return false;
    }
    var seen := false;
    var j := 0;
    while j < i
      invariant 0 <= j <= i
      invariant ScanInvariant(xs, ys, j, seen)
    {
      var c := Carry(seen);
      var yj := LimbOrZero(ys, j);
      var y: nat;
      if j >= |ys| {
        SeenPastEnd(ys, j, seen);
        y := MaxLimb;
      } else if seen {
        y := MaxLimb - ys[j];
      } else if ys[j] == 0 {
        y := 0;
      } else {
        seen := true;
        y := WrappingNeg(ys[j]);
      }
      assert c + yj + y == (if seen then Base else 0);
      if xs[j] != y {
        assert Width * (j + 1) <= pow;
        MismatchNotEquivalent(xs, ys, pow, j, c == 1);
        return false;
      }
      ScanStep(xs, ys, j, c == 1, seen, y);
      j := j + 1;
    }
    if smallPow == 0 {
      FullLimbsEquivalent(xs, ys, pow, seen);
      return true;
    }
    var c := Carry(seen);
    var yi := LimbOrZero(ys, i);
    var y: nat;
    if i >= |ys| {
      SeenPastEnd(ys, i, seen);
      y := MaxLimb;
    } else if seen {
      y := MaxLimb - ys[i];
    } else {
      y := WrappingNeg(ys[i]);
    }
    assert (c + yi + y) % Base == 0 by {
      if c + yi + y == Base { ModUnique(Base, Base, 1, 0); }
    }
    r := xs[i] % Pow2(smallPow) == y % Pow2(smallPow);
    PartialLimbDecides(xs, ys, pow, i, smallPow, seen, y);
  }

  /** Once j reaches the end of ys, the low part of y is all of y, which is nonzero. */
  lemma SeenPastEnd(ys: seq<nat>, j: nat, seen: bool)
    requires Normalized(ys) && j >= |ys|
    requires seen <==> Low(ys, j) != 0
    ensures seen
  {
    assert ys[..|ys|] == ys;
    NormalizedPositive(ys);
  }

  /** Both operands are below 2^(32 |xs|), so their positive sum is below 2^pow. */
  lemma TooLongNeverEquivalent(xs: seq<nat>, ys: seq<nat>, pow: nat)
    requires AreLimbs(xs) && AreLimbs(ys) && Normalized(ys) && |ys| <= |xs|
    requires pow > Width * |xs|
    ensures !NegEquivalent(Value(xs), Value(ys), pow)
  {
    ValueBound(xs);
    ValueBound(ys);
    PowMonotone(Base, |ys|, |xs|);
    NormalizedPositive(ys);
    BasePow(|xs|);
    PowMonotone(2, Width * |xs| + 1, pow);
    SmallNotDivisible(Value(xs) + Value(ys), Pow2(pow));
  }

  /** One more matching limb keeps the scan invariant. */
  lemma ScanStep(xs: seq<nat>, ys: seq<nat>, j: nat, seen: bool, seen': bool, y: nat)
    requires AreLimbs(xs) && AreLimbs(ys) && j < |xs|
    requires ScanInvariant(xs, ys, j, seen)
    requires xs[j] == y
    requires Carry(seen) + LimbOrZero(ys, j) + y == (if seen' then Base else 0)
    requires seen' == (seen || (j < |ys| && ys[j] != 0))
    ensures ScanInvariant(xs, ys, j + 1, seen')
  {
    var pj := Pow(Base, j);
    var c := Carry(seen);
    var yj := LimbOrZero(ys, j);
    PrefixStep(xs, j);
    LowStep(ys, j);
    var lx, ly := Value(xs[..j]), Low(ys, j);
    SumSplit(Value(xs[..j + 1]), Low(ys, j + 1), lx, ly, xs[j], yj, pj);
    StepArith(lx + ly, pj, c, y + yj, if seen' then Base else 0);
    assert Pow(Base, j + 1) == pj * Base;
    if j < |ys| && ys[j] != 0 {
      MulPositive(pj, ys[j]);
    }
  }

  lemma StepArith(s: int, pj: nat, c: int, t: int, u: int)
    requires s == pj * c && c + t == u
    ensures s + pj * t == pj * u
  {
  }

  /** The arithmetic of a mismatching limb: see `MismatchNotEquivalent`. */
  lemma MismatchArith(total: int, hi: int, pj: nat, m: nat, d: int, k: nat, modulus: nat)
    requires pj > 0 && k > 0 && m == pj * Base && modulus == m * k
    requires total == pj * d + m * hi
    requires 0 < d < 2 * Base && d != Base
    ensures total % modulus != 0
  {
    if total % (m * k) == 0 {
      DividesFactor(total, m, k);
      ModAddMultiple(pj * d, m, hi);
      ScaledDivides(d, pj, Base);
      if d < Base {
        SmallNotDivisible(d, Base);
      } else {
        SmallNotDivisible(d - Base, Base);
        ModAddMultiple(d - Base, Base, 1);
      }
    }
  }

  /** The low j+1 limbs of x + y, and the rest. */
  lemma SplitSum(xs: seq<nat>, ys: seq<nat>, j: nat)
    requires j <= |xs|
    ensures Value(xs) + Value(ys)
      == (Value(xs[..j]) + Low(ys, j)) + Pow(Base, j) * (High(xs, j) + High(ys, j))
  {
    LowHigh(xs, j);
    LowHigh(ys, j);
    assert xs[..j] == xs[..Min(j, |xs|)];
    SumSplit(Value(xs), Value(ys), Value(xs[..j]), Low(ys, j), High(xs, j), High(ys, j), Pow(Base, j));
  }

  /** The low j+1 limbs add up to B^j * (c + x_j + y_j) under the scan invariant. */
  lemma SplitLimb(xs: seq<nat>, ys: seq<nat>, j: nat, seen: bool)
    requires j < |xs|
    requires ScanInvariant(xs, ys, j, seen)
    ensures Value(xs[..j + 1]) + Low(ys, j + 1)
      == Pow(Base, j) * (Carry(seen) + xs[j] + LimbOrZero(ys, j))
  {
    var pj := Pow(Base, j);
    var yj := LimbOrZero(ys, j);
    PrefixStep(xs, j);
    LowStep(ys, j);
    SumSplit(Value(xs[..j + 1]), Low(ys, j + 1), Value(xs[..j]), Low(ys, j), xs[j], yj, pj);
    StepArith(Value(xs[..j]) + Low(ys, j), pj, Carry(seen), xs[j] + yj,
      Carry(seen) + xs[j] + yj);
  }

  /**
   * A limb that breaks the pattern: the low j+1 limbs sum to d * B^j with
   * d neither 0 nor B, so the sum is not divisible by B^(j+1), nor by 2^pow.
   */
  lemma MismatchNotEquivalent(xs: seq<nat>, ys: seq<nat>, pow: nat, j: nat, seen: bool)
    requires j < |xs| && Width * (j + 1) <= pow
    requires IsLimb(xs[j]) && (j < |ys| ==> IsLimb(ys[j]))
    requires ScanInvariant(xs, ys, j, seen)
    requires var d := Carry(seen) + xs[j] + LimbOrZero(ys, j);
      d != 0 && d != Base
    ensures !NegEquivalent(Value(xs), Value(ys), pow)
  {
    SplitAtLimb(xs, ys, j, seen);
    MismatchSplit(xs, ys, pow, j, seen);
  }

  /** MismatchNotEquivalent once the sum has been split at limb j. */
  lemma MismatchSplit(xs: seq<nat>, ys: seq<nat>, pow: nat, j: nat, seen: bool)
    requires j < |xs| && Width * (j + 1) <= pow
    requires IsLimb(xs[j]) && (j < |ys| ==> IsLimb(ys[j]))
    requires Value(xs) + Value(ys)
      == Pow(Base, j) * (Carry(seen) + xs[j] + LimbOrZero(ys, j))
       + Pow(Base, j + 1) * (High(xs, j + 1) + High(ys, j + 1))
    requires var d := Carry(seen) + xs[j] + LimbOrZero(ys, j);
      d != 0 && d != Base
    ensures !NegEquivalent(Value(xs), Value(ys), pow)
  {
    PowBaseStep(j);
    SplitPow2(pow, j + 1);
    MismatchArith(Value(xs) + Value(ys), High(xs, j + 1) + High(ys, j + 1), Pow(Base, j), Pow(Base, j + 1),
      Carry(seen) + xs[j] + LimbOrZero(ys, j), Pow2(pow - Width * (j + 1)), Pow2(pow));
  }

  /** pow = 32 i and the low i limbs sum to 0 or B^i: x = -y (mod 2^pow). */
  lemma FullLimbsEquivalent(xs: seq<nat>, ys: seq<nat>, pow: nat, seen: bool)
    requires pow % 32 == 0 && pow / 32 <= |xs|
    requires ScanInvariant(xs, ys, pow / 32, seen)
    ensures NegEquivalent(Value(xs), Value(ys), pow)
  {
    var i := pow / 32;
    var s := Value(xs[..i]) + Low(ys, i);
    LowSumSplit(xs, ys, i);
    FullScanSum(xs, ys, i, seen);
    FullArith(Value(xs) + Value(ys), s, Pow(Base, i), High(xs, i) + High(ys, i));
    FullPow(pow, i);
  }

  /** After a scan of whole limbs the low limbs sum to 0 or B^i. */
  lemma FullScanSum(xs: seq<nat>, ys: seq<nat>, i: nat, seen: bool)
    requires i <= |xs| && ScanInvariant(xs, ys, i, seen)
    ensures Value(xs[..i]) + Low(ys, i) == 0 || Value(xs[..i]) + Low(ys, i) == Pow(Base, i)
  {
  }

  lemma FullPow(pow: nat, i: nat)
    requires pow % 32 == 0 && i == pow / 32
    ensures Pow(Base, i) == Pow2(pow)
  {
    BasePow(i);
    assert Width * i == pow;
  }

  /** x + y split at limb i: the low limbs' sum plus B^i times the limbs above. */
  lemma LowSumSplit(xs: seq<nat>, ys: seq<nat>, i: nat)
    requires i <= |xs|
    ensures Value(xs) + Value(ys) == (Value(xs[..i]) + Low(ys, i)) + Pow(Base, i) * (High(xs, i) + High(ys, i))
  {
    LowHigh(xs, i);
    assert xs[..i] == xs[..Min(i, |xs|)];
    LowHigh(ys, i);
    SumSplit(Value(xs), Value(ys), Value(xs[..i]), Low(ys, i), High(xs, i), High(ys, i), Pow(Base, i));
  }

  lemma FullArith(total: int, s: int, m: nat, hi: int)
    requires m > 0 && total == s + m * hi && (s == 0 || s == m)
    ensures total % m == 0
  {
    ModAddMultiple(s, m, hi);
    if s == m { ModUnique(m, m, 1, 0); } else { ModUnique(0, m, 0, 0); }
  }

  /**
   * The arithmetic of the last, partial limb: total = m * (a + b * hi) with
   * a = c + x_i + y_i and b = B = pk * e, and c + y_i + y a multiple of B.
   */
  lemma PartialArith(total: int, m: nat, mb: nat, pk: nat, e: nat, b: nat, a: int, hi: int, xi: int, y: int, t: int)
    requires m > 0 && pk > 0 && e > 0 && b == pk * e && mb == m * b
    requires total == m * a + mb * hi
    requires a - xi + y == b * t
    ensures (xi % pk == y % pk) <==> total % (m * pk) == 0
  {
    FactorOut(total, m, a, b, hi);
    ScaledDivides(a + b * hi, m, pk);
    assert a + b * hi == a + pk * (e * hi);
    ModAddMultiple(a, pk, e * hi);
    assert xi - y == a + pk * (-(e * t));
    ModAddMultiple(a, pk, -(e * t));
    ModEqualIffDifference(xi, y, pk);
  }

  /** x + y = B^i * (c + x_i + y_i) + B^(i+1) * (the limbs above i). */
  lemma SplitAtLimb(xs: seq<nat>, ys: seq<nat>, i: nat, seen: bool)
    requires i < |xs|
    requires ScanInvariant(xs, ys, i, seen)
    ensures Value(xs) + Value(ys)
      == Pow(Base, i) * (Carry(seen) + xs[i] + LimbOrZero(ys, i))
       + Pow(Base, i + 1) * (High(xs, i + 1) + High(ys, i + 1))
  {
    SplitLimb(xs, ys, i, seen);
    SplitSum(xs, ys, i + 1);
  }

  /** The last limb's comparison, stated on numbers only. */
  lemma PartialCore(total: int, m: nat, mb: nat, a: int, hi: int, c: int, xi: int, yi: int, y: int, k: nat, modulus: nat)
    requires m > 0 && mb == m * Base && 0 < k < Width && modulus == m * Pow2(k)
    requires total == m * a + mb * hi
    requires a == c + xi + yi && (c + yi + y) % Base == 0
    ensures (xi % Pow2(k) == y % Pow2(k)) <==> total % modulus == 0
  {
    SplitBase(k);
    var t := (c + yi + y) / Base;
    ModUnique(c + yi + y, Base, t, 0);
    PartialArith(total, m, mb, Pow2(k), Pow2(Width - k), Base, a, hi, xi, y, t);
  }

  /**
   * pow = 32 i + k with 0 < k < 32: the low i limbs carry c into limb i, and
   * the answer is whether x_i + y_i + c is divisible by 2^k, which is what
   * comparing x_i with the negated limb y modulo 2^k decides.
   */
  lemma PartialLimbDecides(xs: seq<nat>, ys: seq<nat>, pow: nat, i: nat, k: nat, seen: bool, y: nat)
    requires pow == Width * i + k && 0 < k < Width && i < |xs|
    requires ScanInvariant(xs, ys, i, seen)
    requires (Carry(seen) + LimbOrZero(ys, i) + y) % Base == 0
    ensures (xs[i] % Pow2(k) == y % Pow2(k)) <==> NegEquivalent(Value(xs), Value(ys), pow)
  {
    SplitAtLimb(xs, ys, i, seen);
    PartialLimbSplit(xs, ys, pow, i, k, seen, y);
  }

  /** PartialLimbDecides once the sum has been split at limb i. */
  lemma PartialLimbSplit(xs: seq<nat>, ys: seq<nat>, pow: nat, i: nat, k: nat, seen: bool, y: nat)
    requires pow == Width * i + k && 0 < k < Width && i < |xs|
    requires Value(xs) + Value(ys)
      == Pow(Base, i) * (Carry(seen) + xs[i] + LimbOrZero(ys, i))
       + Pow(Base, i + 1) * (High(xs, i + 1) + High(ys, i + 1))
    requires (Carry(seen) + LimbOrZero(ys, i) + y) % Base == 0
    ensures (xs[i] % Pow2(k) == y % Pow2(k)) <==> NegEquivalent(Value(xs), Value(ys), pow)
  {
    PartialFinish(Value(xs) + Value(ys), pow, i, k, Carry(seen), xs[i], LimbOrZero(ys, i), y, High(xs, i + 1) + High(ys, i + 1));
  }

  /** The arithmetic half of PartialLimbDecides, once the sum has been split at limb i. */
  lemma PartialFinish(total: int, pow: nat, i: nat, k: nat, c: int, xi: int, yi: int, y: int, hi: int)
    requires pow == Width * i + k && 0 < k < Width
    requires total == Pow(Base, i) * (c + xi + yi) + Pow(Base, i + 1) * hi
    requires (c + yi + y) % Base == 0
    ensures (xi % Pow2(k) == y % Pow2(k)) <==> total % Pow2(pow) == 0
  {
    var m, mb := Pow(Base, i), Pow(Base, i + 1);
    assert mb == m * Base by { PowBaseStep(i); }
    assert Pow2(pow) == m * Pow2(k) by { SplitPow2Low(i, k); }
    PartialCore(total, m, mb, c + xi + yi, hi, c, xi, yi, y, k, Pow2(pow));
  }

  /**
   * `limbs_eq_mod_power_of_two_neg_pos`: the scan above with the longer
   * operand first. Since x + y is symmetric, so is the answer.
   */
  method NegPos(xs: seq<nat>, ys: seq<nat>, pow: nat) returns (r: bool)
    requires AreLimbs(xs) && AreLimbs(ys) && IsU64(pow)
    requires Normalized(xs) && Normalized(ys)
    ensures r <==> NegEquivalent(Value(xs), Value(ys), pow)
    ensures r <==> NegEquivalent(Value(ys), Value(xs), pow)
  {
    if |xs| >= |ys| {
      r := NegPosGreater(xs, ys, pow);
    } else {
      r := NegPosGreater(ys, xs, pow);
    }
  }

  /**
   * `Natural::eq_mod_power_of_two_neg_u32`, whose body is not part of this
   * model: it is taken at its documented meaning, x = -y (mod 2^pow).
   */
  function NegU32(x: Natural, y: nat, pow: nat): (r: bool)
    ensures r <==> NegEquivalent(ToNat(x), y, pow)
  {
    (ToNat(x) + y) % Pow2(pow) == 0
  }

  /**
   * `Natural::eq_mod_power_of_two` on two magnitudes, whose body is not part
   * of this model: it is taken at its documented meaning, equal low `pow` bits.
   */
  function NaturalEqMod(x: Natural, y: Natural, pow: nat): (r: bool)
    ensures r <==> (ToNat(x) - ToNat(y)) % Pow2(pow) == 0
  {
    ModEqualIffDifference(ToNat(x), ToNat(y), Pow2(pow));
    ToNat(x) % Pow2(pow) == ToNat(y) % Pow2(pow)
  }

  /**
   * `Natural::eq_mod_power_of_two_neg_pos`: a `Small` operand goes to the
   * single-limb routine, two `Large` operands to the limb scan.
   */
  method NaturalNegPos(x: Natural, y: Natural, pow: nat) returns (r: bool)
    requires Naturals.WellFormed(x) && Naturals.WellFormed(y) && IsU64(pow)
    ensures r <==> NegEquivalent(ToNat(x), ToNat(y), pow)
  {
    match (x, y)
    case (_, Small(v)) =>
      r := NegU32(x, v, pow);
    case (Small(u), _) =>
      r := NegU32(y, u, pow);
    case (Large(xs), Large(ys)) =>
      r := NegPos(xs, ys, pow);
  }

  /**
   * `Integer::eq_mod_power_of_two`: operands of equal sign compare their
   * magnitudes, operands of opposite sign ask whether one magnitude is the
   * negation of the other. Either way the answer is whether x - y is a
   * multiple of 2^pow.
   */
  method IntegerEqMod(x: Integer, y: Integer, pow: nat) returns (r: bool)
    requires IsU64(pow)
    ensures r <==> (ToInt(x) - ToInt(y)) % Pow2(pow) == 0
  {
    var a, b := FromNat(x.abs), FromNat(y.abs);
    if x.sign == y.sign {
      r := NaturalEqMod(a, b, pow);
      SameSignDifference(x, y, pow);
    } else {
      r := NaturalNegPos(a, b, pow);
      OppositeSignDifference(x, y, pow);
    }
  }

  lemma SameSignDifference(x: Integer, y: Integer, pow: nat)
    requires x.sign == y.sign
    ensures (ToInt(x) - ToInt(y)) % Pow2(pow) == 0 <==> (x.abs - y.abs) % Pow2(pow) == 0
  {
    if !x.sign {
      assert ToInt(x) - ToInt(y) == -(x.abs - y.abs);
      ModNegate(x.abs - y.abs, Pow2(pow));
    }
  }

  lemma OppositeSignDifference(x: Integer, y: Integer, pow: nat)
    requires x.sign != y.sign
    ensures (ToInt(x) - ToInt(y)) % Pow2(pow) == 0 <==> NegEquivalent(x.abs, y.abs, pow)
  {
    if !x.sign {
      assert ToInt(x) - ToInt(y) == -(x.abs + y.abs);
      ModNegate(x.abs + y.abs, Pow2(pow));
    }
  }

  /** The four limb examples of `limbs_eq_mod_power_of_two_neg_pos`. */
  lemma NegPosExamples()
    ensures NegEquivalent(Value([0xabcd_abcd, 0x1234_1234]), Value([0x5432_5433, 0xedcb_edcb]), 64)
    ensures !NegEquivalent(Value([0xabcd_abcd, 0x1234_1234]), Value([0, 0xedcb_edcb]), 64)
    ensures !NegEquivalent(Value([0xabcd_abcd, 0x1234_1234]), Value([0x5432_5433, 0xedcb_edcb]), 65)
    ensures !NegEquivalent(Value([0xabcd_abcd, 0x1234_1234]), Value([0x5432_5433, 0xedcb_edcb]), 128)
  {
    var x, y, z := Value([0xabcd_abcd, 0x1234_1234]), Value([0x5432_5433, 0xedcb_edcb]), Value([0, 0xedcb_edcb]);
    assert x == 0x1234_1234_abcd_abcd && y == 0xedcb_edcb_5432_5433 && z == 0xedcb_edcb_0000_0000 by {
      assert [0xabcd_abcd, 0x1234_1234][1..] == [0x1234_1234];
      assert [0x5432_5433, 0xedcb_edcb][1..] == [0xedcb_edcb];
      assert [0, 0xedcb_edcb][1..] == [0xedcb_edcb];
    }
    var p64 := 0x1_0000_0000_0000_0000;
    assert Pow2(64) == p64 by { BasePow(2); }
    assert Pow2(65) == 2 * p64;
    assert Pow2(128) == p64 * p64 by { BasePow(4); PowAdd(Base, 2, 2); BasePow(2); }
    ModUnique(x + y, p64, 1, 0);
    ModUnique(x + z, p64, 0, x + z);
    ModUnique(x + y, 2 * p64, 0, x + y);
    ModUnique(x + y, p64 * p64, 0, x + y);
  }

  /** The `Integer` examples: 0 = -256 (mod 2^8); -13 = 27 (mod 2^3) but not (mod 2^4). */
  lemma IntegerEqModExamples()
    ensures (ToInt(FromInt(0)) - ToInt(FromInt(-256))) % Pow2(8) == 0
    ensures (ToInt(FromInt(-13)) - ToInt(FromInt(27))) % Pow2(3) == 0
    ensures (ToInt(FromInt(-13)) - ToInt(FromInt(27))) % Pow2(4) != 0
  {
    assert Pow2(3) == 8 && Pow2(4) == 16;
    assert Pow2(8) == 256 by { assert Pow2(4) == 16; PowAdd(2, 4, 4); }
  }
}
