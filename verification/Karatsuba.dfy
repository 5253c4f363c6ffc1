/**
 * Toom-22 (Karatsuba) multiplication at the value level, and the signed
 * difference `abs_sub_n` the higher Toom variants use.
 *
 * With X = X0 + B^n X1 and Y = Y0 + B^n Y1, Toom-22 forms v0 = X0 Y0,
 * vinf = X1 Y1 and vm1 = |X0 - X1| |Y0 - Y1|, remembers whether
 * (X0 - X1)(Y0 - Y1) is negative, and recombines
 * X Y = v0 + B^n (v0 + vinf -/+ vm1) + B^2n vinf.
 */
module Karatsuba {
  import opened Limbs
  import opened ToomSizes
  import opened Modular

  /**
   * Comparing a with the shorter b: a is smaller exactly when its limbs above
   * |b| are zero and its low |b| limbs are smaller.
   */
  lemma ShortCompare(a: seq<nat>, b: seq<nat>)
    requires AreLimbs(a) && AreLimbs(b) && |b| <= |a|
    ensures (AllZero(a[|b|..]) && Value(a[..|b|]) < Value(b)) <==> Value(a) < Value(b)
  {
    var m := |b|;
    ValueSplit(a, m);
    ValueZero(a[m..]);
    ValueBound(b);
    CompareCore(Value(a[..m]), Value(a[m..]), Pow(Base, m), Value(b));
  }

  /** The arithmetic of `ShortCompare`: with b < p, lo + p hi < b needs hi = 0. */
  lemma CompareCore(lo: nat, hi: nat, p: nat, b: nat)
    requires b < p
    ensures (hi == 0 && lo < b) <==> lo + p * hi < b
  {
    if hi > 0 {
      assert p * hi == p * (hi - 1) + p;
    }
  }

  /**
   * Whether X0 < X1 as Toom-22 decides it: a plain comparison when the halves
   * are equally long, else the top limb of X0 must be zero and its other
   * limbs smaller than X1.
   */
  function XNegative(xs0: seq<nat>, xs1: seq<nat>): (r: bool)
    requires AreLimbs(xs0) && AreLimbs(xs1) && 0 < |xs1| <= |xs0| <= |xs1| + 1
    ensures r <==> Value(xs0) < Value(xs1)
  {
    var s := |xs1|;
    if s == |xs0| then Value(xs0) < Value(xs1)
    else
      ShortCompare(xs0, xs1);
      assert AllZero(xs0[s..]) <==> xs0[s] == 0 by {
        assert xs0[s..] == [xs0[s]];
      }
      xs0[s] == 0 && Value(xs0[..s]) < Value(xs1)
  }

  /**
   * Whether Y0 < Y1 as Toom-22 decides it: a plain comparison when the halves
   * are equally long, else `limbs_test_zero` on the limbs of Y0 above t and a
   * comparison of the rest.
   */
  function YNegative(ys0: seq<nat>, ys1: seq<nat>): (r: bool)
    requires AreLimbs(ys0) && AreLimbs(ys1) && |ys1| <= |ys0|
    ensures r <==> Value(ys0) < Value(ys1)
  {
    var t := |ys1|;
    if t == |ys0| then Value(ys0) < Value(ys1)
    else
      ShortCompare(ys0, ys1);
      AllZero(ys0[t..]) && Value(ys0[..t]) < Value(ys1)
  }

  /**
   * `_limbs_mul_greater_to_out_toom_22` on the values of its operands: `None`
   * when its asserts reject the lengths, otherwise the product, which fits
   * in |xs| + |ys| limbs. The three half-size products are exact (the
   * recursive calls are themselves multiplications).
   */
  function Toom22Mul(xs: seq<nat>, ys: seq<nat>): (r: Option<nat>)
    requires AreLimbs(xs) && AreLimbs(ys)
    ensures r.Some? <==> Toom22Valid(|xs|, |ys|)
    ensures r.Some? ==> r.value == Value(xs) * Value(ys)
    ensures r.Some? ==> r.value < Pow(Base, |xs| + |ys|)
  {
    match Toom22Split(|xs|, |ys|)
    case None => None
    case Some(sp) =>
      var n := sp.n;
      var x0, x1 := Value(xs[..n]), Value(xs[n..]);
      var y0, y1 := Value(ys[..n]), Value(ys[n..]);
      var negative := XNegative(xs[..n], xs[n..]) != YNegative(ys[..n], ys[n..]);
      var asm1, bsm1 := AbsInt(x0 - x1), AbsInt(y0 - y1);
      var r := Recombine22(x0 * y0, x1 * y1, asm1 * bsm1, negative, Pow(Base, n));
      Toom22Recovers(xs, ys, n, negative);
      var product: nat := Value(xs) * Value(ys);
      assert r == product;
      Some(r)
  }

  /** The recombination v0 + B^n (v0 + vinf -/+ vm1) + B^2n vinf, with b = B^n. */
  function Recombine22(v0: int, vinf: int, vm1: int, negative: bool, b: int): int
  {
    var mid := if negative then v0 + vinf + vm1 else v0 + vinf - vm1;
    v0 + b * mid + b * b * vinf
  }

  /** With the sign flag set as Toom-22 sets it, the recombination is the product, which fits. */
  lemma Toom22Recovers(xs: seq<nat>, ys: seq<nat>, n: nat, negative: bool)
    requires AreLimbs(xs) && AreLimbs(ys) && n <= |xs| && n <= |ys|
    requires negative <==> (Value(xs[..n]) < Value(xs[n..])) != (Value(ys[..n]) < Value(ys[n..]))
    ensures var x0, x1, y0, y1 := Value(xs[..n]), Value(xs[n..]), Value(ys[..n]), Value(ys[n..]);
      Recombine22(x0 * y0, x1 * y1, AbsInt(x0 - x1) * AbsInt(y0 - y1), negative, Pow(Base, n))
        == Value(xs) * Value(ys)
    ensures 0 <= Value(xs) * Value(ys) < Pow(Base, |xs| + |ys|)
  {
    var x0, x1, y0, y1 := Value(xs[..n]), Value(xs[n..]), Value(ys[..n]), Value(ys[n..]);
    ToomProductFacts(xs, ys, n);
    Recombine22Product(x0, x1, y0, y1, Pow(Base, n), negative, Value(xs), Value(ys));
    MulMonotone(Value(xs), 0, Value(ys));
  }

  /** Recombine22 on the three products of halves gives the product of the wholes. */
  lemma Recombine22Product(x0: int, x1: int, y0: int, y1: int, b: int, negative: bool, x: int, y: int)
    requires x == x0 + b * x1 && y == y0 + b * y1
    requires negative <==> (x0 < x1) != (y0 < y1)
    ensures Recombine22(x0 * y0, x1 * y1, AbsInt(x0 - x1) * AbsInt(y0 - y1), negative, b) == x * y
  {
    KaratsubaIdentity(x0, x1, y0, y1, b, x0 < x1, y0 < y1);
    SubstituteProduct(x, y, x0 + b * x1, y0 + b * y1);
  }

  lemma SubstituteProduct(x: int, y: int, x': int, y': int)
    requires x == x' && y == y'
    ensures x * y == x' * y'
  {
  }

  /** The operands are their halves recombined, and their product fits. */
  lemma ToomProductFacts(xs: seq<nat>, ys: seq<nat>, n: nat)
    requires AreLimbs(xs) && AreLimbs(ys) && n <= |xs| && n <= |ys|
    ensures Value(xs) == Value(xs[..n]) + Pow(Base, n) * Value(xs[n..])
    ensures Value(ys) == Value(ys[..n]) + Pow(Base, n) * Value(ys[n..])
    ensures Value(xs) * Value(ys) < Pow(Base, |xs| + |ys|)
  {
    ValueSplit(xs, n);
    ValueSplit(ys, n);
    ValueBound(xs);
    ValueBound(ys);
    PowAdd(Base, |xs|, |ys|);
    ProductBelow(Value(xs), Value(ys), Pow(Base, |xs|), Pow(Base, |ys|));
  }

  lemma ProductBelow(a: nat, b: nat, p: nat, q: nat)
    requires a < p && b < q
    ensures a * b < p * q
  {
    assert a * b <= a * q;
    assert a * q < p * q;
  }

  /**
   * Karatsuba's identity with the sign of vm1 taken from the two comparisons:
   * the middle coefficient X0 Y1 + X1 Y0 is v0 + vinf - (X0 - X1)(Y0 - Y1).
   */
  lemma KaratsubaIdentity(x0: int, x1: int, y0: int, y1: int, b: int, negX: bool, negY: bool)
    requires negX <==> x0 < x1
    requires negY <==> y0 < y1
    ensures var vm1 := AbsInt(x0 - x1) * AbsInt(y0 - y1);
            var mid := if negX != negY then x0 * y0 + x1 * y1 + vm1 else x0 * y0 + x1 * y1 - vm1;
            (x0 + b * x1) * (y0 + b * y1) == x0 * y0 + b * mid + b * b * (x1 * y1)
            && mid == x0 * y1 + x1 * y0
  {
    SignedProduct(x0 - x1, y0 - y1);
    ExpandHalves(x0, x1, y0, y1, b);
  }

  lemma SignedProduct(dx: int, dy: int)
    ensures (dx < 0) != (dy < 0) ==> dx * dy == -(AbsInt(dx) * AbsInt(dy))
    ensures (dx < 0) == (dy < 0) ==> dx * dy == AbsInt(dx) * AbsInt(dy)
  {
    if dx < 0 && dy >= 0 {
      assert dx * dy == -((-dx) * dy);
    } else if dx >= 0 && dy < 0 {
      assert dx * dy == -(dx * (-dy));
    } else if dx < 0 && dy < 0 {
      assert dx * dy == (-dx) * (-dy);
    }
  }

  lemma ExpandHalves(x0: int, x1: int, y0: int, y1: int, b: int)
    ensures (x0 + b * x1) * (y0 + b * y1) == x0 * y0 + b * (x0 * y1 + x1 * y0) + b * b * (x1 * y1)
    ensures x0 * y1 + x1 * y0 == x0 * y0 + x1 * y1 - (x0 - x1) * (y0 - y1)
  {
    assert (x0 + b * x1) * (y0 + b * y1) == x0 * (y0 + b * y1) + (b * x1) * (y0 + b * y1);
    assert (x0 - x1) * (y0 - y1) == x0 * y0 - x0 * y1 - x1 * y0 + x1 * y1;
  }

  /**
   * `abs_sub_n`: scans from the most significant limb; at the first limb
   * where the operands differ it subtracts the prefixes in the right order,
   * and the limbs above it, equal in both, give zeros. Returns whether
   * xs < ys; equal operands give zero and `false`. Operands of different
   * lengths fail the source's length assertion: `None`.
   */
  method AbsSubN(xs: seq<nat>, ys: seq<nat>) returns (r: Option<(seq<nat>, bool)>)
    requires AreLimbs(xs) && AreLimbs(ys)
    ensures r.Some? <==> |xs| == |ys|
    ensures r.Some? ==> |r.value.0| == |xs| && AreLimbs(r.value.0)
    ensures r.Some? ==> Value(r.value.0) == AbsInt(Value(xs) - Value(ys))
    ensures r.Some? ==> (r.value.1 <==> Value(xs) < Value(ys))
  {
    if |xs| != |ys| {
      return None;
    }
    var n := |xs|;
    var i := n;
    while i > 0
      invariant 0 <= i <= n
      invariant xs[i..] == ys[i..]
      decreases i
    {
      var x, y := xs[i - 1], ys[i - 1];
      if x != y {
        var m := i;
        AbsSubFacts(xs, ys, m);
        var d: nat;
        var negative: bool;
        if x > y {
          d := Value(xs[..m]) - Value(ys[..m]);
          negative := false;
        } else {
          d := Value(ys[..m]) - Value(xs[..m]);
          negative := true;
        }
        return Some((PadZeros(d, m, n), negative));
      }
      assert xs[i - 1..] == [x] + xs[i..];
      assert ys[i - 1..] == [y] + ys[i..];
      i := i - 1;
    }
    assert xs == ys;
    var zeros := seq(n, _ => 0);
    ValueZero(zeros);
    return Some((zeros, false));
  }

  /**
   * When xs and ys agree above limb m and differ at limb m - 1, their
   * difference is that of their low m limbs, and limb m - 1 decides the order.
   */
  lemma AbsSubFacts(xs: seq<nat>, ys: seq<nat>, m: nat)
    requires AreLimbs(xs) && AreLimbs(ys) && |xs| == |ys| && 0 < m <= |xs|
    requires xs[m..] == ys[m..] && xs[m - 1] != ys[m - 1]
    ensures Value(xs) - Value(ys) == Value(xs[..m]) - Value(ys[..m])
    ensures Value(xs) < Value(ys) <==> xs[m - 1] < ys[m - 1]
    ensures Value(xs[..m]) < Pow(Base, m) && Value(ys[..m]) < Pow(Base, m)
  {
    ValueSplit(xs, m);
    ValueSplit(ys, m);
    TopLimbDecides(xs[..m], ys[..m]);
    ValueBound(xs[..m]);
    ValueBound(ys[..m]);
  }

  /** The m low limbs of d followed by zeros up to n limbs. */
  function PadZeros(d: nat, m: nat, n: nat): (out: seq<nat>)
    requires m <= n && d < Pow(Base, m)
    ensures |out| == n && AreLimbs(out) && Value(out) == d
  {
    var zeros: seq<nat> := seq(n - m, _ => 0);
    ValueZero(zeros);
    ToLimbsValue(d, m);
    ValueAppend(ToLimbs(d, m), zeros);
    ToLimbs(d, m) + zeros
  }

  /** Slices that differ in their top limb compare as their top limbs do. */
  lemma TopLimbDecides(a: seq<nat>, b: seq<nat>)
    requires AreLimbs(a) && AreLimbs(b) && |a| == |b| > 0 && a[|a| - 1] != b[|b| - 1]
    ensures Value(a) < Value(b) <==> a[|a| - 1] < b[|b| - 1]
  {
    var k := |a| - 1;
    ValueSplit(a, k);
    ValueSplit(b, k);
    ValueBound(a[..k]);
    ValueBound(b[..k]);
    SingleLimb(a[k..]);
    SingleLimb(b[k..]);
    TopCore(Value(a[..k]), Value(b[..k]), Pow(Base, k), a[k], b[k]);
  }

  lemma SingleLimb(s: seq<nat>)
    requires |s| == 1
    ensures Value(s) == s[0]
  {
    assert Value(s) == s[0] + Base * Value(s[1..]);
  }

  /** The arithmetic of `TopLimbDecides`: low parts below p cannot outweigh a differing top digit. */
  lemma TopCore(la: nat, lb: nat, p: nat, ta: nat, tb: nat)
    requires la < p && lb < p && ta != tb
    ensures la + p * ta < lb + p * tb <==> ta < tb
  {
    if ta < tb {
      TopGap(la, lb, p, ta, tb);
    } else {
      TopGap(lb, la, p, tb, ta);
    }
  }

  lemma TopGap(la: nat, lb: nat, p: nat, ta: nat, tb: nat)
    requires la < p && ta < tb
    ensures la + p * ta < lb + p * tb
  {
    var d := tb - ta;
    assert p * tb == p * ta + p * d;
    assert p * d >= p by {
      assert p * d == p * (d - 1) + p;
    }
  }

  /**
   * `limbs_abs_sub_add_same_length`: |xs - ys| and its sign as `abs_sub_n`
   * gives them, and xs + ys in place of xs; `None` is a failed assert:
   * operands of different lengths, or a sum that carries out of n limbs.
   */
  method AbsSubAdd(xs: seq<nat>, ys: seq<nat>) returns (r: Option<(seq<nat>, seq<nat>, bool)>)
    requires AreLimbs(xs) && AreLimbs(ys)
    ensures r.Some? <==> |xs| == |ys| && Value(xs) + Value(ys) < Pow(Base, |xs|)
    ensures r.Some? ==> Value(r.value.0) == AbsInt(Value(xs) - Value(ys)) && |r.value.0| == |xs|
    ensures r.Some? ==> Value(r.value.1) == Value(xs) + Value(ys) && |r.value.1| == |xs|
    ensures r.Some? ==> (r.value.2 <==> Value(xs) < Value(ys))
  {
    var diff := AbsSubN(xs, ys);
    if diff.None? {
      return None;
    }
    var sum := Value(xs) + Value(ys);
    if sum >= Pow(Base, |xs|) {
      return None;
    }
    ToLimbsValue(sum, |xs|);
    return Some((diff.value.0, ToLimbs(sum, |xs|), diff.value.1));
  }

}
