/**
 * Evaluation of the piece polynomials of Toom-Cook multiplication. An
 * operand split into pieces a_0 .. a_d of n limbs denotes a(x) = Σ a_i x^i
 * at x = B^n; the compute functions evaluate a at small points into n + 1
 * limbs and assert bounds on the top limb, which follow from every piece
 * being below P = B^n.
 */
module ToomEval {
  import opened Limbs
  import opened Modular

  /** a(k) for the coefficients a_0, a_1, ... (lowest first), by Horner's rule. */
  function Eval(a: seq<int>, k: int): int
  {
    if |a| == 0 then 0 else a[0] + k * Eval(a[1..], k)
  }

  /** The pieces in the opposite order: 2^d a(1 / 2) is `Eval(Reverse(a), 2)`. */
  function Reverse<T>(a: seq<T>): (r: seq<T>)
    ensures |r| == |a| && forall i :: 0 <= i < |a| ==> r[i] == a[|a| - 1 - i]
  {
    if |a| == 0 then [] else Reverse(a[1..]) + [a[0]]
  }

  predicate PiecesAtMost(a: seq<nat>, m: nat)
  {
    forall i :: 0 <= i < |a| ==> a[i] <= m
  }

  /**
   * The sum of the positive powers k^i, i < len, and the sum of the absolute
   * values of the negative ones: a(k) lies between -NegWeight m and PosWeight m
   * when every piece is at most m.
   */
  function PosWeight(len: nat, k: int): nat
  {
    if len == 0 then 0
    else if k >= 0 then 1 + k * PosWeight(len - 1, k)
    else 1 + (-k) * NegWeight(len - 1, k)
  }

  function NegWeight(len: nat, k: int): nat
  {
    if len == 0 then 0
    else if k >= 0 then k * NegWeight(len - 1, k)
    else (-k) * PosWeight(len - 1, k)
  }

  /** Pieces at most m keep a(k) within -NegWeight m .. PosWeight m. */
  lemma {:induction false} EvalBounds(a: seq<nat>, k: int, m: nat)
    requires PiecesAtMost(a, m)
    ensures Eval(a, k) + NegWeight(|a|, k) * m >= 0
    ensures Eval(a, k) <= PosWeight(|a|, k) * m
  {
    if |a| > 0 {
      var rest := a[1..];
      assert PiecesAtMost(rest, m) by {
        forall i | 0 <= i < |rest| ensures rest[i] <= m {
          assert rest[i] == a[i + 1];
        }
      }
      EvalBounds(rest, k, m);
      assert a[0] <= m;
      if k >= 0 {
        EvalStepUp(a[0], m, k, Eval(rest, k), PosWeight(|rest|, k), NegWeight(|rest|, k));
      } else {
        var e := Eval(rest, k);
        EvalStepDown(a[0], m, -k, e, PosWeight(|rest|, k), NegWeight(|rest|, k));
        assert k * e == -((-k) * e);
      }
    }
  }

  /** One Horner step at a point c >= 0 scales both weights by c and adds the new piece. */
  lemma EvalStepUp(a0: nat, m: nat, c: nat, e: int, pw: nat, nw: nat)
    requires a0 <= m && e + nw * m >= 0 && e <= pw * m
    ensures a0 + c * e + (c * nw) * m >= 0
    ensures a0 + c * e <= (1 + c * pw) * m
  {
    ScaleBounds(c, -(nw * m), e, pw * m);
    assert c * (pw * m) == (c * pw) * m;
    assert c * (nw * m) == (c * nw) * m;
  }

  /** One Horner step at a point -c < 0 swaps the weights: the positive side gains the new piece. */
  lemma EvalStepDown(a0: nat, m: nat, c: nat, e: int, pw: nat, nw: nat)
    requires a0 <= m && e + nw * m >= 0 && e <= pw * m
    ensures a0 - c * e + (c * pw) * m >= 0
    ensures a0 - c * e <= (1 + c * nw) * m
  {
    ScaleBounds(c, -(nw * m), e, pw * m);
    assert c * (pw * m) == (c * pw) * m;
    assert c * (nw * m) == (c * nw) * m;
  }

  lemma ScaleBounds(c: nat, lo: int, e: int, hi: int)
    requires lo <= e <= hi
    ensures c * lo <= c * e <= c * hi
  {
    assert c * e - c * lo == c * (e - lo);
    assert c * hi - c * e == c * (hi - e);
  }

  /**
   * A value of n + 1 limbs whose size is below w P, P = B^n, has a top limb
   * of at most w - 1.
   */
  function TopLimb(v: int, p: nat): nat
    requires p > 0
  {
    AbsInt(v) / p
  }

  /** |a(k)| with pieces below P has a top limb of at most max(PosWeight, NegWeight) - 1. */
  lemma TopLimbBound(a: seq<nat>, k: int, p: nat, w: nat)
    requires p > 0 && w > 0 && PiecesAtMost(a, p - 1)
    requires PosWeight(|a|, k) <= w && NegWeight(|a|, k) <= w
    ensures TopLimb(Eval(a, k), p) <= w - 1
  {
    var m: nat := p - 1;
    EvalBounds(a, k, m);
    var v := AbsInt(Eval(a, k));
    assert v <= w * m by {
      var pw, nw := PosWeight(|a|, k), NegWeight(|a|, k);
      MulMonotone(m, pw, w);
      MulMonotone(m, nw, w);
      assert pw * m <= w * m && nw * m <= w * m;
    }
    MulLessOne(w, p);
    DivBelow(v, p, w);
  }

  lemma MulLessOne(w: int, p: int)
    ensures w * (p - 1) == p * w - w
  {
  }

  /** Toom-33 evaluates both operands at 1, -1 and 2 with top limbs at most 2, 1 and 6. */
  lemma Toom33EvaluationBounds(xs: seq<nat>, ys: seq<nat>, p: nat)
    requires p > 0 && |xs| == 3 && |ys| == 3 && PiecesAtMost(xs, p - 1) && PiecesAtMost(ys, p - 1)
    ensures TopLimb(Eval(xs, 1), p) <= 2
    ensures TopLimb(Eval(ys, 1), p) <= 2
    ensures TopLimb(Eval(xs, -1), p) <= 1
    ensures TopLimb(Eval(ys, -1), p) <= 1
    ensures TopLimb(Eval(xs, 2), p) <= 6
    ensures TopLimb(Eval(ys, 2), p) <= 6
  {
    TopLimbBound(xs, 1, p, 3);
    TopLimbBound(ys, 1, p, 3);
    TopLimbBound(xs, -1, p, 2);
    TopLimbBound(ys, -1, p, 2);
    TopLimbBound(xs, 2, p, 7);
    TopLimbBound(ys, 2, p, 7);
  }

  /** Toom-42 top limbs: A(1) <= 3, B(1) <= 1, |A(-1)| <= 1, A(2) <= 14, B(2) <= 2. */
  lemma Toom42EvaluationBounds(xs: seq<nat>, ys: seq<nat>, p: nat)
    requires p > 0 && |xs| == 4 && |ys| == 2 && PiecesAtMost(xs, p - 1) && PiecesAtMost(ys, p - 1)
    ensures TopLimb(Eval(xs, 1), p) <= 3
    ensures TopLimb(Eval(ys, 1), p) <= 1
    ensures TopLimb(Eval(xs, -1), p) <= 1
    ensures TopLimb(Eval(xs, 2), p) <= 14
    ensures TopLimb(Eval(ys, 2), p) <= 2
  {
    TopLimbBound(xs, 1, p, 4);
    TopLimbBound(ys, 1, p, 2);
    TopLimbBound(xs, -1, p, 2);
    TopLimbBound(xs, 2, p, 15);
    TopLimbBound(ys, 2, p, 3);
  }

  /** Toom-43 top limbs at 1, -1, 2 and -2: 3 and 2, 1 and 1, 14 and 6, 9 and 4. */
  lemma Toom43EvaluationBounds(xs: seq<nat>, ys: seq<nat>, p: nat)
    requires p > 0 && |xs| == 4 && |ys| == 3 && PiecesAtMost(xs, p - 1) && PiecesAtMost(ys, p - 1)
    ensures TopLimb(Eval(xs, 1), p) <= 3
    ensures TopLimb(Eval(ys, 1), p) <= 2
    ensures TopLimb(Eval(xs, -1), p) <= 1
    ensures TopLimb(Eval(ys, -1), p) <= 1
    ensures TopLimb(Eval(xs, 2), p) <= 14
    ensures TopLimb(Eval(ys, 2), p) <= 6
    ensures TopLimb(Eval(xs, -2), p) <= 9
    ensures TopLimb(Eval(ys, -2), p) <= 4
  {
    TopLimbBound(xs, 1, p, 4);
    TopLimbBound(ys, 1, p, 3);
    TopLimbBound(xs, -1, p, 2);
    TopLimbBound(ys, -1, p, 2);
    TopLimbBound(xs, 2, p, 15);
    TopLimbBound(ys, 2, p, 7);
    TopLimbBound(xs, -2, p, 10);
    TopLimbBound(ys, -2, p, 5);
  }

  /** Toom-44 evaluates 8 a_0 + 4 a_1 + 2 a_2 + a_3 = 8 A(1 / 2) with a top limb below 15. */
  lemma Toom44EvaluationBounds(xs: seq<nat>, ys: seq<nat>, p: nat)
    requires p > 0 && |xs| == 4 && |ys| == 4 && PiecesAtMost(xs, p - 1) && PiecesAtMost(ys, p - 1)
    ensures TopLimb(Eval(Reverse(xs), 2), p) <= 14
    ensures TopLimb(Eval(Reverse(ys), 2), p) <= 14
  {
    TopLimbBound(Reverse(xs), 2, p, 15);
    TopLimbBound(Reverse(ys), 2, p, 15);
  }

  /** Toom-52 top limbs: A(1) <= 4, B(1) <= 1, |A(-1)| <= 2, A(2) <= 30, B(2) <= 2, |A(-2)| <= 20, |B(-2)| <= 1. */
  lemma Toom52EvaluationBounds(xs: seq<nat>, ys: seq<nat>, p: nat)
    requires p > 0 && |xs| == 5 && |ys| == 2 && PiecesAtMost(xs, p - 1) && PiecesAtMost(ys, p - 1)
    ensures TopLimb(Eval(xs, 1), p) <= 4
    ensures TopLimb(Eval(ys, 1), p) <= 1
    ensures TopLimb(Eval(xs, -1), p) <= 2
    ensures TopLimb(Eval(xs, 2), p) <= 30
    ensures TopLimb(Eval(ys, 2), p) <= 2
    ensures TopLimb(Eval(xs, -2), p) <= 20
    ensures TopLimb(Eval(ys, -2), p) <= 1
  {
    TopLimbBound(xs, 1, p, 5);
    TopLimbBound(ys, 1, p, 2);
    TopLimbBound(xs, -1, p, 3);
    TopLimbBound(xs, 2, p, 31);
    TopLimbBound(ys, 2, p, 3);
    TopLimbBound(xs, -2, p, 21);
    TopLimbBound(ys, -2, p, 2);
  }

  /** Toom-53 top limbs at 1, -1, 2, -2 and 1 / 2 (scaled by 16 and 4). */
  lemma Toom53EvaluationBounds(xs: seq<nat>, ys: seq<nat>, p: nat)
    requires p > 0 && |xs| == 5 && |ys| == 3 && PiecesAtMost(xs, p - 1) && PiecesAtMost(ys, p - 1)
    ensures TopLimb(Eval(xs, 1), p) <= 4
    ensures TopLimb(Eval(ys, 1), p) <= 2
    ensures TopLimb(Eval(xs, -1), p) <= 2
    ensures TopLimb(Eval(ys, -1), p) <= 1
    ensures TopLimb(Eval(xs, 2), p) <= 30
    ensures TopLimb(Eval(ys, 2), p) <= 6
    ensures TopLimb(Eval(xs, -2), p) <= 20
    ensures TopLimb(Eval(ys, -2), p) <= 4
    ensures TopLimb(Eval(Reverse(xs), 2), p) <= 30
    ensures TopLimb(Eval(Reverse(ys), 2), p) <= 6
  {
    TopLimbBound(xs, 1, p, 5);
    TopLimbBound(ys, 1, p, 3);
    TopLimbBound(xs, -1, p, 3);
    TopLimbBound(ys, -1, p, 2);
    TopLimbBound(xs, 2, p, 31);
    TopLimbBound(ys, 2, p, 7);
    TopLimbBound(xs, -2, p, 21);
    TopLimbBound(ys, -2, p, 5);
    TopLimbBound(Reverse(xs), 2, p, 31);
    TopLimbBound(Reverse(ys), 2, p, 7);
  }

  /** Toom-62 top limbs at 1, -1, 2, -2 and 1 / 2 (scaled by 32 and 2). */
  lemma Toom62EvaluationBounds(xs: seq<nat>, ys: seq<nat>, p: nat)
    requires p > 0 && |xs| == 6 && |ys| == 2 && PiecesAtMost(xs, p - 1) && PiecesAtMost(ys, p - 1)
    ensures TopLimb(Eval(xs, 1), p) <= 5
    ensures TopLimb(Eval(ys, 1), p) <= 1
    ensures TopLimb(Eval(xs, -1), p) <= 2
    ensures TopLimb(Eval(xs, 2), p) <= 62
    ensures TopLimb(Eval(ys, 2), p) <= 2
    ensures TopLimb(Eval(xs, -2), p) <= 41
    ensures TopLimb(Eval(ys, -2), p) <= 1
    ensures TopLimb(Eval(Reverse(xs), 2), p) <= 62
    ensures TopLimb(Eval(Reverse(ys), 2), p) <= 2
  {
    TopLimbBound(xs, 1, p, 6);
    TopLimbBound(ys, 1, p, 2);
    TopLimbBound(xs, -1, p, 3);
    TopLimbBound(xs, 2, p, 63);
    TopLimbBound(ys, 2, p, 3);
    TopLimbBound(xs, -2, p, 42);
    TopLimbBound(ys, -2, p, 2);
    TopLimbBound(Reverse(xs), 2, p, 63);
    TopLimbBound(Reverse(ys), 2, p, 3);
  }
}
