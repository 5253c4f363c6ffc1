/**
 * The interpolation steps of Toom-Cook multiplication, on values. The
 * product polynomial f = Σ w_i x^i has been evaluated at a few small points;
 * a fixed sequence of subtractions, shifts and exact divisions recovers the
 * coefficients w_i, and their sum Σ w_i B^(i n) is the product.
 *
 * Each routine returns `None` where the source's asserts fail (a borrow out
 * of a subtraction it asserts cannot borrow, bits shifted out of a shift it
 * asserts is exact, a top limb over its bound) and where the limb code
 * leaves integer arithmetic (a shift of a negative value, an exact division
 * that is not exact); on the values of a genuine product it returns the
 * coefficients.
 */
module Interpolate {
  import opened Limbs
  import opened ToomEval

  /** A value held as a magnitude and a negative flag. */
  function Signed(neg: bool, mag: nat): int
  {
    if neg then -(mag as int) else mag
  }

  /** a / d when d divides a: an exact division, or a shift asserted to lose no bits. */
  function ExactDiv(a: int, d: nat): (r: Option<int>)
    requires d > 0
    ensures r.Some? <==> a % d == 0
    ensures r.Some? ==> a == d * r.value
  {
    if a % d == 0 then Some(a / d) else None
  }

  /** A value that must not be negative: the result of a subtraction that may not borrow. */
  function NonNeg(a: int): (r: Option<nat>)
    ensures r.Some? <==> a >= 0
    ensures r.Some? ==> r.value == a
  {
    if a >= 0 then Some(a) else None
  }

  lemma DivOfMultiple(q: int, d: nat)
    requires d > 0
    ensures (d * q) % d == 0 && (d * q) / d == q
  {
    ModUnique(d * q, d, q, 0);
  }

  lemma Eval5(w: seq<int>, x: int)
    requires |w| == 5
    ensures Eval(w, x) == w[0] + x * (w[1] + x * (w[2] + x * (w[3] + x * w[4])))
  {
    var t := w[1..];
    assert Eval(t[1..][1..][1..], x) == w[4];
    assert Eval(t[1..][1..], x) == w[3] + x * w[4];
    assert Eval(t[1..], x) == w[2] + x * (w[3] + x * w[4]);
  }

  lemma Points5(w: seq<int>)
    requires |w| == 5
    ensures Eval(w, 1) == w[0] + w[1] + w[2] + w[3] + w[4]
    ensures Eval(w, -1) == w[0] - w[1] + w[2] - w[3] + w[4]
    ensures Eval(w, 2) == w[0] + 2 * w[1] + 4 * w[2] + 8 * w[3] + 16 * w[4]
  {
    Eval5(w, 1);
    Eval5(w, -1);
    Eval5(w, 2);
  }

  /**
   * `_limbs_mul_toom_interpolate_5_points`, for products of degree 4 given
   * v0 = f(0), v1 = f(1), v_{-1} = f(-1) (a magnitude of `vNeg1Len` limbs and
   * a sign), v2 = f(2) and vinf the leading coefficient. The steps are the
   * source's: (1) (v2 - v_{-1}) / 3, (2) tm1 = (v1 - v_{-1}) / 2,
   * (3) t1 = v1 - v0, (4) t2 = ((1) - t1) / 2, (5) t1 - tm1, (6) t2 - 2 vinf,
   * (7) (5) - vinf, (8) tm1 - (6). The source asserts every step but (3) and
   * the division by 3; a borrow in (3) makes (4) borrow.
   */
  function Interpolate5(k: nat, twoR: nat, v0: nat, v1: nat, vNeg1Neg: bool, vNeg1: nat, vNeg1Len: nat, v2: nat, vInf: nat)
    : (r: Option<seq<nat>>)
    ensures r.Some? ==> vNeg1Len == 2 * k + 1 && twoR <= 2 * k
    ensures r.Some? ==> |r.value| == 5 && r.value[0] == v0 && r.value[4] == vInf
    ensures r.Some? ==>
      Eval(r.value, 1) == v1 && Eval(r.value, -1) == Signed(vNeg1Neg, vNeg1) && Eval(r.value, 2) == v2
  {
    if vNeg1Len != 2 * k + 1 || twoR > 2 * k then None
    else
      var vm1 := Signed(vNeg1Neg, vNeg1);
      var d :- NonNeg(v2 - vm1);
      var a :- ExactDiv(d, 3);
      var e :- NonNeg(v1 - vm1);
      var tm1 :- ExactDiv(e, 2);
      var t1 :- NonNeg(v1 - v0);
      var f :- NonNeg(a - t1);
      var t2 :- ExactDiv(f, 2);
      var u :- NonNeg(t1 - tm1);
      var w3 :- NonNeg(t2 - 2 * vInf);
      var w2 :- NonNeg(u - vInf);
      var w1 :- NonNeg(tm1 - w3);
      var w := [v0, w1, w2, w3, vInf];
      Points5(w);
      Some(w)
  }

  /**
   * Interpolation inverts evaluation: the values at 0, 1, -1, 2 and infinity
   * of non-negative coefficients come back as those coefficients.
   */
  lemma Interpolate5Recovers(w: seq<nat>, k: nat, twoR: nat, v1: nat, vNeg1Neg: bool, vNeg1: nat, v2: nat)
    requires |w| == 5 && twoR <= 2 * k
    requires v1 == Eval(w, 1) && Signed(vNeg1Neg, vNeg1) == Eval(w, -1) && v2 == Eval(w, 2)
    ensures Interpolate5(k, twoR, w[0], v1, vNeg1Neg, vNeg1, 2 * k + 1, v2, w[4]) == Some(w)
  {
    Points5(w);
    Interpolate5Steps(k, twoR, w[0], w[1], w[2], w[3], w[4], v1, vNeg1Neg, vNeg1, v2);
    assert [w[0], w[1], w[2], w[3], w[4]] == w;
  }

  /** The 5-point steps on the values of c0 + c1 x + ... + c4 x^4. */
  lemma Interpolate5Steps(k: nat, twoR: nat, c0: nat, c1: nat, c2: nat, c3: nat, c4: nat,
                          v1: nat, vNeg1Neg: bool, vNeg1: nat, v2: nat)
    requires twoR <= 2 * k
    requires v1 == c0 + c1 + c2 + c3 + c4 && Signed(vNeg1Neg, vNeg1) == c0 - c1 + c2 - c3 + c4
    requires v2 == c0 + 2 * c1 + 4 * c2 + 8 * c3 + 16 * c4
    ensures Interpolate5(k, twoR, c0, v1, vNeg1Neg, vNeg1, 2 * k + 1, v2, c4) == Some([c0, c1, c2, c3, c4])
  {
    var vm1 := Signed(vNeg1Neg, vNeg1);
    ExactDivOf(v2 - vm1, 3, c1 + c2 + 3 * c3 + 5 * c4);
    ExactDivOf(v1 - vm1, 2, c1 + c3);
    ExactDivOf((c1 + c2 + 3 * c3 + 5 * c4) - (v1 - c0), 2, c3 + 2 * c4);
  }

  /** a = d q gives a / d = q exactly. */
  lemma DivExact(a: int, d: nat, q: int)
    requires d > 0 && a == d * q
    ensures a % d == 0 && a / d == q
  {
    DivOfMultiple(q, d);
  }

  lemma ExactDivOf(a: int, d: nat, q: int)
    requires d > 0 && a == d * q
    ensures ExactDiv(a, d) == Some(q)
  {
    DivOfMultiple(q, d);
  }

  lemma Eval6(w: seq<int>, x: int)
    requires |w| == 6
    ensures Eval(w, x) == w[0] + x * (w[1] + x * (w[2] + x * (w[3] + x * (w[4] + x * w[5]))))
  {
    Eval5(w[1..], x);
  }

  lemma Points6(w: seq<int>)
    requires |w| == 6
    ensures Eval(w, 1) == w[0] + w[1] + w[2] + w[3] + w[4] + w[5]
    ensures Eval(w, -1) == w[0] - w[1] + w[2] - w[3] + w[4] - w[5]
    ensures Eval(w, 2) == w[0] + 2 * w[1] + 4 * w[2] + 8 * w[3] + 16 * w[4] + 32 * w[5]
    ensures Eval(w, -2) == w[0] - 2 * w[1] + 4 * w[2] - 8 * w[3] + 16 * w[4] - 32 * w[5]
  {
    Eval6(w, 1);
    Eval6(w, -1);
    Eval6(w, 2);
    Eval6(w, -2);
  }

  /**
   * `_limbs_mul_toom_interpolate_6_points`, for products of degree 5 given
   * w5 = f(0), w4 = f(-1), w3 = f(1), w2 = f(-2), w1 = f(2) and the leading
   * coefficient w0 (the source's names). The source asserts only its sizes
   * and one borrow; its shifts round down, and its intermediate values are
   * to be non-negative.
   */
  function Interpolate6(n: nat, nHigh: nat, w5: nat, w4Neg: bool, w4: nat, w3: nat, w2Neg: bool, w2: nat, w1: nat, w0: nat)
    : (r: Option<seq<nat>>)
    ensures r.Some? ==> n != 0 && 0 < nHigh <= 2 * n
    ensures r.Some? ==> |r.value| == 6 && r.value[0] == w5 && r.value[5] == w0
  {
    if n == 0 || nHigh == 0 || nHigh > 2 * n then None
    else
      var s :- Interpolate6Linear(w5, Signed(w4Neg, w4), w3, Signed(w2Neg, w2), w1);
      Interpolate6Last(s, w5, w0)
  }

  /** The four working buffers of the 6-point interpolation after its linear steps. */
  datatype Six = Six(w1: nat, w2: nat, w3: nat, w4: nat)

  /**
   * The linear steps: w2 = (w1 - w2) >> 2, w1 = (w1 - w5) >> 1,
   * w1 = (w1 - w2) >> 1, w4 = (w3 - w4) >> 1, w2 = (w2 - w4) / 3,
   * w3 = w3 - w4 - w5, w1 = (w1 - w3) / 3, every operand non-negative and
   * both divisions by 3 exact.
   */
  function Interpolate6Linear(w5: nat, w4: int, w3: nat, w2: int, w1: nat): Option<Six>
  {
    var a := w1 - w2;
    var b := w1 - w5;
    var e := w3 - w4;
    if a < 0 || b < 0 || e < 0 then None
    else
      var c := b / 2 - a / 4;
      var d := a / 4 - e / 2;
      var s3 := w3 - e / 2 - w5;
      if c < 0 || d < 0 || s3 < 0 then None
      else
        var f := c / 2 - s3;
        if f < 0 || d % 3 != 0 || f % 3 != 0 then None
        else Some(Six(f / 3, d / 3, s3, e / 2))
  }

  /**
   * The last steps, mixed into the recomposition: w2 -= w0 << 2 (asserted
   * not to borrow), w4 -= w2, w3 -= w1, w2 -= w0.
   */
  function Interpolate6Last(s: Six, w5: nat, w0: nat): (r: Option<seq<nat>>)
    ensures r.Some? ==> |r.value| == 6 && r.value[0] == w5 && r.value[5] == w0
  {
    var t2 := s.w2 - 4 * w0;
    var t4 := s.w4 - t2;
    var t3 := s.w3 - s.w1;
    var u2 := t2 - w0;
    if t2 < 0 || t4 < 0 || t3 < 0 || u2 < 0 then None
    else Some([w5, t4, t3, u2, s.w1, w0])
  }

  /** On the values of non-negative coefficients the 6-point interpolation returns them. */
  lemma Interpolate6Recovers(w: seq<nat>, n: nat, nHigh: nat, w4Neg: bool, fm1: nat, f1: nat, w2Neg: bool, fm2: nat, f2: nat)
    requires |w| == 6 && n != 0 && 0 < nHigh <= 2 * n
    requires Signed(w4Neg, fm1) == Eval(w, -1) && f1 == Eval(w, 1)
    requires Signed(w2Neg, fm2) == Eval(w, -2) && f2 == Eval(w, 2)
    ensures Interpolate6(n, nHigh, w[0], w4Neg, fm1, f1, w2Neg, fm2, f2, w[5]) == Some(w)
  {
    Points6(w);
    Interpolate6Steps(n, nHigh, w[0], w[1], w[2], w[3], w[4], w[5], w4Neg, fm1, f1, w2Neg, fm2, f2);
    assert [w[0], w[1], w[2], w[3], w[4], w[5]] == w;
  }

  /** The 6-point steps on the values of c0 + c1 x + ... + c5 x^5. */
  lemma Interpolate6Steps(n: nat, nHigh: nat, c0: nat, c1: nat, c2: nat, c3: nat, c4: nat, c5: nat,
                          w4Neg: bool, fm1: nat, f1: nat, w2Neg: bool, fm2: nat, f2: nat)
    requires n != 0 && 0 < nHigh <= 2 * n
    requires Signed(w4Neg, fm1) == c0 - c1 + c2 - c3 + c4 - c5 && f1 == c0 + c1 + c2 + c3 + c4 + c5
    requires Signed(w2Neg, fm2) == c0 - 2 * c1 + 4 * c2 - 8 * c3 + 16 * c4 - 32 * c5
    requires f2 == c0 + 2 * c1 + 4 * c2 + 8 * c3 + 16 * c4 + 32 * c5
    ensures Interpolate6(n, nHigh, c0, w4Neg, fm1, f1, w2Neg, fm2, f2, c5) == Some([c0, c1, c2, c3, c4, c5])
  {
    Linear6Recovers(c0, c1, c2, c3, c4, c5, Signed(w4Neg, fm1), f1, Signed(w2Neg, fm2), f2);
  }

  /** The linear steps on the point values leave c4, c3 + 5 c5, c2 + c4 and c1 + c3 + c5. */
  lemma Linear6Recovers(c0: nat, c1: nat, c2: nat, c3: nat, c4: nat, c5: nat, fm1: int, f1: nat, fm2: int, f2: nat)
    requires fm1 == c0 - c1 + c2 - c3 + c4 - c5 && f1 == c0 + c1 + c2 + c3 + c4 + c5
    requires fm2 == c0 - 2 * c1 + 4 * c2 - 8 * c3 + 16 * c4 - 32 * c5
    requires f2 == c0 + 2 * c1 + 4 * c2 + 8 * c3 + 16 * c4 + 32 * c5
    ensures Interpolate6Linear(c0, fm1, f1, fm2, f2) == Some(Six(c4, c3 + 5 * c5, c2 + c4, c1 + c3 + c5))
  {
    var a := f2 - fm2;
    var b := f2 - c0;
    var e := f1 - fm1;
    Halves6(c1, c2, c3, c4, c5, a, b, e);
    var c := b / 2 - a / 4;
    var d := a / 4 - e / 2;
    var s3 := f1 - e / 2 - c0;
    Thirds6(c2, c3, c4, c5, c, d, s3);
  }

  /** The first shifts of the 6-point steps act on multiples of 4 and 2. */
  lemma Halves6(c1: nat, c2: nat, c3: nat, c4: nat, c5: nat, a: int, b: int, e: int)
    requires a == 4 * c1 + 16 * c3 + 64 * c5
    requires b == 2 * c1 + 4 * c2 + 8 * c3 + 16 * c4 + 32 * c5
    requires e == 2 * c1 + 2 * c3 + 2 * c5
    ensures a / 4 == c1 + 4 * c3 + 16 * c5
    ensures b / 2 == c1 + 2 * c2 + 4 * c3 + 8 * c4 + 16 * c5
    ensures e / 2 == c1 + c3 + c5
  {
    DivOfMultiple(c1 + 4 * c3 + 16 * c5, 4);
    DivOfMultiple(c1 + 2 * c2 + 4 * c3 + 8 * c4 + 16 * c5, 2);
    DivOfMultiple(c1 + c3 + c5, 2);
  }

  /** The later shifts and exact divisions by 3 of the 6-point steps. */
  lemma Thirds6(c2: nat, c3: nat, c4: nat, c5: nat, c: int, d: int, s3: int)
    requires c == 2 * c2 + 8 * c4 && d == 3 * c3 + 15 * c5 && s3 == c2 + c4
    ensures c / 2 == c2 + 4 * c4 && d % 3 == 0 && d / 3 == c3 + 5 * c5
    ensures c / 2 - s3 == 3 * c4 && (c / 2 - s3) % 3 == 0 && (c / 2 - s3) / 3 == c4
  {
    DivOfMultiple(c2 + 4 * c4, 2);
    DivOfMultiple(c3 + 5 * c5, 3);
    DivOfMultiple(c4, 3);
  }

  lemma Eval7(w: seq<int>, x: int)
    requires |w| == 7
    ensures Eval(w, x) == w[0] + x * (w[1] + x * (w[2] + x * (w[3] + x * (w[4] + x * (w[5] + x * w[6])))))
  {
    Eval6(w[1..], x);
  }

  lemma Points7(w: seq<nat>)
    requires |w| == 7
    ensures Eval(w, 1) == w[0] + w[1] + w[2] + w[3] + w[4] + w[5] + w[6]
    ensures Eval(w, -1) == w[0] as int - w[1] + w[2] - w[3] + w[4] - w[5] + w[6]
    ensures Eval(w, 2) == w[0] + 2 * w[1] + 4 * w[2] + 8 * w[3] + 16 * w[4] + 32 * w[5] + 64 * w[6]
    ensures Eval(w, -2) == w[0] as int - 2 * w[1] + 4 * w[2] - 8 * w[3] + 16 * w[4] - 32 * w[5] + 64 * w[6]
    ensures Eval(Reverse(w), 2) == 64 * w[0] + 32 * w[1] + 16 * w[2] + 8 * w[3] + 4 * w[4] + 2 * w[5] + w[6]
  {
    Eval7(w, 1);
    Eval7(w, -1);
    Eval7(w, 2);
    Eval7(w, -2);
    Eval7(Reverse(w), 2);
  }

  /** The top limb, of index 2n, of a value kept in 2n + 1 limbs. */
  function TopLimb2n(v: nat, n: nat): nat
  {
    v / Pow(Base, 2 * n)
  }

  /**
   * The bounds the 7-point interpolation asserts on the top limbs of the
   * coefficients w1 .. w5: below 2, 3, 4, 3 and 2.
   */
  predicate TopLimbsBounded7(w: seq<nat>, n: nat)
    requires |w| == 7
  {
    TopLimb2n(w[1], n) < 2 && TopLimb2n(w[2], n) < 3 && TopLimb2n(w[3], n) < 4
    && TopLimb2n(w[4], n) < 3 && TopLimb2n(w[5], n) < 2
  }

  /** The seven values the 7-point interpolation works on, in the source's order. */
  datatype Seven = Seven(w0: int, w1: int, w2: int, w3: int, w4: int, w5: int, w6: int)

  /**
   * The first block of the 7-point steps: w5 = w5 + w4, w1 = (w4 - w1) / 2,
   * w4 = (w4 - w0 - w1) / 4 - 16 w6, w3 = (w2 - w3) / 2, w2 = w2 - w3. The
   * three shifts are asserted exact and act on non-negative values.
   */
  function Interpolate7Block1(s: Seven): (r: Option<Seven>)
    ensures r.Some? ==> r.value.w0 == s.w0 && r.value.w6 == s.w6 && r.value.w5 == s.w5 + s.w4
    ensures r.Some? ==> s.w4 - s.w1 == 2 * r.value.w1 && s.w4 - s.w0 - r.value.w1 == 4 * (r.value.w4 + 16 * s.w6)
    ensures r.Some? ==> s.w2 - s.w3 == 2 * r.value.w3 && r.value.w2 == s.w2 - r.value.w3
  {
    var a := s.w4 - s.w1;
    var b := s.w4 - s.w0 - a / 2;
    var c := s.w2 - s.w3;
    if a < 0 || a % 2 != 0 || b < 0 || b % 4 != 0 || c < 0 || c % 2 != 0 then None
    else
      Exactly(a, 2);
      Exactly(b, 4);
      Exactly(c, 2);
      Some(Seven(s.w0, a / 2, s.w2 - c / 2, c / 2, b / 4 - 16 * s.w6, s.w5 + s.w4, s.w6))
  }

  /**
   * The second block: w5 = w5 - 65 w2, w2 = w2 - w6 - w0,
   * w5 = (w5 + 45 w2) / 2 (non-negative again, and an exact shift),
   * w4 = (w4 - w2) / 3, w2 = w2 - w4.
   */
  function Interpolate7Block2(s: Seven): (r: Option<Seven>)
    ensures r.Some? ==> r.value.w0 == s.w0 && r.value.w1 == s.w1 && r.value.w3 == s.w3 && r.value.w6 == s.w6
    ensures r.Some? ==>
      var t2 := s.w2 - s.w6 - s.w0;
      && s.w5 - 65 * s.w2 + 45 * t2 == 2 * r.value.w5
      && s.w4 - t2 == 3 * r.value.w4 && r.value.w2 == t2 - r.value.w4
  {
    var t2 := s.w2 - s.w6 - s.w0;
    var d := s.w5 - 65 * s.w2 + 45 * t2;
    var e := s.w4 - t2;
    if d < 0 || d % 2 != 0 || e % 3 != 0 then None
    else
      Exactly(d, 2);
      Exactly(e, 3);
      Some(Seven(s.w0, s.w1, t2 - e / 3, s.w3, e / 3, d / 2, s.w6))
  }

  /**
   * The third block: w1 = w5 - w1, w5 = (w5 - 8 w3) / 9, w3 = w3 - w5,
   * w1 = (w1 / 15 + w5) / 2 (non-negative again, and an exact shift),
   * w5 = w5 - w1.
   */
  function Interpolate7Block3(s: Seven): (r: Option<Seven>)
    ensures r.Some? ==> r.value.w0 == s.w0 && r.value.w2 == s.w2 && r.value.w4 == s.w4 && r.value.w6 == s.w6
    ensures r.Some? ==>
      && s.w5 - s.w1 == 15 * (r.value.w1 - r.value.w5)
      && s.w5 - 8 * s.w3 == 9 * (r.value.w1 + r.value.w5)
      && r.value.w3 == s.w3 - r.value.w1 - r.value.w5
  {
    var t1 := s.w5 - s.w1;
    var f := s.w5 - 8 * s.w3;
    var g := t1 / 15 + f / 9;
    if t1 % 15 != 0 || f % 9 != 0 || g < 0 || g % 2 != 0 then None
    else
      Exactly(t1, 15);
      Exactly(f, 9);
      Exactly(g, 2);
      Some(Seven(s.w0, g / 2, s.w2, s.w3 - f / 9, s.w4, f / 9 - g / 2, s.w6))
  }

  /**
   * `_limbs_mul_toom_interpolate_7_points`, for products of degree 6 given
   * w0 = f(0), w1 = f(-2), w2 = f(1), w3 = f(-1), w4 = f(2), w5 = 64 f(1/2) and
   * w6 the leading coefficient (the source's names). Values the source keeps
   * in two's complement may go negative in between; the ones it shifts may
   * not. The coefficients found must be non-negative and meet the top-limb
   * bounds the source asserts.
   */
  function Interpolate7(n: nat, nHigh: nat, w0: nat, w1Neg: bool, w1: nat, w2: nat, w3Neg: bool, w3: nat, w4: nat, w5: nat, w6: nat)
    : (r: Option<seq<nat>>)
    ensures r.Some? ==> 0 < nHigh < 2 * n + 1
    ensures r.Some? ==> |r.value| == 7 && r.value[0] == w0 && r.value[6] == w6 && TopLimbsBounded7(r.value, n)
    ensures r.Some? ==>
      Eval(r.value, -2) == Signed(w1Neg, w1) && Eval(r.value, 1) == w2 && Eval(r.value, -1) == Signed(w3Neg, w3)
      && Eval(r.value, 2) == w4 && Eval(Reverse(r.value), 2) == w5
  {
    if nHigh == 0 || nHigh >= 2 * n + 1 then None
    else
      var s0 := Seven(w0, Signed(w1Neg, w1), w2, Signed(w3Neg, w3), w4, w5, w6);
      var s1 :- Interpolate7Block1(s0);
      var s2 :- Interpolate7Block2(s1);
      var s3 :- Interpolate7Block3(s2);
      if s3.w1 < 0 || s3.w2 < 0 || s3.w3 < 0 || s3.w4 < 0 || s3.w5 < 0 then None
      else
        var w := [w0, s3.w1, s3.w2, s3.w3, s3.w4, s3.w5, w6];
        if !TopLimbsBounded7(w, n) then None
        else
          Points7(w);
          Some(w)
  }

  lemma Exactly(a: int, d: nat)
    requires d > 0 && a % d == 0
    ensures a == d * (a / d)
  {
  }

  /** On the values of a product whose coefficients meet the top-limb bounds the 7-point interpolation returns them. */
  lemma Interpolate7Recovers(w: seq<nat>, n: nat, nHigh: nat, w1Neg: bool, fm2: nat, f1: nat, w3Neg: bool, fm1: nat, f2: nat, fHalf: nat)
    requires |w| == 7 && 0 < nHigh < 2 * n + 1 && TopLimbsBounded7(w, n)
    requires Signed(w1Neg, fm2) == Eval(w, -2) && f1 == Eval(w, 1) && Signed(w3Neg, fm1) == Eval(w, -1)
    requires f2 == Eval(w, 2) && fHalf == Eval(Reverse(w), 2)
    ensures Interpolate7(n, nHigh, w[0], w1Neg, fm2, f1, w3Neg, fm1, f2, fHalf, w[6]) == Some(w)
  {
    Points7(w);
    var s0 := Seven(w[0], Signed(w1Neg, fm2), f1, Signed(w3Neg, fm1), f2, fHalf, w[6]);
    var s1 := Interpolate7Block1Recovers(w[0], w[1], w[2], w[3], w[4], w[5], w[6], s0);
    var s2 := Interpolate7Block2Recovers(w[0], w[1], w[2], w[3], w[4], w[5], w[6], s1);
    Interpolate7Block3Recovers(w[0], w[1], w[2], w[3], w[4], w[5], w[6], s2);
    assert [w[0], w[1], w[2], w[3], w[4], w[5], w[6]] == w;
  }

  lemma Interpolate7Block1Recovers(c0: nat, c1: nat, c2: nat, c3: nat, c4: nat, c5: nat, c6: nat, s: Seven) returns (r: Seven)
    requires s.w0 == c0 && s.w6 == c6
    requires s.w1 == c0 - 2 * c1 + 4 * c2 - 8 * c3 + 16 * c4 - 32 * c5 + 64 * c6
    requires s.w2 == c0 + c1 + c2 + c3 + c4 + c5 + c6
    requires s.w3 == c0 - c1 + c2 - c3 + c4 - c5 + c6
    requires s.w4 == c0 + 2 * c1 + 4 * c2 + 8 * c3 + 16 * c4 + 32 * c5 + 64 * c6
    requires s.w5 == 64 * c0 + 32 * c1 + 16 * c2 + 8 * c3 + 4 * c4 + 2 * c5 + c6
    ensures r == Seven(c0, 2 * c1 + 8 * c3 + 32 * c5, c0 + c2 + c4 + c6, c1 + c3 + c5, c2 + 4 * c4,
                       65 * c0 + 34 * c1 + 20 * c2 + 16 * c3 + 20 * c4 + 34 * c5 + 65 * c6, c6)
    ensures Interpolate7Block1(s) == Some(r)
  {
    r := Seven(c0, 2 * c1 + 8 * c3 + 32 * c5, c0 + c2 + c4 + c6, c1 + c3 + c5, c2 + 4 * c4,
               65 * c0 + 34 * c1 + 20 * c2 + 16 * c3 + 20 * c4 + 34 * c5 + 65 * c6, c6);
    var qa, qb, qc := 2 * c1 + 8 * c3 + 32 * c5, c2 + 4 * c4 + 16 * c6, c1 + c3 + c5;
    assert Seven(s.w0, qa, s.w2 - qc, qc, qb - 16 * s.w6, s.w5 + s.w4, s.w6) == r;
    Block1Of(s, qa, qb, qc);
  }

  /** Block 1 on operands whose three shifts are exact, with quotients qa, qb and qc. */
  lemma Block1Of(s: Seven, qa: int, qb: int, qc: int)
    requires s.w4 - s.w1 == 2 * qa && s.w4 - s.w0 - qa == 4 * qb && s.w2 - s.w3 == 2 * qc
    requires qa >= 0 && qb >= 0 && qc >= 0
    ensures Interpolate7Block1(s) == Some(Seven(s.w0, qa, s.w2 - qc, qc, qb - 16 * s.w6, s.w5 + s.w4, s.w6))
  {
    DivExact(s.w4 - s.w1, 2, qa);
    DivExact(s.w4 - s.w0 - qa, 4, qb);
    DivExact(s.w2 - s.w3, 2, qc);
  }


  lemma Interpolate7Block2Recovers(c0: nat, c1: nat, c2: nat, c3: nat, c4: nat, c5: nat, c6: nat, s: Seven) returns (r: Seven)
    requires s == Seven(c0, 2 * c1 + 8 * c3 + 32 * c5, c0 + c2 + c4 + c6, c1 + c3 + c5, c2 + 4 * c4,
                        65 * c0 + 34 * c1 + 20 * c2 + 16 * c3 + 20 * c4 + 34 * c5 + 65 * c6, c6)
    ensures r == Seven(c0, 2 * c1 + 8 * c3 + 32 * c5, c2, c1 + c3 + c5, c4, 17 * c1 + 8 * c3 + 17 * c5, c6)
    ensures Interpolate7Block2(s) == Some(r)
  {
    r := Seven(c0, 2 * c1 + 8 * c3 + 32 * c5, c2, c1 + c3 + c5, c4, 17 * c1 + 8 * c3 + 17 * c5, c6);
    DivOfMultiple(17 * c1 + 8 * c3 + 17 * c5, 2);
    assert s.w5 - 65 * s.w2 + 45 * (s.w2 - s.w6 - s.w0) == 2 * (17 * c1 + 8 * c3 + 17 * c5);
    DivOfMultiple(c4, 3);
    assert s.w4 - (s.w2 - s.w6 - s.w0) == 3 * c4;
  }

  lemma Interpolate7Block3Recovers(c0: nat, c1: nat, c2: nat, c3: nat, c4: nat, c5: nat, c6: nat, s: Seven)
    requires s == Seven(c0, 2 * c1 + 8 * c3 + 32 * c5, c2, c1 + c3 + c5, c4, 17 * c1 + 8 * c3 + 17 * c5, c6)
    ensures Interpolate7Block3(s) == Some(Seven(c0, c1, c2, c3, c4, c5, c6))
  {
    DivOfMultiple(c1 - c5, 15);
    assert s.w5 - s.w1 == 15 * (c1 - c5);
    DivOfMultiple(c1 + c5, 9);
    assert s.w5 - 8 * s.w3 == 9 * (c1 + c5);
    DivOfMultiple(c1, 2);
    assert (c1 - c5) + (c1 + c5) == 2 * c1;
  }
}
