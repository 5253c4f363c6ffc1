/**
 * The last steps of the 8-point interpolation, which add the final r-values
 * into `out` one window of limbs at a time. Every carry or borrow the
 * source rules out with an `assert!` is a `None` here. The two carries the
 * source lets wrap (`wrapping_add_assign` on r5[3n] and on r3[3n]) are
 * reduced modulo B. Those wraps cannot happen when r5 and r3 are below half
 * their 3n + 1 limbs, and the 8-point interpolation always hands over such
 * values.
 */
module Recomposition8 {
  import opened Limbs
  import opened Modular

  /**
   * r8 + P (r7 - r5) + P^3 (r5 - r3) + P^5 r3 + P^7 r1, the recomposition
   * the last steps perform in `out`, grouped by powers of P^2.
   */
  function Recompose8(p: nat, r8: nat, r7: int, r5: int, r3: int, r1: nat): int
  {
    r8 + p * ((r7 - r5) + p * p * ((r5 - r3) + p * p * (r3 + p * p * r1)))
  }

  /** d + m h, with d a window below m, lies in [0, m top) exactly when h lies in [0, top). */
  lemma WindowBound(d: nat, m: nat, h: int, top: nat)
    requires d < m
    ensures 0 <= d + m * h < m * top <==> 0 <= h < top
  {
    if h < 0 {
      MulMonotone(m, h, -1);
    } else if h >= top {
      MulMonotone(m, top, h);
    } else {
      MulMonotone(m, h, top - 1);
      assert m * (top - 1) == m * top - m;
      MulMonotone(m, 0, h);
    }
  }

  /**
   * A window of m limbs holding lo gains add (`carry_1`) and then loses sub
   * (`carry_2`); a net carry of +1 or -1 goes into the limbs above, which
   * hold hi below top, and their own carry or borrow is asserted away.
   */
  function CarryInto(lo: nat, add: nat, sub: nat, m: nat, hi: nat, top: nat): (r: Option<(nat, nat)>)
    requires lo < m && add < m && sub < m && hi < top
    ensures r.Some? <==> 0 <= lo + add - sub + m * hi < m * top
    ensures r.Some? ==> r.value.0 < m && r.value.1 < top
    ensures r.Some? ==> r.value.0 + m * r.value.1 == lo + add - sub + m * hi
  {
    var carry1 := lo + add >= m;
    var t: nat := if carry1 then lo + add - m else lo + add;
    var carry2 := t < sub;
    var d: nat := if carry2 then t + m - sub else t - sub;
    var h: int := if carry1 && !carry2 then hi + 1 else if !carry1 && carry2 then hi - 1 else hi;
    assert lo + add - sub + m * hi == d + m * h by {
      assert m * (hi + 1) == m * hi + m;
      assert m * (hi - 1) == m * hi - m;
    }
    WindowBound(d, m, h, top);
    if carry1 && !carry2 then
      (if hi + 1 < top then Some((d, hi + 1)) else None)
    else if !carry1 && carry2 then
      (if hi >= 1 then Some((d, hi - 1)) else None)
    else
      Some((d, hi))
  }

  /**
   * A window of m limbs holding lo loses sub, its borrow taken from the
   * limbs above (holding hi) and asserted not to run out of them.
   */
  function BorrowInto(lo: nat, sub: nat, m: nat, hi: nat): (r: Option<(nat, nat)>)
    requires lo < m && sub < m
    ensures r.Some? <==> sub <= lo + m * hi
    ensures r.Some? ==> r.value.0 < m && r.value.1 <= hi
    ensures r.Some? ==> r.value.0 + m * r.value.1 == lo + m * hi - sub
  {
    if sub <= lo then Some((lo - sub, hi))
    else if hi >= 1 then
      assert m * (hi - 1) == m * hi - m;
      Some((lo + m - sub, hi - 1))
    else None
  }

  /** Multiplication distributes over a sum and a difference. */
  lemma Distrib(a: int, b: int, c: int)
    ensures a * (b + c) == a * b + a * c && a * (b - c) == a * b - a * c
  {
  }

  /** Equal factors give equal products. */
  lemma MulCongr(k: int, a: int, b: int)
    requires a == b
    ensures k * a == k * b
  {
  }

  /** x is its low window below m plus m times the rest. */
  lemma Digits(x: nat, m: nat)
    requires m > 0
    ensures x == x % m + m * (x / m) && 0 <= x % m < m && 0 <= x / m
  {
  }

  /** An integer is its remainder plus the divisor times its quotient. */
  lemma DivSplit(x: int, m: int)
    requires m > 0
    ensures x == x % m + m * (x / m)
  {
  }

  /** x splits into its low window, its middle window and the rest, at weights 1, p and p p. */
  lemma ModSplit(x: nat, p: nat)
    requires p > 0
    ensures x % (p * p) == x % p + p * ((x / p) % p) && x / (p * p) == (x / p) / p
  {
    var lo, q := x % p, x / p;
    var qm, qh := q % p, q / p;
    Digits(x, p);
    Digits(q, p);
    Distrib(p, qm, p * qh);
    MulMonotone(p, qm, p - 1);
    Distrib(p, p, 1);
    ModUnique(x, p * p, qh, lo + p * qm);
  }

  /**
   * "Hr8+Lr7-Lr5" and "Mr7-Mr5", for windows of n limbs (weight p = B^n):
   * the high half of r8 (in out[n..2n]) gains the low window of r7 and loses
   * that of r5, carrying into r7[n..]; then out[2n..3n] becomes the middle
   * window of r7 less that of r5, borrowing from r7[2n..]. The result is
   * (out[..2n], out[2n..3n], r7[2n..]).
   */
  function RecomposeLow(p: nat, r8: nat, r7: nat, r5: nat): (r: Option<(nat, nat, nat)>)
    requires p > 0 && r8 < p * p && r7 < Base * p * p * p && r5 < Base * p * p * p
    ensures r.Some? <==> r5 % (p * p) <= r8 / p + r7 && r8 / p + r7 - r5 % p < Base * p * p * p
    ensures r.Some? ==> r.value.0 < p * p && r.value.1 < p && r.value.2 < Base * p
    ensures r.Some? ==> r.value.0 + p * p * r.value.1 + p * p * p * r.value.2 == r8 + p * r7 - p * (r5 % (p * p))
  {
    LowInputs(p, r8, r7, r5);
    var first := CarryInto(r8 / p, r7 % p, r5 % p, p, r7 / p, Base * p * p);
    LowFirst(p, r8 / p, r7, r5 % p, (r5 / p) % p, r7 % p, r7 / p, first);
    match first
    case None => None
    case Some(w) =>
      Digits(w.1, p);
      MulMonotone(p, 0, w.0);
      var second := BorrowInto(w.1 % p, (r5 / p) % p, p, w.1 / p);
      LowSecond(p, r8 % p, r8 / p, r7, r5 % p, (r5 / p) % p, w.0, w.1, w.1 % p, w.1 / p, second);
      match second
      case None => None
      case Some(v) => Some((r8 % p + p * w.0, v.0, v.1))
  }

  /** What the first window step needs of its inputs. */
  lemma LowInputs(p: nat, r8: nat, r7: nat, r5: nat)
    requires p > 0 && r8 < p * p && r7 < Base * p * p * p
    ensures 0 <= r8 / p < p && 0 <= r7 / p < Base * p * p && 0 <= Base * p * p
    ensures r8 == r8 % p + p * (r8 / p) && r7 == r7 % p + p * (r7 / p)
    ensures r5 % (p * p) == r5 % p + p * ((r5 / p) % p) && 0 <= (r5 / p) % p < p
  {
    MulMonotone(Base * p, 0, p);
    Digits(r5 / p, p);
    DivBelow(r8, p, p);
    DivBelow(r7, p, Base * p * p);
    Digits(r8, p);
    Digits(r7, p);
    ModSplit(r5, p);
  }

  /** The first window step on r7 = r7lo + p r7hi: it succeeds when x1 + r7 - bl fits, and then leaves it in (z, h). */
  lemma LowFirst(p: nat, x1: nat, r7: nat, bl: nat, bm: nat, r7lo: nat, r7hi: nat, first: Option<(nat, nat)>)
    requires x1 < p && r7lo < p && bl < p && r7hi < Base * p * p && r7 == r7lo + p * r7hi
    requires first == CarryInto(x1, r7lo, bl, p, r7hi, Base * p * p)
    ensures first.Some? <==> 0 <= x1 + r7 - bl < Base * p * p * p
    ensures first.None? ==> !(bl + p * bm <= x1 + r7 && x1 + r7 - bl < Base * p * p * p)
    ensures first.Some? ==> first.value.0 < p && first.value.1 < Base * p * p
    ensures first.Some? ==> first.value.0 + p * first.value.1 == x1 + r7 - bl
  {
    MulMonotone(p, 0, bm);
  }

  /** The second window step, given what the first one left: z and h = hl + p hh. */
  lemma LowSecond(p: nat, x0: nat, x1: nat, r7: nat, bl: nat, bm: nat, z: nat, h: nat, hl: nat, hh: nat,
                  second: Option<(nat, nat)>)
    requires p > 0 && x0 < p && bl < p && bm < p && z < p && h < Base * p * p
    requires z + p * h == x1 + r7 - bl && h == hl + p * hh && hl < p
    requires second == BorrowInto(hl, bm, p, hh)
    ensures second.Some? <==> bl + p * bm <= x1 + r7
    ensures second.Some? ==> x0 + p * z < p * p && second.value.1 < Base * p
    ensures second.Some? ==> (x0 + p * z) + p * p * second.value.0 + p * p * p * second.value.1
                             == x0 + p * x1 + p * r7 - p * (bl + p * bm)
  {
    BorrowCovers(p, z, h, bm, x1 + r7 - bl);
    if second.Some? {
      MulMonotone(p, z, p - 1);
      Distrib(p, p, 1);
      if hh >= Base * p {
        MulMonotone(p, Base * p, hh);
      }
      LowAlgebra(p, x0, x1, r7, bl, bm, z, h, second.value.0, second.value.1);
    }
  }

  /** With x = z + p h and z below p, h covers bm exactly when x covers p bm. */
  lemma BorrowCovers(p: nat, z: nat, h: nat, bm: nat, x: int)
    requires z < p && x == z + p * h
    ensures bm <= h <==> p * bm <= x
  {
    if h < bm {
      MulMonotone(p, h + 1, bm);
      Distrib(p, h, 1);
    } else {
      MulMonotone(p, bm, h);
    }
  }

  /** The two window steps add up to r8 + p r7 - p (bl + p bm). */
  lemma LowAlgebra(p: int, x0: int, x1: int, r7: int, bl: int, bm: int, z: int, h: int, out2: int, u: int)
    requires z + p * h == x1 + r7 - bl && out2 + p * u == h - bm
    ensures (x0 + p * z) + p * p * out2 + p * p * p * u == x0 + p * x1 + p * r7 - p * (bl + p * bm)
  {
    ScaleEq(p, z, p, h, x1 + r7 - bl);
    ScaleEq(p * p, out2, p, u, h - bm);
    Distrib(p, x1 + r7, bl);
    Distrib(p, x1, r7);
    Distrib(p * p, h, bm);
    Distrib(p, bl, p * bm);
    MulAssoc(p, p, bm);
  }

  /** a + m b == c, scaled by k. */
  lemma ScaleEq(k: int, a: int, m: int, b: int, c: int)
    requires a + m * b == c
    ensures k * a + (k * m) * b == k * c
  {
    Distrib(k, a, m * b);
    MulAssoc(k, m, b);
  }

  lemma MulAssoc(a: int, b: int, c: int)
    ensures a * (b * c) == (a * b) * c
  {
  }

  /**
   * "Hr5+Lr3": h, the n + 1 limbs r5[2n..3n + 1], gains a in its low n limbs;
   * the carry out of them goes into the top limb with `wrapping_add_assign`.
   * The result is h + a reduced modulo B^(n+1).
   */
  function AddLowWrap(h: nat, a: nat, p: nat): (r: nat)
    requires p > 0 && h < Base * p && a < p
    ensures r < Base * p && r == (h + a) % (Base * p)
    ensures h + a < Base * p ==> r == h + a
  {
    Digits(h, p);
    var sum := h % p + a;
    var low: nat := if sum >= p then sum - p else sum;
    var top: nat := (h / p + (if sum >= p then 1 else 0)) % Base;
    WrapTop(h, a, p, h / p, sum, low, top);
    low + p * top
  }

  /** The arithmetic of AddLowWrap with its windows named. */
  lemma WrapTop(h: nat, a: nat, p: nat, hh: nat, sum: nat, low: nat, top: nat)
    requires p > 0 && h < Base * p && h == h % p + p * hh && 0 <= h % p < p && a < p && sum == h % p + a
    requires low == (if sum >= p then sum - p else sum)
    requires top == (hh + (if sum >= p then 1 else 0)) % Base
    ensures 0 <= p * top && low + p * top < Base * p && low + p * top == (h + a) % (Base * p)
    ensures h + a < Base * p ==> low + p * top == h + a
  {
    var c := if sum >= p then 1 else 0;
    assert hh < Base by {
      if hh >= Base {
        MulMonotone(p, Base, hh);
      }
    }
    Distrib(p, hh, c);
    assert h + a == low + p * (hh + c);
    MulMonotone(p, 0, top);
    MulMonotone(p, top, Base - 1);
    Distrib(p, Base, 1);
    if hh + c == Base {
      assert top == 0;
      ModUnique(h + a, Base * p, 1, low);
    } else {
      SmallDivMod(hh + c, Base);
      ModUnique(h + a, Base * p, 0, low + p * top);
    }
  }

  /**
   * "Mr5-Mr3,Hr5-Hr3": x loses y above its low n limbs, the borrow asserted
   * away: `assert!(!limbs_sub_same_length_in_place_left(&mut r5[n..], &r3[n..]))`.
   */
  function SubAbove(x: nat, y: nat, p: nat): (r: Option<nat>)
    requires p > 0
    ensures r.Some? <==> y - y % p <= x
    ensures r.Some? ==> r.value == x - (y - y % p)
  {
    Digits(x, p);
    Digits(y, p);
    FloorDivAtLeast(x, p, y / p);
    Distrib(p, x / p, y / p);
    if x / p < y / p then None
    else
      MulMonotone(p, 0, x / p - y / p);
      Some(x % p + p * (x / p - y / p))
  }

  /**
   * The r5 steps of the recomposition, for windows of weight p = B^n: r5 is
   * 3n + 1 limbs and u = r7[2n..] is what "Mr7-Mr5" left. "Hr5+Lr3" adds the
   * low window of r3 into r5[2n..] (wrapping its top limb); "Hr7+Lr5" and
   * "Hr7-Hr5+Lr5-Lr3" add u to and take r5[2n..] from r5[..n + 1], with
   * the net carry into r5[n + 1..] asserted to fit; "Mr5-Mr3,Hr5-Hr3" takes
   * r3 from r5 above the low window. The result is the new r5.
   */
  function RecomposeMiddle(p: nat, r5: nat, r3: nat, u: nat): (r: Option<nat>)
    requires p > 0 && r5 < Base * p * p * p && r3 < Base * p * p * p && u < Base * p
    ensures r.Some? ==> r.value < Base * p * p * p
    ensures 2 * r5 < Base * p * p * p ==>
              (r.Some? <==> r5 + p * p * (r3 % p) + u - r5 / (p * p) - r3 % p < Base * p * p * p
                            && r3 <= r5 + p * p * (r3 % p) + u - r5 / (p * p))
    ensures r.Some? && 2 * r5 < Base * p * p * p ==> r.value == r5 + p * p * (r3 % p) + u - r5 / (p * p) - r3
  {
    MidInputs(p, r5, r3);
    var h := AddLowWrap(r5 / (p * p), r3 % p, p);
    MidRaise(p, r5 % (p * p), h);
    var r5a := r5 % (p * p) + p * p * h;
    var first := CarryInto(r5a % (Base * p), u, h, Base * p, r5a / (Base * p), p * p);
    MidFirst(p, r5, r3, u, h, r5a, first);
    match first
    case None => None
    case Some(w) => SubAbove(w.0 + Base * p * w.1, r3, p)
  }

  /** What the r5 steps need of their inputs. */
  lemma MidInputs(p: nat, r5: nat, r3: nat)
    requires p > 0 && r5 < Base * p * p * p
    ensures 0 <= r5 / (p * p) < Base * p && 0 <= r5 % (p * p) < p * p
    ensures r5 == r5 % (p * p) + p * p * (r5 / (p * p))
    ensures 0 <= r3 % p < p && r3 % p <= r3
  {
    MulMonotone(p, 1, p);
    MulAssoc(p * p, Base, p);
    DivBelow(r5, p * p, Base * p);
    Digits(r5, p * p);
    Digits(r3, p);
    MulMonotone(p, 0, r3 / p);
  }

  /** r5 with h written into r5[2n..] stays within 3n + 1 limbs. */
  lemma MidRaise(p: nat, lo: nat, h: nat)
    requires p > 0 && lo < p * p && h < Base * p
    ensures 0 <= p * p * h && lo + p * p * h < Base * p * p * p
    ensures 0 <= (lo + p * p * h) / (Base * p) < p * p
    ensures 0 <= (lo + p * p * h) % (Base * p) < Base * p
    ensures lo + p * p * h == (lo + p * p * h) % (Base * p) + Base * p * ((lo + p * p * h) / (Base * p))
  {
    MulMonotone(p * p, 0, h);
    MulMonotone(p * p, h, Base * p - 1);
    Distrib(p * p, Base * p, 1);
    MulAssoc(p * p, Base, p);
    MulAssoc(Base * p, p, p);
    DivBelow(lo + p * p * h, Base * p, p * p);
    Digits(lo + p * p * h, Base * p);
  }

  /**
   * The window step on r5[..n + 1]: it fails only when the total leaves
   * 3n + 1 limbs, and without the wrap it leaves r5 + P^2 (r3 mod P) + u
   * - r5[2n..] - (r3 mod P).
   */
  lemma MidFirst(p: nat, r5: nat, r3: nat, u: nat, h: nat, r5a: nat, first: Option<(nat, nat)>)
    requires p > 0 && r5 < Base * p * p * p && u < Base * p && h < Base * p
    requires 0 <= r5 / (p * p) < Base * p && 0 <= r3 % p < p
    requires r5 == r5 % (p * p) + p * p * (r5 / (p * p))
    requires h == (r5 / (p * p) + r3 % p) % (Base * p)
    requires r5 / (p * p) + r3 % p < Base * p ==> h == r5 / (p * p) + r3 % p
    requires r5a == r5 % (p * p) + p * p * h && r5a < Base * p * p * p
    requires 0 <= r5a / (Base * p) < p * p && 0 <= r5a % (Base * p) < Base * p
    requires r5a == r5a % (Base * p) + Base * p * (r5a / (Base * p))
    requires first == CarryInto(r5a % (Base * p), u, h, Base * p, r5a / (Base * p), p * p)
    ensures first.Some? ==> 0 <= Base * p * first.value.1
    ensures first.Some? ==> first.value.0 + Base * p * first.value.1 < Base * p * p * p
    ensures first.Some? <==> r5a + u - h < Base * p * p * p
    ensures 2 * r5 < Base * p * p * p ==> r5a - h == r5 + p * p * (r3 % p) - r5 / (p * p) - r3 % p
  {
    MulAssoc(Base * p, p, p);
    MulMonotone(p, 1, p);
    MulMonotone(h, 1, p * p);
    if first.Some? {
      MulMonotone(Base * p, 0, first.value.1);
    }
    if 2 * r5 < Base * p * p * p {
      NoWrap(p, r5, r3 % p);
      Distrib(p * p, r5 / (p * p), r3 % p);
    }
  }

  /** Below half of 3n + 1 limbs, r5[2n..] plus a window cannot wrap. */
  lemma NoWrap(p: nat, r5: nat, a: nat)
    requires p > 0 && 2 * r5 < Base * p * p * p && a < p
    ensures r5 / (p * p) + a < Base * p
  {
    MulAssoc(p * p, Base / 2 * p, 1);
    assert r5 < (p * p) * (Base / 2 * p);
    DivBelow(r5, p * p, Base / 2 * p);
  }

  /**
   * The r1 steps: r1 (s + t limbs, weight p = B^n for its low window, k =
   * B^(s+t-n) windows above) gains a = r3[2n..]: its low window is added
   * into r1[..n], the carry goes into the top limb r3[3n] with
   * `wrapping_add_assign`, and that limb is asserted to be 0 when s + t = n
   * and otherwise added into r1[n..] with the carry asserted away.
   */
  function AddTop(p: nat, extra: nat, r1: nat, a: nat): (r: Option<nat>)
    requires p > 0 && r1 < p * Pow(Base, extra)
    ensures r.Some? ==> r.value < p * Pow(Base, extra)
    ensures a / p + 1 < Base ==> (r.Some? <==> r1 + a < p * Pow(Base, extra))
    ensures r.Some? && a / p + 1 < Base ==> r.value == r1 + a
  {
    Digits(r1, p);
    Digits(a, p);
    var g := r1 % p + a % p;
    var low: nat := if g >= p then g - p else g;
    var c: nat := if g >= p then 1 else 0;
    var top: nat := (a / p + c) % Base;
    TopSum(p, r1, a, r1 / p, a / p, g, low);
    if extra == 0 then
      TopOnly(p, r1, a, r1 / p, a / p, low, c, top);
      if top != 0 then None else Some(low)
    else
      TopAbove(p, Pow(Base, extra), r1, a, r1 / p, a / p, low, c, top);
      if r1 / p + top >= Pow(Base, extra) then None
      else Some(low + p * (r1 / p + top))
  }

  /** s + t = n: r1 has a single window, and the top limb must come out 0. */
  lemma TopOnly(p: nat, r1: nat, a: nat, r1hi: nat, ahi: nat, low: nat, c: nat, top: nat)
    requires p > 0 && r1 < p * Pow(Base, 0) && low < p && c <= 1 && r1 == r1 % p + p * r1hi && r1 % p < p
    requires r1 + a == low + p * (r1hi + ahi + c) && top == (ahi + c) % Base
    ensures low < p * Pow(Base, 0)
    ensures ahi + 1 < Base ==> (top == 0 <==> r1 + a < p * Pow(Base, 0))
    ensures ahi + 1 < Base && top == 0 ==> low == r1 + a
  {
    assert r1hi == 0 by {
      if r1hi > 0 {
        MulMonotone(p, 1, r1hi);
      }
    }
    if ahi + 1 < Base {
      SmallDivMod(ahi + c, Base);
      WindowBound(low, p, ahi + c, 1);
    }
  }

  /** s + t > n: the top limb goes into r1[n..], below k = B^(s+t-n). */
  lemma TopAbove(p: nat, k: nat, r1: nat, a: nat, r1hi: nat, ahi: nat, low: nat, c: nat, top: nat)
    requires p > 0 && low < p && c <= 1
    requires r1 + a == low + p * (r1hi + ahi + c) && top == (ahi + c) % Base
    ensures 0 <= p * (r1hi + top)
    ensures r1hi + top < k ==> low + p * (r1hi + top) < p * k
    ensures ahi + 1 < Base ==> (r1 + a < p * k <==> r1hi + top < k) && low + p * (r1hi + top) == r1 + a
  {
    MulMonotone(p, 0, r1hi + top);
    WindowBound(low, p, r1hi + top, k);
    if ahi + 1 < Base {
      SmallDivMod(ahi + c, Base);
      MulCongr(p, r1hi + top, r1hi + ahi + c);
    }
  }

  /** The sum in AddTop with its windows named: r1 + a is low + p (r1hi + ahi + carry). */
  lemma TopSum(p: nat, r1: nat, a: nat, r1hi: nat, ahi: nat, g: nat, low: nat)
    requires p > 0 && r1 == r1 % p + p * r1hi && a == a % p + p * ahi && r1 % p < p && a % p < p
    requires g == r1 % p + a % p && low == (if g >= p then g - p else g)
    ensures r1 + a == low + p * (r1hi + ahi + (if g >= p then 1 else 0)) && low < p
  {
    Distrib(p, r1hi + ahi, if g >= p then 1 else 0);
    Distrib(p, r1hi, ahi);
  }

  /**
   * The top of the recomposition, for windows of weight p = B^n: with r5 as
   * the r5 steps left it (3n + 1 limbs), r5[3n..4n] becomes r3[n..2n] plus
   * the limb r5[3n], its carry asserted not to overflow r3[2n..]; then r1
   * gains r3[2n..] (AddTop). The result is (r5[..4n], r1).
   */
  function RecomposeTop(p: nat, extra: nat, r5: nat, r3: nat, r1: nat): (r: Option<(nat, nat)>)
    requires Base <= p && r5 < Base * p * p * p && r3 < Base * p * p * p && r1 < p * Pow(Base, extra)
    ensures r.Some? ==> r.value.0 < p * p * p * p && r.value.1 < p * Pow(Base, extra)
    ensures 2 * r3 < Base * p * p * p ==>
              (r.Some? <==> r1 + (r5 + p * p * p * (r3 / p)) / (p * p * p * p) < p * Pow(Base, extra))
    ensures r.Some? && 2 * r3 < Base * p * p * p ==>
              r.value.0 == (r5 + p * p * p * (r3 / p)) % (p * p * p * p)
              && r.value.1 == r1 + (r5 + p * p * p * (r3 / p)) / (p * p * p * p)
  {
    TopInputs(p, r5, r3);
    var e := (r3 / p) % p + r5 / (p * p * p);
    var low: nat := if e >= p then e - p else e;
    var hi: nat := r3 / (p * p) + (if e >= p then 1 else 0);
    TopCarry(p, r5, r5 % (p * p * p), r5 / (p * p * p), r3 / p, (r3 / p) % p, r3 / (p * p), e, low, hi);
    TopNoWrap(p, r3, hi);
    if hi >= Base * p then None
    else
      match AddTop(p, extra, r1, hi)
      case None => None
      case Some(v) => Some((r5 % (p * p * p) + p * p * p * low, v))
  }

  /** What the top steps need of their inputs. */
  lemma TopInputs(p: nat, r5: nat, r3: nat)
    requires Base <= p && r5 < Base * p * p * p && r3 < Base * p * p * p
    ensures r5 == r5 % (p * p * p) + p * p * p * (r5 / (p * p * p))
    ensures 0 <= r5 % (p * p * p) < p * p * p && 0 <= r5 / (p * p * p) < Base
    ensures r3 / p == (r3 / p) % p + p * (r3 / (p * p)) && 0 <= (r3 / p) % p < p && 0 <= r3 / (p * p)
  {
    TopWindow(p, r5);
    ModSplit(r3, p);
    Digits(r3 / p, p);
    MulCongr(p, r3 / (p * p), (r3 / p) / p);
  }

  /** r5 is its low 3n limbs plus its top limb. */
  lemma TopWindow(p: nat, r5: nat)
    requires Base <= p && r5 < Base * p * p * p
    ensures r5 == r5 % (p * p * p) + p * p * p * (r5 / (p * p * p))
    ensures 0 <= r5 % (p * p * p) < p * p * p && 0 <= r5 / (p * p * p) < Base
  {
    MulMonotone(p, 1, p);
    MulMonotone(p * p, 1, p);
    Digits(r5, p * p * p);
    DivBelow(r5, p * p * p, Base);
  }

  /**
   * The carry of r5[3n..4n] = r3[n..2n] + r5[3n] into r3[2n..], on named
   * windows: r5 + P^3 (r3 / P) is the new r5[..4n] plus P^4 times the new r3[2n..].
   */
  lemma TopCarry(p: nat, r5: nat, r5lo: nat, r5hi: nat, q: nat, am: nat, ah: nat, e: nat, low: nat, hi: nat)
    requires Base <= p && r5 == r5lo + p * p * p * r5hi && r5lo < p * p * p && r5hi < Base
    requires q == am + p * ah && am < p && e == am + r5hi
    requires low == (if e >= p then e - p else e) && hi == ah + (if e >= p then 1 else 0)
    ensures 0 <= p * p * p * low && r5lo + p * p * p * low < p * p * p * p
    ensures r5 + p * p * p * q == (r5lo + p * p * p * low) + p * p * p * p * hi
    ensures r5lo + p * p * p * low == (r5 + p * p * p * q) % (p * p * p * p)
    ensures hi == (r5 + p * p * p * q) / (p * p * p * p)
  {
    var c := if e >= p then 1 else 0;
    assert low < p && e == low + p * c;
    MulMonotone(p * p * p, 0, low);
    MulMonotone(p * p * p, low, p - 1);
    Distrib(p * p * p, p, 1);
    ScaleEq(p * p * p, am, p, ah, q);
    ScaleEq(p * p * p, low, p, c, e);
    Distrib(p * p * p, am, r5hi);
    Distrib(p * p * p * p, ah, c);
    ModUnique(r5 + p * p * p * q, p * p * p * p, hi, r5lo + p * p * p * low);
  }

  /** Below half of 3n + 1 limbs, r3[2n..] keeps its carry and its top limb stays below B - 1. */
  lemma TopNoWrap(p: nat, r3: nat, hi: nat)
    requires Base <= p && r3 < Base * p * p * p && hi <= r3 / (p * p) + 1
    ensures 2 * r3 < Base * p * p * p ==> hi < Base * p && hi / p + 1 < Base
  {
    if 2 * r3 < Base * p * p * p {
      MulMonotone(p, 1, p);
      MulAssoc(p * p, Base / 2 * p, 1);
      DivBelow(r3, p * p, Base / 2 * p);
      Distrib(p, Base / 2, 1);
      DivBelow(hi, p, Base / 2 + 1);
    }
  }

  /**
   * The recomposition on windows of weight p = B^n (p at least B), r1 below
   * p k with k = B^(s+t-n). The output holds the low stage's out[..3n] at
   * weights 1 and p^2, the new r5[..4n] at p^3 and the new r1 at p^7.
   */
  function RecomposeWindows(p: nat, extra: nat, r8: nat, r7: nat, r5: nat, r3: nat, r1: nat): (r: Option<nat>)
    requires Base <= p && r8 < p * p && r7 < Base * p * p * p && r5 < Base * p * p * p && r3 < Base * p * p * p
    requires r1 < p * Pow(Base, extra)
    ensures r.Some? ==> r.value < p * p * (p * (p * p * p * p * (p * Pow(Base, extra))))
    ensures r.Some? && 2 * r5 < Base * p * p * p && 2 * r3 < Base * p * p * p ==>
              r.value == Recompose8(p, r8, r7, r5, r3, r1)
  {
    match RecomposeLow(p, r8, r7, r5)
    case None => None
    case Some(low) =>
      match RecomposeMiddle(p, r5, r3, low.2)
      case None => None
      case Some(mid) =>
        match RecomposeTop(p, extra, mid, r3, r1)
        case None => None
        case Some(top) =>
          Assembled(p, extra, r8, r7, r5, r3, r1, low, mid, top);
          Some(Assemble(p, low.0, low.1, top.0, top.1))
  }

  /** The output limbs: out[..2n] and out[2n..3n] at weights 1 and p^2, then r5[..4n] at p^3 and r1 at p^7. */
  function Assemble(p: nat, o1: nat, o2: nat, full: nat, top: nat): int
  {
    o1 + p * p * (o2 + p * (full + p * p * p * p * top))
  }

  /** The assembled windows fit in 7n+s+t limbs, and with r5 and r3 below half their limbs they are the recomposition. */
  lemma Assembled(p: nat, extra: nat, r8: nat, r7: nat, r5: nat, r3: nat, r1: nat,
                  low: (nat, nat, nat), mid: nat, top: (nat, nat))
    requires Base <= p && r8 < p * p && r7 < Base * p * p * p && r5 < Base * p * p * p && r3 < Base * p * p * p
    requires r1 < p * Pow(Base, extra)
    requires RecomposeLow(p, r8, r7, r5) == Some(low)
    requires RecomposeMiddle(p, r5, r3, low.2) == Some(mid)
    requires RecomposeTop(p, extra, mid, r3, r1) == Some(top)
    ensures 0 <= Assemble(p, low.0, low.1, top.0, top.1) < p * p * (p * (p * p * p * p * (p * Pow(Base, extra))))
    ensures 2 * r5 < Base * p * p * p && 2 * r3 < Base * p * p * p ==>
              Assemble(p, low.0, low.1, top.0, top.1) == Recompose8(p, r8, r7, r5, r3, r1)
  {
    WindowsFit(p, p * Pow(Base, extra), low.0, low.1, top.0, top.1);
    if 2 * r5 < Base * p * p * p && 2 * r3 < Base * p * p * p {
      WindowsValue(p, r8, r7, r5, r3, r1, low.0, low.1, low.2, mid, top.0, top.1);
    }
  }

  /** The output windows, each within its limbs, stay below p^7 k. */
  lemma WindowsFit(p: nat, k: nat, o1: nat, o2: nat, full: nat, top: nat)
    requires p > 0 && o1 < p * p && o2 < p && full < p * p * p * p && top < k
    ensures 0 <= Assemble(p, o1, o2, full, top) < p * p * (p * (p * p * p * p * k))
  {
    var p4 := p * p * p * p;
    WindowBound(full, p4, top, k);
    WindowBound(o2, p, full + p4 * top, p4 * k);
    WindowBound(o1, p * p, o2 + p * (full + p4 * top), p * (p4 * k));
  }

  /** With r5 and r3 below half their limbs, the stages' windows add up to the recomposition. */
  lemma WindowsValue(p: nat, r8: nat, r7: nat, r5: nat, r3: nat, r1: nat, o1: nat, o2: nat, u: nat,
                     mid: nat, full: nat, top: nat)
    requires p > 0
    requires o1 + p * p * o2 + p * p * p * u == r8 + p * r7 - p * (r5 % (p * p))
    requires mid == r5 + p * p * (r3 % p) + u - r5 / (p * p) - r3
    requires full == (mid + p * p * p * (r3 / p)) % (p * p * p * p)
    requires top == r1 + (mid + p * p * p * (r3 / p)) / (p * p * p * p)
    ensures Assemble(p, o1, o2, full, top) == Recompose8(p, r8, r7, r5, r3, r1)
  {
    Digits(r5, p * p);
    Digits(r3, p);
    DivSplit(mid + p * p * p * (r3 / p), p * p * p * p);
    TopWindowsValue(p, full, (mid + p * p * p * (r3 / p)) / (p * p * p * p), r1, mid, r3 / p,
                    full + p * p * p * p * top);
    MiddleWindowsValue(p, full + p * p * p * p * top, mid, u, r5, r3, r5 / (p * p), r3 % p, r3 / p, r1,
                       (r5 - r3) + p * p * (r3 + p * p * r1));
    LowWindowsValue(p, o1, o2, u, full + p * p * p * p * top, r8, r7, r5, r5 % (p * p), r5 / (p * p),
                    (r5 - r3) + p * p * (r3 + p * p * r1));
  }

  /** The top windows: full + p^4 (r1 + hi) is the new r5 with the carried r3 and r1 above it. */
  lemma TopWindowsValue(p: int, full: int, hi: int, r1: int, mid: int, q: int, y: int)
    requires full + p * p * p * p * hi == mid + p * p * p * q
    requires y == full + p * p * p * p * (r1 + hi)
    ensures y == mid + p * p * p * q + p * p * p * p * r1
  {
    Distrib(p * p * p * p, r1, hi);
  }

  /** The middle stage leaves y = u + m - bh, where m is the inner Horner term of the recomposition. */
  lemma MiddleWindowsValue(p: int, y: int, mid: int, u: int, r5: int, r3: int, bh: int, al: int, q: int, r1: int, m: int)
    requires r3 == al + p * q
    requires mid == r5 + p * p * al + u - bh - r3
    requires y == mid + p * p * p * q + p * p * p * p * r1
    requires m == (r5 - r3) + p * p * (r3 + p * p * r1)
    ensures y == u + m - bh
  {
    Distrib(p * p, r3, p * p * r1);
    ScaleEq(p * p, al, p, q, r3);
    MulAssoc(p * p, p * p, r1);
  }

  /** The low stage closes the Horner form: o1 + p^2 (o2 + p y) = r8 + p ((r7 - r5) + p^2 m). */
  lemma LowWindowsValue(p: int, o1: int, o2: int, u: int, y: int, r8: int, r7: int, r5: int, bl: int, bh: int, m: int)
    requires r5 == bl + p * p * bh
    requires o1 + p * p * o2 + p * p * p * u == r8 + p * r7 - p * bl
    requires y == u + m - bh
    ensures o1 + p * p * (o2 + p * y) == r8 + p * ((r7 - r5) + p * p * m)
  {
    Distrib(p * p, o2, p * y);
    MulAssoc(p * p, p, y);
    Distrib(p * p * p, u + m, bh);
    Distrib(p * p * p, u, m);
    Distrib(p, r7 - r5, p * p * m);
    Distrib(p, r7, r5);
    MulAssoc(p, p * p, m);
    ScaleEq(p, bl, p * p, bh, r5);
  }

  /**
   * The recomposition on the source's limb counts: r8 of 2n limbs, r7, r5
   * and r3 of 3n + 1 limbs, r1 of s + t limbs with n <= s + t. A result
   * fits the 7n + s + t limbs of `out`; with r5 and r3 below half their
   * limbs it is the recomposition itself.
   */
  function Recompose8Limbs(n: nat, spt: nat, r8: nat, r7: nat, r5: nat, r3: nat, r1: nat): (r: Option<nat>)
    requires 1 <= n <= spt
    requires r8 < Pow(Base, 2 * n) && r7 < Pow(Base, 3 * n + 1) && r5 < Pow(Base, 3 * n + 1)
    requires r3 < Pow(Base, 3 * n + 1) && r1 < Pow(Base, spt)
    ensures r.Some? ==> r.value < Pow(Base, 7 * n + spt)
    ensures r.Some? && 2 * r5 < Pow(Base, 3 * n + 1) && 2 * r3 < Pow(Base, 3 * n + 1) ==>
              r.value == Recompose8(Pow(Base, n), r8, r7, r5, r3, r1)
  {
    LimbPowers(n, spt, Pow(Base, n), Pow(Base, spt - n));
    RecomposeWindows(Pow(Base, n), spt - n, r8, r7, r5, r3, r1)
  }

  /** The limb counts as products of p = B^n and k = B^(s+t-n). */
  lemma LimbPowers(n: nat, spt: nat, p: nat, k: nat)
    requires 1 <= n <= spt && p == Pow(Base, n) && k == Pow(Base, spt - n)
    ensures Base <= p && Pow(Base, 2 * n) == p * p && Pow(Base, 3 * n + 1) == Base * p * p * p
    ensures Pow(Base, spt) == p * k && Pow(Base, 7 * n + spt) == p * p * (p * (p * p * p * p * (p * k)))
  {
    PowMonotone(Base, 1, n);
    PowAdd(Base, n, spt - n);
    var p4 := FourPowers(n, p);
    assert Pow(Base, 4 * n + spt) == p4 * (p * k) by { PowAdd(Base, 4 * n, spt); }
    assert Pow(Base, 5 * n + spt) == p * (p4 * (p * k)) by { PowAdd(Base, n, 4 * n + spt); }
    assert Pow(Base, 7 * n + spt) == (p * p) * (p * (p4 * (p * k))) by { PowAdd(Base, 2 * n, 5 * n + spt); }
  }

  /** B^(2n), B^(3n + 1) and B^(4n) as products of p = B^n. */
  lemma FourPowers(n: nat, p: nat) returns (p4: nat)
    requires p == Pow(Base, n)
    ensures Pow(Base, 2 * n) == p * p && Pow(Base, 3 * n + 1) == Base * p * p * p
    ensures p4 == Pow(Base, 4 * n) == p * p * p * p
  {
    PowAdd(Base, n, n);
    var p2 := Pow(Base, 2 * n);
    assert Pow(Base, 3 * n) == p2 * p by { PowAdd(Base, 2 * n, n); }
    var p3 := Pow(Base, 3 * n);
    assert Pow(Base, 3 * n + 1) == p3 * Base by { PowBaseStep(3 * n); }
    assert Pow(Base, 4 * n) == p3 * p by { PowAdd(Base, 3 * n, n); }
    p4 := Pow(Base, 4 * n);
  }

  /**
   * The recomposition succeeds on the values the 8-point interpolation
   * hands over: r3 <= r5 <= r7, r5 and r3 below half their limbs, r7 plus
   * the high half of r8 within 3n + 1 limbs, and a result that fits.
   */
  lemma Recompose8LimbsSucceeds(n: nat, spt: nat, r8: nat, r7: nat, r5: nat, r3: nat, r1: nat)
    requires 1 <= n <= spt
    requires r8 < Pow(Base, 2 * n) && r7 < Pow(Base, 3 * n + 1) && r1 < Pow(Base, spt)
    requires 2 * r5 < Pow(Base, 3 * n + 1) && 2 * r3 < Pow(Base, 3 * n + 1) && r3 <= r5 <= r7
    requires r7 + r8 / Pow(Base, n) < Pow(Base, 3 * n + 1)
    requires Recompose8(Pow(Base, n), r8, r7, r5, r3, r1) < Pow(Base, 7 * n + spt)
    ensures Recompose8Limbs(n, spt, r8, r7, r5, r3, r1) == Some(Recompose8(Pow(Base, n), r8, r7, r5, r3, r1))
  {
    LimbPowers(n, spt, Pow(Base, n), Pow(Base, spt - n));
    WindowsSucceed(Pow(Base, n), spt - n, r8, r7, r5, r3, r1);
  }

  /** RecomposeWindows succeeds, and so yields the recomposition, under the same conditions. */
  lemma WindowsSucceed(p: nat, extra: nat, r8: nat, r7: nat, r5: nat, r3: nat, r1: nat)
    requires Base <= p && r8 < p * p && r7 < Base * p * p * p && r1 < p * Pow(Base, extra)
    requires 2 * r5 < Base * p * p * p && 2 * r3 < Base * p * p * p && r3 <= r5 <= r7
    requires r7 + r8 / p < Base * p * p * p
    requires Recompose8(p, r8, r7, r5, r3, r1) < p * p * (p * (p * p * p * p * (p * Pow(Base, extra))))
    ensures RecomposeWindows(p, extra, r8, r7, r5, r3, r1) == Some(Recompose8(p, r8, r7, r5, r3, r1))
  {
    var low := LowSucceeds(p, r8, r7, r5);
    var mid := MiddleSucceeds(p, r5, r3, low.2);
    TopSucceeds(p, extra, r8, r7, r5, r3, r1, low, mid);
  }

  /** The low stage succeeds when r5 <= r7 and r7 with r8's high half fits, and its carry covers r5's high part. */
  lemma LowSucceeds(p: nat, r8: nat, r7: nat, r5: nat) returns (low: (nat, nat, nat))
    requires p > 0 && r8 < p * p && r7 < Base * p * p * p && r5 <= r7 && r7 + r8 / p < Base * p * p * p
    ensures RecomposeLow(p, r8, r7, r5) == Some(low) && r5 / (p * p) <= low.2
  {
    Digits(r5, p * p);
    Digits(r5, p);
    Digits(r8, p);
    MulMonotone(p * p, 0, r5 / (p * p));
    assert RecomposeLow(p, r8, r7, r5).Some?;
    low := RecomposeLow(p, r8, r7, r5).value;
    CarryCovers(p, low.0, low.1, low.2, r8, r7, r5 % (p * p), r5 / (p * p));
  }

  /** The carry u out of the low stage is at least the high part bh of r5, because r7 >= r5. */
  lemma CarryCovers(p: nat, o1: nat, o2: nat, u: nat, r8: nat, r7: nat, bl: nat, bh: nat)
    requires p > 0 && o1 < p * p && o2 < p
    requires o1 + p * p * o2 + p * p * p * u == r8 + p * r7 - p * bl
    requires bl + p * p * bh <= r7
    ensures bh <= u
  {
    if u < bh {
      MulMonotone(p * p, o2, p - 1);
      MulMonotone(p * p * p, u, bh - 1);
      MulMonotone(p, p * p * bh, r7 - bl);
      Distrib(p * p * p, bh, 1);
      Distrib(p * p, p, 1);
      MulAssoc(p, p * p, bh);
      Distrib(p, r7, bl);
      assert false;
    }
  }

  /** The middle stage succeeds when r3 <= r5 < L/2 and the carry covers r5's high part. */
  lemma MiddleSucceeds(p: nat, r5: nat, r3: nat, u: nat) returns (mid: nat)
    requires Base <= p && 2 * r5 < Base * p * p * p && r3 <= r5 && u < Base * p && r5 / (p * p) <= u
    ensures RecomposeMiddle(p, r5, r3, u) == Some(mid)
  {
    MidInputs(p, r5, r3);
    MiddleRoom(p, r5, r3 % p, u);
    mid := RecomposeMiddle(p, r5, r3, u).value;
  }

  /** r5 below half its limbs leaves room for a window below p^3 and a carry below B p. */
  lemma MiddleRoom(p: nat, r5: nat, al: nat, u: nat)
    requires Base <= p && 2 * r5 < Base * p * p * p && al < p && u < Base * p
    ensures r5 + p * p * al + u < Base * p * p * p
  {
    MulMonotone(p * p, al, p - 1);
    MulMonotone(p, Base, p);
    MulMonotone(p * p, 1, p);
    MulMonotone(p * p * p, 4, Base);
  }

  /** The top stage succeeds when the recomposition fits: its window sum then carries into r1 without overflow. */
  lemma TopSucceeds(p: nat, extra: nat, r8: nat, r7: nat, r5: nat, r3: nat, r1: nat, low: (nat, nat, nat), mid: nat)
    requires Base <= p && r8 < p * p && r7 < Base * p * p * p && r1 < p * Pow(Base, extra)
    requires 2 * r5 < Base * p * p * p && 2 * r3 < Base * p * p * p && r5 <= r7
    requires RecomposeLow(p, r8, r7, r5) == Some(low)
    requires RecomposeMiddle(p, r5, r3, low.2) == Some(mid)
    requires Recompose8(p, r8, r7, r5, r3, r1) < p * p * (p * (p * p * p * p * (p * Pow(Base, extra))))
    ensures RecomposeTop(p, extra, mid, r3, r1).Some?
    ensures RecomposeWindows(p, extra, r8, r7, r5, r3, r1) == Some(Recompose8(p, r8, r7, r5, r3, r1))
  {
    var v := mid + p * p * p * (r3 / p);
    Digits(r3, p);
    MulMonotone(p * p * p, 0, r3 / p);
    Digits(v, p * p * p * p);
    WindowsValue(p, r8, r7, r5, r3, r1, low.0, low.1, low.2, mid, v % (p * p * p * p), r1 + v / (p * p * p * p));
    WindowsFitInverse(p, p * Pow(Base, extra), low.0, low.1, v % (p * p * p * p), r1 + v / (p * p * p * p));
  }

  /** Conversely, assembled windows below p^7 k have their top window below k. */
  lemma WindowsFitInverse(p: nat, k: nat, o1: nat, o2: nat, full: nat, top: nat)
    requires p > 0 && o1 < p * p && o2 < p && full < p * p * p * p
    requires Assemble(p, o1, o2, full, top) < p * p * (p * (p * p * p * p * k))
    ensures top < k
  {
    var p4 := p * p * p * p;
    MulMonotone(p4, 0, top);
    MulMonotone(p, 0, full + p4 * top);
    WindowBound(o1, p * p, o2 + p * (full + p4 * top), p * (p4 * k));
    WindowBound(o2, p, full + p4 * top, p4 * k);
    WindowBound(full, p4, top, k);
  }
}
