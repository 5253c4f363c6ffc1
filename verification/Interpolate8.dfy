/**
 * The 8-point interpolation of Toom-6.5 and Toom-8.5 at the value level,
 * with the two shift-and-subtract helpers it is built from and the couple
 * handling that prepares its inputs. A buffer of k limbs is a natural
 * below B^k; `None` stands for a failed `assert!` (a borrow the source
 * rules out, a shift that is not exact, a slice index out of range) or an
 * exact division handed a value it does not divide.
 */
module Interpolate8 {
  import opened Limbs
  import opened ToomEval
  import opened Interpolate
  import opened Modular
  import opened Recomposition8

  /**
   * x - v for x below m, written as a remainder below m less a whole number
   * of m's: the low limbs of a subtraction and what it takes from above.
   */
  function SubSplit(x: nat, v: nat, m: nat): (r: (nat, nat))
    requires x < m
    ensures r.0 < m && r.1 <= v / m + 1
    ensures x - v == r.0 - r.1 * m
    ensures r.0 == (x - v) % m
  {
    var lo: nat := v % m;
    var out: nat := v / m;
    DivModParts(v, m, lo, out);
    SubSplitCase(x, v, m, lo, out);
    var r: (nat, nat) := if x < lo then (x + m - lo, out + 1) else (x - lo, out);
    ModBelowDifference(x - v, m, r.1, r.0);
    r
  }

  lemma DivModParts(v: nat, m: nat, lo: nat, out: nat)
    requires m > 0 && lo == v % m && out == v / m
    ensures v == m * out + lo && lo < m
  {
  }

  /** The two cases of SubSplit on v = m out + lo with lo below m. */
  lemma SubSplitCase(x: nat, v: nat, m: nat, lo: nat, out: nat)
    requires x < m && v == m * out + lo && lo < m
    ensures x < lo ==> x - v == (x + m - lo) - (out + 1) * m
    ensures lo <= x ==> x - v == (x - lo) - out * m
  {
    assert (out + 1) * m == m * out + m;
  }

  /** a = r - q m with r below m leaves remainder r. */
  lemma ModBelowDifference(a: int, m: nat, q: nat, r: nat)
    requires a == r - q * m && r < m
    ensures a % m == r
  {
    var k: int := -(q as int);
    assert a == k * m + r;
    ModUnique(a, m, k, r);
  }

  /**
   * `shl_and_sub_same_length` (GMP's DO_mpn_sublsh_n): the low `len` limbs
   * of xs become xs - (ys << shift) modulo B^len, and the returned limb is
   * the bits shifted out of the top plus the borrow. Those bits number at
   * most 2^shift - 1, so adding the borrow cannot wrap the limb.
   */
  function ShlAndSubSameLength(x: nat, y: nat, len: nat, shift: nat): (r: (nat, nat))
    requires x < Pow(Base, len) && y < Pow(Base, len) && shift < Width
    ensures r.0 < Pow(Base, len) && r.1 <= Pow2(shift)
    ensures x - y * Pow2(shift) == r.0 - r.1 * Pow(Base, len)
    ensures r.0 == (x - y * Pow2(shift)) % Pow(Base, len)
  {
    var m: nat := Pow(Base, len);
    MulMonotone(y, 0, Pow2(shift));
    var r := SubSplit(x, y * Pow2(shift), m);
    MulDivBelow(y, Pow2(shift), m);
    r
  }

  /**
   * The pattern `cy = shl_and_sub_same_length(xs, ys, shift)` followed by
   * `assert!(!limbs_sub_limb_in_place(&mut xs[ys.len()..], cy))`: the
   * whole of xs loses ys << shift, and the source asserts it stays
   * non-negative. xs must be at least as long as ys.
   */
  function ShlSubPropagate(x: nat, xLen: nat, y: nat, yLen: nat, shift: nat): (r: Option<nat>)
    requires x < Pow(Base, xLen) && y < Pow(Base, yLen) && shift < Width
    ensures r.Some? <==> yLen <= xLen && y * Pow2(shift) <= x
    ensures r.Some? ==> r.value == x - y * Pow2(shift)
  {
    if xLen < yLen then None
    else
      var m: nat := Pow(Base, yLen);
      var lo: nat := x % m;
      var hi: nat := x / m;
      var sub := ShlAndSubSameLength(lo, y, yLen, shift);
      DivSplit(x, m);
      BorrowFromHigh(x, m, lo, hi, sub.0, sub.1, y * Pow2(shift));
      if hi < sub.1 then None
      else
        var rest: nat := hi - sub.1;
        Some(sub.0 + m * rest)
  }

  /**
   * x = lo + m hi loses v, with the low part's subtraction leaving r0 and
   * taking r1 from above: the high part covers r1 exactly when x covers v.
   */
  lemma BorrowFromHigh(x: nat, m: nat, lo: nat, hi: nat, r0: nat, r1: nat, v: int)
    requires m > 0 && x == lo + m * hi && lo - v == r0 - r1 * m && r0 < m
    ensures hi >= r1 <==> v <= x
    ensures hi >= r1 ==> r0 + m * (hi - r1) == x - v
  {
    assert x - v == r0 + m * hi - r1 * m;
    assert m * hi - r1 * m == m * (hi - r1);
    if hi < r1 {
      MulMonotone(m, hi - r1, -1);
    } else {
      MulMonotone(m, 0, hi - r1);
    }
  }

  lemma MulRegroup(d: nat, e: nat, a: nat)
    ensures d * (a * e) == (d * e) * a
  {
  }

  /** y / 2^shift splits at the first limb: (y mod B) / 2^shift plus (y / B) 2^(W - shift). */
  lemma ShiftSplit(y: nat, shift: nat)
    requires shift <= Width
    ensures y / Pow2(shift) == (y % Base) / Pow2(shift) + (y / Base) * Pow2(Width - shift)
  {
    BaseIsPow2();
    PowAdd(2, shift, Width - shift);
    var d: nat := Pow2(shift);
    var e: nat := Pow2(Width - shift);
    assert Base == d * e;
    var a: nat := y / Base;
    var lo: nat := y % Base;
    var k: nat := a * e;
    assert y == lo + Base * a;
    MulRegroup(d, e, a);
    assert y == lo + d * k;
    DivAddMultiple(lo, d, k);
  }

  /**
   * `shl_and_sub` (GMP's DO_mpn_subrsh): xs loses ys >> shift, computed as
   * ys[0] >> shift taken from the whole of xs and then ys[1..] << (W - shift)
   * taken from its low limbs; both borrows are asserted away.
   */
  function ShlAndSub(x: nat, xLen: nat, y: nat, yLen: nat, shift: nat): (r: Option<nat>)
    requires x < Pow(Base, xLen) && y < Pow(Base, yLen) && 0 < shift < Width
    ensures r.Some? <==> 1 <= yLen && yLen - 1 <= xLen && y / Pow2(shift) <= x
    ensures r.Some? ==> r.value == x - y / Pow2(shift)
  {
    if yLen == 0 then None
    else
      var a: nat := (y % Base) / Pow2(shift);
      var hi: nat := y / Base;
      ShiftParts(y, yLen, shift, a, hi);
      if x < a then None
      else ShlSubPropagate(x - a, xLen, hi, yLen - 1, Width - shift)
  }

  /** The two pieces `shl_and_sub` takes away: the low limb's bits and the higher limbs moved down. */
  lemma ShiftParts(y: nat, yLen: nat, shift: nat, a: nat, hi: nat)
    requires 1 <= yLen && y < Pow(Base, yLen) && shift <= Width
    requires a == (y % Base) / Pow2(shift) && hi == y / Base
    ensures y / Pow2(shift) == a + hi * Pow2(Width - shift) && hi < Pow(Base, yLen - 1)
    ensures 0 <= hi * Pow2(Width - shift)
  {
    ShiftSplit(y, shift);
    assert Pow(Base, yLen) == Base * Pow(Base, yLen - 1);
    DivBelow(y, Base, Pow(Base, yLen - 1));
    MulMonotone(Pow2(Width - shift), 0, hi);
  }

  /**
   * `_limbs_toom_couple_handling`: given xs = f(x) in its low `len` limbs
   * and ys = |f(-x)| (negative when `ySign`), every sum and difference kept
   * modulo B^len as the limb code keeps it, it forms the even part
   * E = (f(x) + f(-x)) / 2 and odd part O = f(x) - E and leaves
   * (O >> xShift) + B^offset (E >> yShift) in len + offset limbs of xs. The
   * carry into the top limbs is asserted not to overflow them.
   */
  function CoupleHandling(xs: nat, xsLen: nat, ys: nat, len: nat, ySign: bool, offset: nat, xShift: nat, yShift: nat)
    : (r: Option<nat>)
    requires xs < Pow(Base, len) && ys < Pow(Base, len)
    ensures r.Some? ==> len + offset <= xsLen && offset <= len && r.value < Pow(Base, len + offset)
  {
    if xsLen < len + offset || offset > len then None
    else
      var m: nat := Pow(Base, len);
      var s: nat := if ySign then (xs - ys) % m else (xs + ys) % m;
      var e: nat := s / 2;
      var o: nat := (xs - e) % m;
      var lo: nat := o / Pow2(xShift);
      var hi: nat := e / Pow2(yShift);
      var v: nat := lo + Pow(Base, offset) * hi;
      if v < Pow(Base, len + offset) then Some(v) else None
  }

  /**
   * On a value split as f(x) = E + O, f(-x) = E - O with E, O >= 0 and
   * 2 E below B^len, couple handling yields O >> xShift + B^offset (E >> yShift).
   */
  lemma CoupleHandlingOfParts(e: nat, o: nat, len: nat, xsLen: nat, offset: nat, xShift: nat, yShift: nat)
    requires 2 * e < Pow(Base, len) && e + o < Pow(Base, len)
    requires len + offset <= xsLen && offset <= len
    requires o / Pow2(xShift) + Pow(Base, offset) * (e / Pow2(yShift)) < Pow(Base, len + offset)
    ensures
      var neg := e < o;
      var ys: nat := if neg then o - e else e - o;
      CoupleHandling(e + o, xsLen, ys, len, neg, offset, xShift, yShift)
        == Some(o / Pow2(xShift) + Pow(Base, offset) * (e / Pow2(yShift)))
  {
    var m := Pow(Base, len);
    SmallDivMod(2 * e, m);
    SmallDivMod(o, m);
  }

  /**
   * `shl_and_sub(&mut r[n..], r8, yShift)` on a buffer of 3n + 1 limbs:
   * r loses B^n (r8 >> yShift), where r8 fills 2n limbs.
   */
  function SubShiftedHigh(r: nat, n: nat, r8: nat, yShift: nat): (res: Option<nat>)
    requires r < Pow(Base, 3 * n + 1) && r8 < Pow(Base, 2 * n) && 0 < yShift < Width
    ensures res.Some? <==> 1 <= n && Pow(Base, n) * (r8 / Pow2(yShift)) <= r
    ensures res.Some? ==> res.value == r - Pow(Base, n) * (r8 / Pow2(yShift))
  {
    SubShiftedHighBody(r, n, r8, yShift);
    WithLow(r, Pow(Base, n), ShlAndSub(r / Pow(Base, n), 2 * n + 1, r8, 2 * n, yShift))
  }

  /** The low limbs of r below p, under the high part h when there is one. */
  function WithLow(r: nat, p: nat, h: Option<nat>): Option<nat>
    requires p > 0
  {
    if h.None? then None else Some(r % p + p * h.value)
  }

  /** What the `shl_and_sub` on the high limbs leaves, read back on the whole buffer. */
  lemma SubShiftedHighBody(r: nat, n: nat, r8: nat, yShift: nat)
    requires r < Pow(Base, 3 * n + 1) && r8 < Pow(Base, 2 * n) && 0 < yShift < Width
    ensures r / Pow(Base, n) < Pow(Base, 2 * n + 1)
    ensures var p := Pow(Base, n);
      var res := WithLow(r, p, ShlAndSub(r / p, 2 * n + 1, r8, 2 * n, yShift));
      && (res.Some? <==> 1 <= n && p * (r8 / Pow2(yShift)) <= r)
      && (res.Some? ==> res.value == r - p * (r8 / Pow2(yShift)))
  {
    var p: nat := Pow(Base, n);
    var k: nat := r8 / Pow2(yShift);
    var lo: nat := r % p;
    var q: nat := r / p;
    HighPart(r, n, p, lo, q);
    var h := ShlAndSub(q, 2 * n + 1, r8, 2 * n, yShift);
    SubShiftedHighCases(r, n, r8, yShift, p, k, lo, q, h);
  }

  lemma SubShiftedHighCases(r: nat, n: nat, r8: nat, yShift: nat, p: nat, k: nat, lo: nat, q: nat, h: Option<nat>)
    requires r8 < Pow(Base, 2 * n) && 0 < yShift < Width && k == r8 / Pow2(yShift)
    requires r == lo + p * q && lo < p && q < Pow(Base, 2 * n + 1)
    requires h == ShlAndSub(q, 2 * n + 1, r8, 2 * n, yShift)
    ensures h.Some? <==> 1 <= n && p * k <= r
    ensures h.Some? ==> lo + p * h.value == r - p * k
  {
    TakeFromHigh(r, p, lo, q, k);
  }

  /** Above its low n limbs, a number of 3n + 1 limbs has 2n + 1 limbs. */
  lemma HighPart(r: nat, n: nat, p: nat, lo: nat, q: nat)
    requires r < Pow(Base, 3 * n + 1) && p == Pow(Base, n) && lo == r % p && q == r / p
    ensures r == lo + p * q && lo < p && q < Pow(Base, 2 * n + 1)
  {
    PowAdd(Base, n, 2 * n + 1);
    DivBelow(r, p, Pow(Base, 2 * n + 1));
  }

  /** Taking k from the high part q of r = lo + p q takes p k from r, and is possible exactly when p k <= r. */
  lemma TakeFromHigh(r: nat, p: nat, lo: nat, q: nat, k: nat)
    requires r == lo + p * q && lo < p
    ensures k <= q <==> p * k <= r
    ensures k <= q ==> lo + p * (q - k) == r - p * k
  {
    assert p * (q - k) == p * q - p * k;
    if k <= q {
      MulMonotone(p, k, q);
    } else {
      MulMonotone(p, q + 1, k);
      assert p * (q + 1) == p * q + p;
    }
  }

  /** r - B^n (r8 >> yShift) - (r1 << xShift), the first two steps of the 8-point interpolation on r3 or r5. */
  function RemoveEnds8(r: nat, n: nat, spt: nat, r8: nat, r1: nat, yShift: nat, xShift: nat): (res: Option<nat>)
    requires r < Pow(Base, 3 * n + 1) && r8 < Pow(Base, 2 * n) && r1 < Pow(Base, spt)
    requires 0 < yShift < Width && xShift < Width
    ensures res.Some? <==> 1 <= n && spt <= 3 * n + 1 && Pow(Base, n) * (r8 / Pow2(yShift)) + r1 * Pow2(xShift) <= r
    ensures res.Some? ==> res.value == r - Pow(Base, n) * (r8 / Pow2(yShift)) - r1 * Pow2(xShift) && res.value <= r
  {
    var k := Pow(Base, n) * (r8 / Pow2(yShift));
    var t := r1 * Pow2(xShift);
    MulMonotone(Pow(Base, n), 0, r8 / Pow2(yShift));
    MulMonotone(r1, 0, Pow2(xShift));
    var x := SubShiftedHigh(r, n, r8, yShift);
    match x
    case None =>
      TwoSubtractions(r, k, t, 1 <= n, spt <= 3 * n + 1, x, None);
      None
    case Some(v) =>
      var res := ShlSubPropagate(v, 3 * n + 1, r1, spt, xShift);
      TwoSubtractions(r, k, t, 1 <= n, spt <= 3 * n + 1, x, res);
      res
  }

  /** Two checked subtractions in a row: r loses k when `first` allows it, then t when `second` does. */
  lemma TwoSubtractions(r: nat, k: int, t: int, first: bool, second: bool, x: Option<nat>, res: Option<nat>)
    requires 0 <= k && 0 <= t
    requires x.Some? <==> first && k <= r
    requires x.Some? ==> x.value == r - k
    requires x.None? ==> res.None?
    requires x.Some? ==> (res.Some? <==> second && t <= x.value)
    requires x.Some? && res.Some? ==> res.value == x.value - t
    ensures res.Some? <==> first && second && k + t <= r
    ensures res.Some? ==> res.value == r - k - t && res.value <= r
  {
  }

  /**
   * The linear middle of the 8-point interpolation on r3, r5, r7 (3n + 1
   * limbs): r3 = (r3 - r5) / 4 exactly, r5 = r5 - r7, r3 = (r3 - r5) / 45,
   * r5 = r5 / 3, r5 = r5 - 4 r3 with no carry, every difference asserted
   * non-negative. The pair (a, b) returned is (r3, r5) at the end.
   */
  function Solve8(r3: nat, r5: nat, r7: nat, len: nat): (r: Option<(nat, nat)>)
    requires r3 < Pow(Base, len)
    ensures r.Some? ==> r5 == r7 + 3 * r.value.1 + 12 * r.value.0
    ensures r.Some? ==> r3 == r7 + 15 * r.value.1 + 240 * r.value.0
  {
    if r3 < r5 || (r3 - r5) % 4 != 0 || r5 < r7 then None
    else
      var q := (r3 - r5) / 4;
      var d := r5 - r7;
      if q < d || (q - d) % 45 != 0 || d % 3 != 0 then None
      else
        var a := (q - d) / 45;
        var t := d / 3;
        Exactly(r3 - r5, 4);
        Exactly(q - d, 45);
        Exactly(d, 3);
        var sub := ShlAndSubSameLength(t, a, len, 2);
        if sub.1 != 0 then None
        else
          assert Pow2(2) == 4;
          Some((a, sub.0))
  }

  /** One step of Horner's rule taken two coefficients at a time. */
  lemma HornerPair(p: int, a: int, b: int, t: int)
    ensures (a + p * b) + p * p * t == a + p * (b + p * t)
  {
    assert p * (b + p * t) == p * b + p * (p * t);
  }

  /**
   * `_limbs_mul_toom_interpolate_8_points`. Inputs are the couple-handled
   * values: r8 = f(0) in 2n limbs, r1 the leading coefficient in s + t
   * limbs, r3, r5, r7 (3n + 1 limbs) mixing f(±4), f(±2), f(±1). The
   * result is the content of `out`, 7n + s + t limbs.
   */
  function Interpolate8(n: nat, spt: nat, r8: nat, r3: nat, r3Len: nat, r5: nat, r7: nat, r7Len: nat, r1: nat)
    : (r: Option<nat>)
    requires r8 < Pow(Base, 2 * n) && r5 < Pow(Base, 3 * n + 1) && r3 < Pow(Base, r3Len)
    requires r7 < Pow(Base, r7Len) && r1 < Pow(Base, spt)
    ensures r.Some? ==> 1 <= n <= spt <= 3 * n + 1 && r3Len == 3 * n + 1 && r7Len == 3 * n + 1
    ensures r.Some? ==> r.value < Pow(Base, 7 * n + spt)
  {
    if spt < n || r3Len != 3 * n + 1 || r7Len != 3 * n + 1 then None
    else Interpolate8Sized(n, spt, r8, r3, r5, r7, r1)
  }

  /** The 8-point steps once s + t >= n and r3, r7 have 3n + 1 limbs. */
  function Interpolate8Sized(n: nat, spt: nat, r8: nat, r3: nat, r5: nat, r7: nat, r1: nat): (r: Option<nat>)
    requires n <= spt && r8 < Pow(Base, 2 * n) && r1 < Pow(Base, spt)
    requires r3 < Pow(Base, 3 * n + 1) && r5 < Pow(Base, 3 * n + 1) && r7 < Pow(Base, 3 * n + 1)
    ensures r.Some? ==> 1 <= n && spt <= 3 * n + 1 && r.value < Pow(Base, 7 * n + spt)
  {
    var s3 :- RemoveEnds8(r3, n, spt, r8, r1, 4, 12);
    var s5 :- RemoveEnds8(r5, n, spt, r8, r1, 2, 6);
    var s7 :- RemoveR7(r7, n, spt, r8, r1);
    Interpolate8Solved(n, spt, r8, r1, s3, s5, s7)
  }

  /** The linear middle and the recomposition, on the values the r3, r5 and r7 steps leave. */
  function Interpolate8Solved(n: nat, spt: nat, r8: nat, r1: nat, s3: nat, s5: nat, s7: nat): (r: Option<nat>)
    requires 1 <= n <= spt && r8 < Pow(Base, 2 * n) && r1 < Pow(Base, spt)
    requires s3 < Pow(Base, 3 * n + 1) && s5 < Pow(Base, 3 * n + 1) && s7 < Pow(Base, 3 * n + 1)
    ensures r.Some? ==> r.value < Pow(Base, 7 * n + spt)
  {
    var ab :- Solve8(s3, s5, s7, 3 * n + 1);
    SolvedBelow(s3, s5, s7, ab.0, ab.1, Pow(Base, 3 * n + 1));
    Recompose8Limbs(n, spt, r8, s7, ab.1, ab.0, r1)
  }

  /**
   * The r7 steps: r7 loses B^n r8 (its borrow out of the 3n + 1 limbs
   * dropped, as the source drops it) and then r1, with that borrow asserted away.
   */
  function RemoveR7(r7: nat, n: nat, spt: nat, r8: nat, r1: nat): (r: Option<nat>)
    requires r7 < Pow(Base, 3 * n + 1) && r1 < Pow(Base, spt)
    ensures r.Some? <==> spt <= 3 * n + 1 && r1 <= (r7 - Pow(Base, n) * r8) % Pow(Base, 3 * n + 1)
    ensures r.Some? ==> r.value == (r7 - Pow(Base, n) * r8) % Pow(Base, 3 * n + 1) - r1
    ensures r.Some? ==> r.value < Pow(Base, 3 * n + 1)
  {
    var lim: nat := Pow(Base, 3 * n + 1);
    var w7: nat := (r7 - Pow(Base, n) * r8) % lim;
    ShlSubPropagate(w7, 3 * n + 1, r1, spt, 0)
  }

  /** The pair Solve8 returns lies below the values it was solved from. */
  lemma SolvedBelow(s3: nat, s5: nat, s7: nat, a: nat, b: nat, lim: nat)
    requires s3 < lim && s5 < lim
    requires s5 == s7 + 3 * b + 12 * a && s3 == s7 + 15 * b + 240 * a
    ensures a < lim && b < lim
  {
  }

  /** Solve8 recovers any pair it could have produced. */
  lemma Solve8Recovers(a: nat, b: nat, r7: nat, len: nat, r3: nat, r5: nat)
    requires r3 == r7 + 15 * b + 240 * a && r5 == r7 + 3 * b + 12 * a && r3 < Pow(Base, len)
    ensures Solve8(r3, r5, r7, len) == Some((a, b))
  {
    DivOfMultiple(3 * b + 57 * a, 4);
    assert r3 - r5 == 4 * (3 * b + 57 * a);
    DivOfMultiple(a, 45);
    assert (3 * b + 57 * a) - (3 * b + 12 * a) == 45 * a;
    DivOfMultiple(b + 4 * a, 3);
    assert Pow2(2) == 4;
    SmallDivMod(4 * a, Pow(Base, len));
  }

  lemma Eval8(w: seq<int>, x: int)
    requires |w| == 8
    ensures Eval(w, x) == w[0] + x * (w[1] + x * (w[2] + x * (w[3] + x * (w[4] + x * (w[5] + x * (w[6] + x * w[7]))))))
  {
    Eval7(w[1..], x);
  }

  /** The Horner value of eight coefficients equals the recomposition from the final r-values. */
  lemma Recompose8Eval(c: seq<nat>, p: nat)
    requires |c| == 8
    ensures Recompose8(p, c[0], (c[1] + c[3] + c[5]) + p * (c[2] + c[4] + c[6]),
                       (c[3] + c[5]) + p * (c[4] + c[6]), c[5] + p * c[6], c[7])
            == Eval(c, p)
  {
    Eval8(c, p);
    var t5 := c[5] + p * (c[6] + p * c[7]);
    HornerPair(p, c[5], c[6], c[7]);
    var t3 := c[3] + p * (c[4] + p * t5);
    HornerPair(p, c[3], c[4], t5);
    HornerPair(p, c[1], c[2], t3);
    assert ((c[1] + c[3] + c[5]) + p * (c[2] + c[4] + c[6])) - ((c[3] + c[5]) + p * (c[4] + c[6])) == c[1] + p * c[2];
    assert ((c[3] + c[5]) + p * (c[4] + c[6])) - (c[5] + p * c[6]) == c[3] + p * c[4];
  }

  lemma SmallPowers()
    ensures Pow2(0) == 1 && Pow2(2) == 4 && Pow2(4) == 16 && Pow2(6) == 64 && Pow2(12) == 4096
  {
    assert Pow(2, 4) == 16;
    PowAdd(2, 4, 2);
    PowAdd(2, 6, 6);
  }

  /** On an r3 or r5 that holds lo + (c7 << xShift) + B^n ((c0 >> yShift) + hi), the first steps leave lo + B^n hi. */
  lemma RemoveEnds8Recovers(r: nat, n: nat, spt: nat, c0: nat, c7: nat, lo: nat, hi: nat, yShift: nat, xShift: nat)
    requires 1 <= n && spt <= 3 * n + 1 && 0 < yShift < Width && xShift < Width
    requires r < Pow(Base, 3 * n + 1) && c0 < Pow(Base, 2 * n) && c7 < Pow(Base, spt)
    requires r == lo + c7 * Pow2(xShift) + Pow(Base, n) * (c0 / Pow2(yShift) + hi)
    ensures RemoveEnds8(r, n, spt, c0, c7, yShift, xShift) == Some(lo + Pow(Base, n) * hi)
  {
    SplitHigh(Pow(Base, n), c0 / Pow2(yShift), hi);
    MulMonotone(c7, 0, Pow2(xShift));
    SubtractionsRecover(r, lo, Pow(Base, n) * (c0 / Pow2(yShift)), c7 * Pow2(xShift), Pow(Base, n) * hi,
      1 <= n && spt <= 3 * n + 1, RemoveEnds8(r, n, spt, c0, c7, yShift, xShift));
  }

  /** When r = lo + t + k + h, removing k and t succeeds and leaves lo + h. */
  lemma SubtractionsRecover(r: nat, lo: nat, k: int, t: int, h: int, ok: bool, res: Option<nat>)
    requires ok && 0 <= k && 0 <= t && 0 <= h && r == lo + t + (k + h)
    requires res.Some? <==> ok && k + t <= r
    requires res.Some? ==> res.value == r - k - t
    ensures res == Some(lo + h)
  {
  }

  /** p (k + hi) splits into the part the first step removes and the part it keeps. */
  lemma SplitHigh(p: nat, k: nat, hi: nat)
    ensures p * (k + hi) == p * k + p * hi && 0 <= p * k && 0 <= p * hi
  {
    MulMonotone(p, 0, hi);
    MulMonotone(p, 0, k);
  }

  /** On r7 = (s7 + c7) + B^n c0 the r7 steps leave s7. */
  lemma RemoveR7Recovers(r7: nat, n: nat, spt: nat, c0: nat, c7: nat, s7: nat)
    requires spt <= 3 * n + 1 && r7 < Pow(Base, 3 * n + 1) && c7 < Pow(Base, spt)
    requires r7 == s7 + c7 + Pow(Base, n) * c0
    ensures RemoveR7(r7, n, spt, c0, c7) == Some(s7)
  {
    SmallPowers();
    SmallDivMod(r7 - Pow(Base, n) * c0, Pow(Base, 3 * n + 1));
  }

  /** p (i x + j y + k z) spread over the products p x, p y, p z. */
  lemma Distribute3(p: int, x: int, y: int, z: int, i: int, j: int, k: int)
    ensures p * (i * x + j * y + k * z) == i * (p * x) + j * (p * y) + k * (p * z)
  {
    assert p * (i * x) == i * (p * x);
    assert p * (j * y) == j * (p * y);
    assert p * (k * z) == k * (p * z);
  }

  /** The 8-point interpolation is its stages run in order. */
  lemma Interpolate8Stages(n: nat, spt: nat, r8: nat, r3: nat, r5: nat, r7: nat, r1: nat, s3: nat, s5: nat, s7: nat, a: nat, b: nat)
    requires 1 <= n <= spt <= 3 * n + 1 && r8 < Pow(Base, 2 * n) && r1 < Pow(Base, spt)
    requires r3 < Pow(Base, 3 * n + 1) && r5 < Pow(Base, 3 * n + 1) && r7 < Pow(Base, 3 * n + 1)
    requires RemoveEnds8(r3, n, spt, r8, r1, 4, 12) == Some(s3)
    requires RemoveEnds8(r5, n, spt, r8, r1, 2, 6) == Some(s5)
    requires RemoveR7(r7, n, spt, r8, r1) == Some(s7)
    requires s3 < Pow(Base, 3 * n + 1) && Solve8(s3, s5, s7, 3 * n + 1) == Some((a, b))
    ensures Interpolate8(n, spt, r8, r3, 3 * n + 1, r5, r7, 3 * n + 1, r1) == Recompose8Limbs(n, spt, r8, s7, b, a, r1)
  {
  }

  /** The r3 steps on the couple-handled f(±4) values. */
  lemma Interpolate8R3(n: nat, spt: nat, c0: nat, c1: nat, c2: nat, c3: nat, c4: nat, c5: nat, c6: nat, c7: nat, r3: nat)
    requires 1 <= n <= spt <= 3 * n + 1 && c0 < Pow(Base, 2 * n) && c7 < Pow(Base, spt)
    requires r3 == (c1 + 16 * c3 + 256 * c5 + 4096 * c7) + Pow(Base, n) * (c0 / 16 + c2 + 16 * c4 + 256 * c6)
    requires r3 < Pow(Base, 3 * n + 1)
    ensures RemoveEnds8(r3, n, spt, c0, c7, 4, 12) == Some((c1 + 16 * c3 + 256 * c5) + Pow(Base, n) * (c2 + 16 * c4 + 256 * c6))
  {
    SmallPowers();
    RemoveEnds8Recovers(r3, n, spt, c0, c7, c1 + 16 * c3 + 256 * c5, c2 + 16 * c4 + 256 * c6, 4, 12);
  }

  /** The r5 steps on the couple-handled f(±2) values. */
  lemma Interpolate8R5(n: nat, spt: nat, c0: nat, c1: nat, c2: nat, c3: nat, c4: nat, c5: nat, c6: nat, c7: nat, r5: nat)
    requires 1 <= n <= spt <= 3 * n + 1 && c0 < Pow(Base, 2 * n) && c7 < Pow(Base, spt)
    requires r5 == (c1 + 4 * c3 + 16 * c5 + 64 * c7) + Pow(Base, n) * (c0 / 4 + c2 + 4 * c4 + 16 * c6)
    requires r5 < Pow(Base, 3 * n + 1)
    ensures RemoveEnds8(r5, n, spt, c0, c7, 2, 6) == Some((c1 + 4 * c3 + 16 * c5) + Pow(Base, n) * (c2 + 4 * c4 + 16 * c6))
  {
    SmallPowers();
    RemoveEnds8Recovers(r5, n, spt, c0, c7, c1 + 4 * c3 + 16 * c5, c2 + 4 * c4 + 16 * c6, 2, 6);
  }

  /** The r7 steps on the couple-handled f(±1) values. */
  lemma Interpolate8R7(n: nat, spt: nat, c0: nat, c1: nat, c2: nat, c3: nat, c4: nat, c5: nat, c6: nat, c7: nat,
                       r7: nat, s7: nat)
    requires spt <= 3 * n + 1 && c7 < Pow(Base, spt)
    requires r7 == (c1 + c3 + c5 + c7) + Pow(Base, n) * (c0 + c2 + c4 + c6)
    requires r7 < Pow(Base, 3 * n + 1)
    requires s7 == (c1 + c3 + c5) + Pow(Base, n) * (c2 + c4 + c6)
    ensures RemoveR7(r7, n, spt, c0, c7) == Some(s7)
  {
    var p := Pow(Base, n);
    assert p * (c0 + c2 + c4 + c6) == p * c0 + p * (c2 + c4 + c6);
    RemoveR7Recovers(r7, n, spt, c0, c7, s7);
  }

  /** The linear middle on the values the first steps leave, for any scale p. */
  lemma Interpolate8Middle(p: nat, len: nat, c1: nat, c2: nat, c3: nat, c4: nat, c5: nat, c6: nat,
                           s3: nat, s5: nat, s7: nat, a: nat, b: nat)
    requires s3 == (c1 + 16 * c3 + 256 * c5) + p * (c2 + 16 * c4 + 256 * c6) && s3 < Pow(Base, len)
    requires s5 == (c1 + 4 * c3 + 16 * c5) + p * (c2 + 4 * c4 + 16 * c6)
    requires s7 == (c1 + c3 + c5) + p * (c2 + c4 + c6)
    requires a == c5 + p * c6 && b == (c3 + c5) + p * (c4 + c6)
    ensures Solve8(s3, s5, s7, len) == Some((a, b))
  {
    MiddleAlgebra(p, c1, c2, c3, c4, c5, c6, s3, s5, s7, a, b);
    Solve8Recovers(a, b, s7, len, s3, s5);
  }

  /** The values the first steps leave are the Solve8 combinations of a, b and s7. */
  lemma MiddleAlgebra(p: int, c1: int, c2: int, c3: int, c4: int, c5: int, c6: int,
                      s3: int, s5: int, s7: int, a: int, b: int)
    requires s3 == (c1 + 16 * c3 + 256 * c5) + p * (c2 + 16 * c4 + 256 * c6)
    requires s5 == (c1 + 4 * c3 + 16 * c5) + p * (c2 + 4 * c4 + 16 * c6)
    requires s7 == (c1 + c3 + c5) + p * (c2 + c4 + c6)
    requires a == c5 + p * c6 && b == (c3 + c5) + p * (c4 + c6)
    ensures s3 == s7 + 15 * b + 240 * a && s5 == s7 + 3 * b + 12 * a
  {
    var q2, q4, q6 := p * c2, p * c4, p * c6;
    assert p * (c2 + 16 * c4 + 256 * c6) == q2 + 16 * q4 + 256 * q6;
    assert p * (c2 + 4 * c4 + 16 * c6) == q2 + 4 * q4 + 16 * q6;
    assert p * (c2 + c4 + c6) == q2 + q4 + q6;
    assert p * (c4 + c6) == q4 + q6;
  }

  /** The r3 and r5 steps, named. */
  lemma Interpolate8Ends(n: nat, spt: nat, c0: nat, c1: nat, c2: nat, c3: nat, c4: nat, c5: nat, c6: nat, c7: nat,
                         r3: nat, r5: nat, s3: nat, s5: nat)
    requires 1 <= n <= spt <= 3 * n + 1 && c0 < Pow(Base, 2 * n) && c7 < Pow(Base, spt)
    requires r3 == (c1 + 16 * c3 + 256 * c5 + 4096 * c7) + Pow(Base, n) * (c0 / 16 + c2 + 16 * c4 + 256 * c6)
    requires r5 == (c1 + 4 * c3 + 16 * c5 + 64 * c7) + Pow(Base, n) * (c0 / 4 + c2 + 4 * c4 + 16 * c6)
    requires r3 < Pow(Base, 3 * n + 1) && r5 < Pow(Base, 3 * n + 1)
    requires s3 == (c1 + 16 * c3 + 256 * c5) + Pow(Base, n) * (c2 + 16 * c4 + 256 * c6)
    requires s5 == (c1 + 4 * c3 + 16 * c5) + Pow(Base, n) * (c2 + 4 * c4 + 16 * c6)
    ensures RemoveEnds8(r3, n, spt, c0, c7, 4, 12) == Some(s3)
    ensures RemoveEnds8(r5, n, spt, c0, c7, 2, 6) == Some(s5)
  {
    Interpolate8R3(n, spt, c0, c1, c2, c3, c4, c5, c6, c7, r3);
    Interpolate8R5(n, spt, c0, c1, c2, c3, c4, c5, c6, c7, r5);
  }

  /** The r7 step and the linear middle, named. */
  lemma Interpolate8Centre(n: nat, spt: nat, c0: nat, c1: nat, c2: nat, c3: nat, c4: nat, c5: nat, c6: nat, c7: nat,
                           r7: nat, s3: nat, s5: nat, s7: nat, a: nat, b: nat)
    requires spt <= 3 * n + 1 && c7 < Pow(Base, spt)
    requires r7 == (c1 + c3 + c5 + c7) + Pow(Base, n) * (c0 + c2 + c4 + c6) && r7 < Pow(Base, 3 * n + 1)
    requires s3 < Pow(Base, 3 * n + 1)
    requires s3 == (c1 + 16 * c3 + 256 * c5) + Pow(Base, n) * (c2 + 16 * c4 + 256 * c6)
    requires s5 == (c1 + 4 * c3 + 16 * c5) + Pow(Base, n) * (c2 + 4 * c4 + 16 * c6)
    requires s7 == (c1 + c3 + c5) + Pow(Base, n) * (c2 + c4 + c6)
    requires a == c5 + Pow(Base, n) * c6 && b == (c3 + c5) + Pow(Base, n) * (c4 + c6)
    ensures RemoveR7(r7, n, spt, c0, c7) == Some(s7)
    ensures Solve8(s3, s5, s7, 3 * n + 1) == Some((a, b))
  {
    Interpolate8R7(n, spt, c0, c1, c2, c3, c4, c5, c6, c7, r7, s7);
    Interpolate8Middle(Pow(Base, n), 3 * n + 1, c1, c2, c3, c4, c5, c6, s3, s5, s7, a, b);
  }

  /** The 8-point steps on the point values of c0..c7, naming the values the stages leave. */
  lemma Interpolate8Steps(n: nat, spt: nat, c0: nat, c1: nat, c2: nat, c3: nat, c4: nat, c5: nat, c6: nat, c7: nat,
                          r3: nat, r5: nat, r7: nat, s3: nat, s5: nat, s7: nat, a: nat, b: nat, e: int)
    requires 1 <= n <= spt <= 3 * n + 1 && c0 < Pow(Base, 2 * n) && c7 < Pow(Base, spt)
    requires r3 == (c1 + 16 * c3 + 256 * c5 + 4096 * c7) + Pow(Base, n) * (c0 / 16 + c2 + 16 * c4 + 256 * c6)
    requires r5 == (c1 + 4 * c3 + 16 * c5 + 64 * c7) + Pow(Base, n) * (c0 / 4 + c2 + 4 * c4 + 16 * c6)
    requires r7 == (c1 + c3 + c5 + c7) + Pow(Base, n) * (c0 + c2 + c4 + c6)
    requires r3 < Pow(Base, 3 * n + 1) && r5 < Pow(Base, 3 * n + 1) && r7 < Pow(Base, 3 * n + 1)
    requires s3 == (c1 + 16 * c3 + 256 * c5) + Pow(Base, n) * (c2 + 16 * c4 + 256 * c6)
    requires s5 == (c1 + 4 * c3 + 16 * c5) + Pow(Base, n) * (c2 + 4 * c4 + 16 * c6)
    requires s7 == (c1 + c3 + c5) + Pow(Base, n) * (c2 + c4 + c6)
    requires a == c5 + Pow(Base, n) * c6 && b == (c3 + c5) + Pow(Base, n) * (c4 + c6)
    requires Recompose8(Pow(Base, n), c0, s7, b, a, c7) == e && e < Pow(Base, 7 * n + spt)
    ensures Interpolate8(n, spt, c0, r3, 3 * n + 1, r5, r7, 3 * n + 1, c7) == Some(e)
  {
    Interpolate8Ends(n, spt, c0, c1, c2, c3, c4, c5, c6, c7, r3, r5, s3, s5);
    Interpolate8Centre(n, spt, c0, c1, c2, c3, c4, c5, c6, c7, r7, s3, s5, s7, a, b);
    Interpolate8Stages(n, spt, c0, r3, r5, r7, c7, s3, s5, s7, a, b);
    RecompositionInputs(Pow(Base, n), Pow(Base, 3 * n + 1), c0, c1, c2, c3, c4, c5, c6, c7, r3, r5, r7, s7, a, b);
    Interpolate8Closes(n, spt, c0, c7, s7, a, b, e);
  }

  /**
   * The values the 8-point steps hand to the recomposition meet its
   * conditions: a <= b <= s7, b and a below half the 3n + 1 limbs (3b and
   * 240a lie below r5 and r3), and s7 plus the high half of r8 below r7.
   */
  lemma RecompositionInputs(p: nat, lim: nat, c0: nat, c1: nat, c2: nat, c3: nat, c4: nat, c5: nat, c6: nat, c7: nat,
                            r3: nat, r5: nat, r7: nat, s7: nat, a: nat, b: nat)
    requires p > 0 && r3 < lim && r5 < lim && r7 < lim
    requires r3 == (c1 + 16 * c3 + 256 * c5 + 4096 * c7) + p * (c0 / 16 + c2 + 16 * c4 + 256 * c6)
    requires r5 == (c1 + 4 * c3 + 16 * c5 + 64 * c7) + p * (c0 / 4 + c2 + 4 * c4 + 16 * c6)
    requires r7 == (c1 + c3 + c5 + c7) + p * (c0 + c2 + c4 + c6)
    requires s7 == (c1 + c3 + c5) + p * (c2 + c4 + c6)
    requires a == c5 + p * c6 && b == (c3 + c5) + p * (c4 + c6)
    ensures a <= b <= s7 && 2 * b < lim && 2 * a < lim && s7 < lim && s7 + c0 / p < lim
  {
    MulMonotone(p, c6, c4 + c6);
    MulMonotone(p, c4 + c6, c2 + c4 + c6);
    HalfInputs(p, c0, c1, c2, c3, c4, c5, c6, c7, r3, r5, a, b);
    TopInput(p, c0, c1, c2, c3, c4, c5, c6, c7, r7, s7);
  }

  /** 3b lies below r5 and 240a below r3. */
  lemma HalfInputs(p: nat, c0: nat, c1: nat, c2: nat, c3: nat, c4: nat, c5: nat, c6: nat, c7: nat,
                   r3: nat, r5: nat, a: nat, b: nat)
    requires r3 == (c1 + 16 * c3 + 256 * c5 + 4096 * c7) + p * (c0 / 16 + c2 + 16 * c4 + 256 * c6)
    requires r5 == (c1 + 4 * c3 + 16 * c5 + 64 * c7) + p * (c0 / 4 + c2 + 4 * c4 + 16 * c6)
    requires a == c5 + p * c6 && b == (c3 + c5) + p * (c4 + c6)
    ensures 3 * b <= r5 && 240 * a <= r3
  {
    MulMonotone(p, 3 * (c4 + c6), c0 / 4 + c2 + 4 * c4 + 16 * c6);
    assert p * (3 * (c4 + c6)) == 3 * (p * (c4 + c6));
    MulMonotone(p, 240 * c6, c0 / 16 + c2 + 16 * c4 + 256 * c6);
    assert p * (240 * c6) == 240 * (p * c6);
  }

  /** r7 exceeds s7 by c7 + B^n c0, which covers the high half of c0. */
  lemma TopInput(p: nat, c0: nat, c1: nat, c2: nat, c3: nat, c4: nat, c5: nat, c6: nat, c7: nat, r7: nat, s7: nat)
    requires p > 0
    requires r7 == (c1 + c3 + c5 + c7) + p * (c0 + c2 + c4 + c6)
    requires s7 == (c1 + c3 + c5) + p * (c2 + c4 + c6)
    ensures s7 + c0 / p <= r7
  {
    assert p * (c0 + (c2 + c4 + c6)) == p * c0 + p * (c2 + c4 + c6);
    Digits(c0, p);
    MulMonotone(c0, 1, p);
  }

  /** On the s7, b and a the stages leave, the recomposition yields its value e when e fits. */
  lemma Interpolate8Closes(n: nat, spt: nat, c0: nat, c7: nat, s7: nat, a: nat, b: nat, e: int)
    requires 1 <= n <= spt && c0 < Pow(Base, 2 * n) && c7 < Pow(Base, spt)
    requires a <= b <= s7 && 2 * b < Pow(Base, 3 * n + 1) && 2 * a < Pow(Base, 3 * n + 1)
    requires s7 + c0 / Pow(Base, n) < Pow(Base, 3 * n + 1)
    requires Recompose8(Pow(Base, n), c0, s7, b, a, c7) == e && e < Pow(Base, 7 * n + spt)
    ensures Recompose8Limbs(n, spt, c0, s7, b, a, c7) == Some(e)
  {
    Recompose8LimbsSucceeds(n, spt, c0, s7, b, a, c7);
  }

  /**
   * Given the couple-handled values of a degree-7 product with non-negative
   * coefficients c, fitting the buffers the source gives them, and f(B^n)
   * fitting the 7n + s + t limbs of `out`, the 8-point interpolation
   * returns f(B^n).
   */
  lemma Interpolate8Recovers(c: seq<nat>, n: nat, spt: nat, r3: nat, r5: nat, r7: nat)
    requires |c| == 8 && 1 <= n <= spt <= 3 * n + 1
    requires c[0] < Pow(Base, 2 * n) && c[7] < Pow(Base, spt)
    requires r3 == (c[1] + 16 * c[3] + 256 * c[5] + 4096 * c[7]) + Pow(Base, n) * (c[0] / 16 + c[2] + 16 * c[4] + 256 * c[6])
    requires r5 == (c[1] + 4 * c[3] + 16 * c[5] + 64 * c[7]) + Pow(Base, n) * (c[0] / 4 + c[2] + 4 * c[4] + 16 * c[6])
    requires r7 == (c[1] + c[3] + c[5] + c[7]) + Pow(Base, n) * (c[0] + c[2] + c[4] + c[6])
    requires r3 < Pow(Base, 3 * n + 1) && r5 < Pow(Base, 3 * n + 1) && r7 < Pow(Base, 3 * n + 1)
    requires Eval(c, Pow(Base, n)) < Pow(Base, 7 * n + spt)
    ensures Interpolate8(n, spt, c[0], r3, 3 * n + 1, r5, r7, 3 * n + 1, c[7]) == Some(Eval(c, Pow(Base, n)))
  {
    var p: nat := Pow(Base, n);
    MulMonotone(p, 0, c[2] + 16 * c[4] + 256 * c[6]);
    MulMonotone(p, 0, c[2] + 4 * c[4] + 16 * c[6]);
    MulMonotone(p, 0, c[2] + c[4] + c[6]);
    MulMonotone(p, 0, c[6]);
    MulMonotone(p, 0, c[4] + c[6]);
    Recompose8Eval(c, p);
    Interpolate8Steps(n, spt, c[0], c[1], c[2], c[3], c[4], c[5], c[6], c[7], r3, r5, r7,
                      (c[1] + 16 * c[3] + 256 * c[5]) + p * (c[2] + 16 * c[4] + 256 * c[6]),
                      (c[1] + 4 * c[3] + 16 * c[5]) + p * (c[2] + 4 * c[4] + 16 * c[6]),
                      (c[1] + c[3] + c[5]) + p * (c[2] + c[4] + c[6]),
                      c[5] + p * c[6], (c[3] + c[5]) + p * (c[4] + c[6]), Eval(c, p));
  }
}
