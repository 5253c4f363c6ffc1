/**
 * Operand splitting of Toom-6.5 and Toom-8.5: the operands are cut into
 * p + 1 and q + 1 pieces of n limbs (top pieces shorter) with p + q + 1
 * product coefficients, which the 12 (respectively 16) evaluation points
 * determine. When p + q would need one point more than there are ("half"
 * splitting) and a top piece comes out empty, one piece is given back.
 */
module ToomHalf {
  import opened Limbs
  import opened ToomSizes
  import opened Modular

  /**
   * A split with p full pieces of xs and q of ys under top pieces of s and t
   * limbs; s and t are signed, as the source computes them before checking.
   */
  datatype HSplit = HSplit(n: nat, p: nat, q: nat, half: bool, s: int, t: int)

  /** The asserts both compute functions make on a split. */
  predicate SplitOk(sp: HSplit)
  {
    0 < sp.s <= sp.n && 0 < sp.t <= sp.n && (sp.half || sp.s + sp.t > 3) && sp.n > 2
  }

  /** The split tiles the operands exactly. */
  predicate Covers(sp: HSplit, xs: nat, ys: nat)
  {
    xs == sp.p * sp.n + sp.s && ys == sp.q * sp.n + sp.t
  }

  /**
   * The unbalanced branch shared by Toom-6.5 and Toom-8.5: with p and q
   * pieces chosen, the split is half when p - q is odd; a half split whose
   * top piece of xs (else of ys) is empty drops one full piece of that
   * operand and is no longer half.
   */
  function HalfSplit(xs: nat, ys: nat, p: nat, q: nat): (r: HSplit)
    requires p >= 2 && q >= 2 && xs + ys > 0
    ensures Covers(r, xs, ys) && r.n == PieceSize(xs, ys, p, q)
    ensures r.half ==> p % 2 != q % 2 && r.p + r.q == p + q - 2 && r.s > 0 && r.t > 0
    ensures !r.half ==> r.p + r.q == p + q - 2 - (if p % 2 != q % 2 then 1 else 0)
  {
    var half := p % 2 != q % 2;
    var n := PieceSize(xs, ys, p, q);
    var s := xs - (p - 1) * n;
    var t := ys - (q - 1) * n;
    if half && s < 1 then
      assert (p - 1) * n == (p - 2) * n + n;
      HSplit(n, p - 2, q - 1, false, s + n, t)
    else if half && t < 1 then
      assert (q - 1) * n == (q - 2) * n + n;
      HSplit(n, p - 1, q - 2, false, s, t + n)
    else
      HSplit(n, p - 1, q - 1, half, s, t)
  }

  // Toom-6.5

  const Toom6hLimitNumerator: nat := 18
  const Toom6hLimitDenominator: nat := 17

  /**
   * The piece counts Toom-6.5 picks when xs is at least 18 / 17 ys: the
   * further xs outgrows ys, the more of its pieces.
   */
  function Toom6hChoice(xs: nat, ys: nat): (r: (nat, nat))
    ensures r.0 + r.1 == (if r.0 % 2 != r.1 % 2 then 13 else 12) && r.1 >= 4
  {
    if xs * 5 * Toom6hLimitNumerator < Toom6hLimitDenominator * 7 * ys then (7, 6)
    else if xs * 5 * Toom6hLimitDenominator < Toom6hLimitNumerator * 7 * ys then (7, 5)
    else if xs * Toom6hLimitNumerator < Toom6hLimitDenominator * 2 * ys then (8, 5)
    else if xs * Toom6hLimitDenominator < Toom6hLimitNumerator * 2 * ys then (8, 4)
    else (9, 4)
  }

  /**
   * The split both Toom-6.5 functions compute before checking it: six equal
   * pieces when xs < 18 / 17 ys, the chosen unbalanced split otherwise. The
   * product has at most 12 coefficients, one per evaluation point.
   */
  function Toom6hRawSplit(xs: nat, ys: nat): (r: HSplit)
    requires xs > 0
    ensures Covers(r, xs, ys)
    ensures r.p + r.q == (if r.half then 11 else 10)
  {
    if xs * Toom6hLimitDenominator < Toom6hLimitNumerator * ys then
      var n := 1 + (xs - 1) / 6;
      HSplit(n, 5, 5, false, xs - 5 * n, ys - 5 * n)
    else
      var pq := Toom6hChoice(xs, ys);
      HalfSplit(xs, ys, pq.0, pq.1)
  }

  /** `_limbs_mul_toom_6h_min_threshold`. */
  const Toom6hMinThreshold: nat := Max(MulToom6hThreshold, MulToom44Threshold)

  /**
   * `_limbs_mul_same_length_to_out_toom_6h_scratch_size`: the signed
   * expression is never negative, so its assert cannot fail.
   */
  function Toom6hSameLengthScratchSize(n: nat): (r: nat)
    ensures r == 2 * n + 288
  {
    (n - Toom6hMinThreshold) * 2
      + Max(Toom6hMinThreshold * 2 + Width * 6, Toom44ScratchSize(Toom6hMinThreshold))
  }

  /** `_limbs_mul_greater_to_out_toom_6h_scratch_size`: the same-length size for 6 ((xs + ys) / 10 + 1) limbs. */
  function Toom6hScratchSize(xs: nat, ys: nat): (r: nat)
    ensures r == 12 * ((xs + ys) / 10) + 300
  {
    Toom6hSameLengthScratchSize(6 * ((xs + ys) / 10 + 1))
  }

  /**
   * `_limbs_mul_greater_to_out_toom_6h_input_sizes_valid`. The Toom-6
   * squaring scratch size is not part of this model and is a parameter.
   */
  function Toom6hValid(xs: nat, ys: nat, squareScratch: nat -> nat): (r: bool)
    ensures r ==> 42 <= ys <= xs && 6 * xs < 17 * ys
  {
    if xs == 0 || xs < ys then false
    else if !(ys >= 42 && (xs * 3 < ys * 8 || (ys >= 46 && xs * 6 < ys * 17))) then false
    else
      var sp := Toom6hRawSplit(xs, ys);
      var limit := 12 * sp.n + 6;
      SplitOk(sp) && limit <= Toom6hScratchSize(xs, ys) && limit <= squareScratch(6 * sp.n)
  }

  /**
   * The split of `_limbs_mul_greater_to_out_toom_6h`, `None` when one of its
   * asserts fails; it succeeds exactly on the sizes the validity check accepts.
   */
  function Toom6hSplit(xs: nat, ys: nat, squareScratch: nat -> nat): (r: Option<HSplit>)
    ensures r.Some? <==> Toom6hValid(xs, ys, squareScratch)
    ensures r.Some? ==> Covers(r.value, xs, ys) && SplitOk(r.value)
    ensures r.Some? ==> r.value.p + r.value.q == (if r.value.half then 11 else 10)
    ensures r.Some? ==> 12 * r.value.n + 6 <= Toom6hScratchSize(xs, ys)
  {
    if xs < ys || ys < 42 || !(xs * 3 < ys * 8 || (ys >= 46 && xs * 6 < ys * 17)) then None
    else
      var sp := Toom6hRawSplit(xs, ys);
      var limit := 12 * sp.n + 6;
      if !SplitOk(sp) then None
      else if !(limit <= Toom6hScratchSize(xs, ys)) || !(limit <= squareScratch(6 * sp.n)) then None
      else Some(sp)
  }

  /**
   * The scratch-size conjunct of the Toom-6.5 check is implied by the split
   * conditions: the operands hold at least 10 n + 2 limbs.
   */
  lemma Toom6hScratchSuffices(xs: nat, ys: nat)
    requires xs > 0 && SplitOk(Toom6hRawSplit(xs, ys))
    ensures 12 * Toom6hRawSplit(xs, ys).n + 6 <= Toom6hScratchSize(xs, ys)
  {
    var sp := Toom6hRawSplit(xs, ys);
    SplitLength(xs, ys, sp, 10);
    DivLowerBound(xs + ys, 10, sp.n);
  }

  /** A covering split with k full pieces in all holds at least k n + 2 limbs. */
  lemma SplitLength(xs: nat, ys: nat, sp: HSplit, k: nat)
    requires Covers(sp, xs, ys) && SplitOk(sp) && sp.p + sp.q >= k
    ensures xs + ys >= k * sp.n + 2
  {
    assert xs + ys == (sp.p + sp.q) * sp.n + sp.s + sp.t;
    MulMonotone(sp.n, k, sp.p + sp.q);
  }

  /** a >= d m gives a / d >= m. */
  lemma DivLowerBound(a: nat, d: nat, m: nat)
    requires d > 0 && a >= d * m
    ensures a / d >= m
  {
    var q, r := a / d, a % d;
    assert a == d * q + r;
    if q < m {
      MulMonotone(d, q + 1, m);
    }
  }

  // Toom-8.5

  const Toom8hLimitNumerator: nat := 21
  const Toom8hLimitDenominator: nat := 20
  /** The fractions of the limit the choice of pieces is scaled by: 10, 4, 27 and 7. */
  const HalfDenominator8h: nat := Toom8hLimitDenominator / 2
  const FifthDenominator8h: nat := Toom8hLimitDenominator / 5
  const NineSeventhsNumerator8h: nat := Toom8hLimitNumerator / 7 * 9
  const ThirdNumerator8h: nat := Toom8hLimitNumerator / 3

  /**
   * The piece counts Toom-8.5 picks when xs is well above ys. With 32-bit
   * limbs the `Limb::WIDTH <= 33` branch is always taken, so xs gets at most
   * eleven pieces.
   */
  function Toom8hChoice(xs: nat, ys: nat): (r: (int, int))
    ensures r.0 + r.1 == (if r.0 % 2 != r.1 % 2 then 17 else 16) && r.1 >= 5 && 9 <= r.0 <= 11
  {
    if xs * 13 < 16 * ys then (9, 8)
    else if Width <= 9 * 3 || xs * HalfDenominator8h < NineSeventhsNumerator8h * (ys / 2) then (9, 7)
    else if xs * 10 < 33 * (ys / 2) then (10, 7)
    else if Width <= 10 * 3 || xs * FifthDenominator8h < ThirdNumerator8h * ys then (10, 6)
    else if xs * 6 < 13 * ys then (11, 6)
    else if Width <= 11 * 3 || xs * 4 < 9 * ys then (11, 5)
    else if xs * ThirdNumerator8h < Toom8hLimitDenominator * ys then (12, 5)
    else if Width <= 12 * 3 || xs * 9 < 28 * ys then (12, 4)
    else (13, 4)
  }

  /**
   * The split both Toom-8.5 functions compute before checking it: eight equal
   * pieces when the lengths are equal or xs < 21 / 20 ys, the chosen
   * unbalanced split otherwise. The product has at most 16 coefficients.
   */
  function Toom8hRawSplit(xs: nat, ys: nat): (r: HSplit)
    requires xs > 0
    ensures Covers(r, xs, ys)
    ensures r.p + r.q == (if r.half then 15 else 14)
  {
    if xs == ys || xs * HalfDenominator8h < Toom8hLimitNumerator * (ys / 2) then
      var n := 1 + (xs - 1) / 8;
      HSplit(n, 7, 7, false, xs - 7 * n, ys - 7 * n)
    else
      var pq := Toom8hChoice(xs, ys);
      HalfSplit(xs, ys, pq.0, pq.1)
  }

  /** `_limbs_mul_toom_8h_min_threshold`. */
  const Toom8hMinThreshold: nat := Max(MulToom8hThreshold, Toom6hMinThreshold)

  /**
   * `_limbs_mul_same_length_to_out_toom_8h_scratch_size`: the signed
   * expression is never negative, so its assert cannot fail.
   */
  function Toom8hSameLengthScratchSize(n: nat): (r: nat)
    ensures r == 15 * n / 8 + 330
  {
    (n * 15) / 8 - (Toom8hMinThreshold * 15) / 8
      + Max((Toom8hMinThreshold * 15) / 8 + Width * 6, Toom6hSameLengthScratchSize(Toom8hMinThreshold))
  }

  /** `_limbs_mul_greater_to_out_toom_8h_scratch_size`: the same-length size for 8 ((xs + ys) / 14 + 1) limbs. */
  function Toom8hScratchSize(xs: nat, ys: nat): (r: nat)
    ensures r == 15 * ((xs + ys) / 14) + 345
  {
    var e := (xs + ys) / 14 + 1;
    assert 15 * (8 * e) / 8 == 15 * e;
    Toom8hSameLengthScratchSize(8 * e)
  }

  /** The operand-size condition both Toom-8.5 functions start with. */
  predicate Toom8hBalanced(xs: nat, ys: nat)
  {
    ys >= 86 && xs <= ys * 4
    && (Width > 11 * 3 || xs * 4 <= ys * 11)
    && (Width > 10 * 3 || xs <= ys * 2)
    && (Width > 9 * 3 || xs * 2 <= ys * 3)
  }

  /**
   * `_limbs_mul_greater_to_out_toom_8h_input_sizes_valid`. The Toom-8
   * squaring scratch size is not part of this model and is a parameter.
   */
  function Toom8hValid(xs: nat, ys: nat, squareScratch: nat -> nat): (r: bool)
    ensures r ==> 86 <= ys <= xs && 4 * xs <= 11 * ys
  {
    if xs == 0 || xs < ys then false
    else if !Toom8hBalanced(xs, ys) then false
    else
      var sp := Toom8hRawSplit(xs, ys);
      var limit := 15 * sp.n + 6;
      SplitOk(sp) && limit <= Toom8hScratchSize(xs, ys) && limit <= squareScratch(8 * sp.n)
  }

  /**
   * The split of `_limbs_mul_greater_to_out_toom_8h`, `None` when one of its
   * asserts fails. Its scratch limit is 5 (3 n + 1) = 15 n + 5, one below the
   * validity check's 15 n + 6, so it accepts every valid size and, besides,
   * the sizes whose squaring scratch is exactly 15 n + 5.
   */
  function Toom8hSplit(xs: nat, ys: nat, squareScratch: nat -> nat): (r: Option<HSplit>)
    ensures Toom8hValid(xs, ys, squareScratch) ==> r.Some?
    ensures r.Some? ==> Toom8hValid(xs, ys, squareScratch) || squareScratch(8 * r.value.n) == 15 * r.value.n + 5
    ensures r.Some? ==> Covers(r.value, xs, ys) && SplitOk(r.value)
    ensures r.Some? ==> r.value.p + r.value.q == (if r.value.half then 15 else 14)
  {
    if xs < ys || !Toom8hBalanced(xs, ys) then None
    else
      var sp := Toom8hRawSplit(xs, ys);
      var limit := 5 * (3 * sp.n + 1);
      if !SplitOk(sp) then None
      else
        Toom8hScratchSuffices(xs, ys);
        if !(limit <= Toom8hScratchSize(xs, ys)) || !(limit <= squareScratch(8 * sp.n)) then None
        else Some(sp)
  }

  /**
   * The scratch-size conjunct of the Toom-8.5 check is implied by the split
   * conditions: the operands hold at least 14 n + 2 limbs.
   */
  lemma Toom8hScratchSuffices(xs: nat, ys: nat)
    requires xs > 0 && SplitOk(Toom8hRawSplit(xs, ys))
    ensures 15 * Toom8hRawSplit(xs, ys).n + 6 <= Toom8hScratchSize(xs, ys)
  {
    var sp := Toom8hRawSplit(xs, ys);
    SplitLength(xs, ys, sp, 14);
    DivLowerBound(xs + ys, 14, sp.n);
  }
}
