/**
 * Size arithmetic of the Toom-Cook multiplications (`toom.rs`): for every
 * variant, the `*_input_sizes_valid` predicate, the split the compute
 * function performs together with the `assert!`s it makes about it, and the
 * `*_scratch_size` function. Lengths are unbounded naturals; `usize`
 * overflow of the products of lengths is not modelled.
 */
module ToomSizes {
  import opened Limbs
  import opened Modular

  /** The multiplication thresholds (limb counts). */
  const MulToom22Threshold: nat := 20
  const MulToom33Threshold: nat := 65
  const MulToom44Threshold: nat := 166
  const MulToom6hThreshold: nat := 256
  const MulToom8hThreshold: nat := 333

  /**
   * How a compute function cuts its operands: xs into full pieces of n limbs
   * and a top piece of s limbs, ys into full pieces of n limbs and a top
   * piece of t limbs.
   */
  datatype Split = Split(n: nat, s: nat, t: nat)

  function Max(a: int, b: int): int { if a >= b then a else b }

  /** `usize::saturating_sub`. */
  function SaturatingSub(a: nat, b: nat): nat { if a > b then a - b else 0 }

  /** ceil(a / d): the fewest pieces of d limbs that hold a limbs. */
  function CeilDiv(a: nat, d: nat): (r: nat)
    requires d > 0
    ensures d * r >= a
    ensures r > 0 ==> d * (r - 1) < a
  {
    CeilDivFacts(a, d);
    (a + d - 1) / d
  }

  lemma CeilDivFacts(a: nat, d: nat)
    requires d > 0
    ensures d * ((a + d - 1) / d) >= a
    ensures (a + d - 1) / d > 0 ==> d * ((a + d - 1) / d - 1) < a
  {
    var q, r := (a + d - 1) / d, (a + d - 1) % d;
    assert a + d - 1 == d * q + r;
    assert d * (q - 1) == d * q - d;
  }

  /**
   * `split_into_chunks!` with k chunks of n limbs: the length of what is left
   * on top, or `None` for the panic when the chunks do not fit.
   */
  function Chunks(len: nat, k: nat, n: nat): (r: Option<nat>)
    ensures r.Some? <==> k * n <= len
    ensures r.Some? ==> len == k * n + r.value
  {
    if k * n <= len then Some(len - k * n) else None
  }

  /**
   * The piece size most variants share, n = 1 + (if q xs >= p ys then
   * (xs - 1) / p else (ys - 1) / q), for xs cut into p pieces and ys into q.
   * It is the smallest n for which p pieces cover xs and q pieces cover ys.
   */
  function PieceSize(xs: nat, ys: nat, p: nat, q: nat): (n: nat)
    requires p > 0 && q > 0 && xs + ys > 0
    ensures n == Max(CeilDiv(xs, p), CeilDiv(ys, q))
    ensures p * n >= xs && q * n >= ys && n > 0
  {
    if q * xs >= p * ys then
      PieceSizeByXs(xs, ys, p, q);
      1 + (xs - 1) / p
    else
      PieceSizeByYs(xs, ys, p, q);
      1 + (ys - 1) / q
  }

  lemma PieceSizeByXs(xs: nat, ys: nat, p: nat, q: nat)
    requires p > 0 && q > 0 && xs + ys > 0 && q * xs >= p * ys
    ensures xs > 0 && 1 + (xs - 1) / p == CeilDiv(xs, p) >= CeilDiv(ys, q)
    ensures 1 + (xs - 1) / p == Max(CeilDiv(xs, p), CeilDiv(ys, q))
    ensures p * (1 + (xs - 1) / p) >= xs && q * (1 + (xs - 1) / p) >= ys
  {
    if xs == 0 {
      MulPositive(p, ys);
    }
    DivShift(xs - 1, p);
    var c, d := CeilDiv(xs, p), CeilDiv(ys, q);
    CoverCore(p, q, c, xs, ys);
    if c < d {
      MulMonotone(q, c, d - 1);
    }
  }

  /** q xs >= p ys makes ceil(xs / p) at least ceil(ys / q), empty operands included. */
  lemma CeilDivRatio(xs: nat, ys: nat, p: nat, q: nat)
    requires p > 0 && q > 0 && q * xs >= p * ys
    ensures CeilDiv(xs, p) >= CeilDiv(ys, q)
  {
    if xs + ys > 0 {
      PieceSizeByXs(xs, ys, p, q);
    }
  }

  lemma PieceSizeByYs(xs: nat, ys: nat, p: nat, q: nat)
    requires p > 0 && q > 0 && xs + ys > 0 && q * xs < p * ys
    ensures ys > 0 && 1 + (ys - 1) / q == CeilDiv(ys, q) >= CeilDiv(xs, p)
    ensures 1 + (ys - 1) / q == Max(CeilDiv(xs, p), CeilDiv(ys, q))
    ensures p * (1 + (ys - 1) / q) >= xs && q * (1 + (ys - 1) / q) >= ys
  {
    DivShift(ys - 1, q);
    var c, d := CeilDiv(xs, p), CeilDiv(ys, q);
    CoverCore(q, p, d, ys, xs);
    if d < c {
      MulMonotone(p, d, c - 1);
    }
  }

  /** (a + d) / d = 1 + a / d. */
  lemma DivShift(a: nat, d: nat)
    requires d > 0
    ensures (a + d) / d == 1 + a / d
  {
    ModUnique(a + d, d, 1 + a / d, a % d);
  }

  /** If p pieces of c cover xs and xs/p >= ys/q, then q pieces of c cover ys. */
  lemma CoverCore(p: nat, q: nat, c: nat, xs: nat, ys: nat)
    requires p > 0 && p * c >= xs && q * xs >= p * ys
    ensures q * c >= ys
  {
    if q * c < ys {
      MulMonotoneStrict(p, q * c, ys);
      MulMonotone(q, xs, p * c);
    }
  }

  lemma MulMonotoneStrict(k: nat, a: nat, b: nat)
    requires k > 0 && a < b
    ensures k * a < k * b
  {
    assert k * b == k * a + k * (b - a);
  }

  /**
   * xs is k full pieces of n limbs under a nonempty top piece of at most n
   * limbs, and ys is m full pieces under a top piece of the same kind.
   */
  predicate Tiles(sp: Split, xs: nat, ys: nat, k: nat, m: nat)
  {
    xs == k * sp.n + sp.s && ys == m * sp.n + sp.t && 0 < sp.s <= sp.n && 0 < sp.t <= sp.n
  }

  // Toom-22

  /**
   * `_limbs_mul_greater_to_out_toom_22_input_sizes_valid`; it holds exactly
   * when the compute function's asserts do, that is when ys <= xs <= 2 ys - 2.
   */
  function Toom22Valid(xs: nat, ys: nat): (r: bool)
    ensures r <==> Toom22Split(xs, ys).Some?
    ensures r <==> ys <= xs <= 2 * ys - 2
  {
    if ys == 0 || xs < ys then false
    else
      var s := xs / 2;
      var n := xs - s;
      var t := SaturatingSub(ys, n);
      s > 0 && (s == n || s == n - 1) && 0 < t <= s
  }

  /**
   * The split of `_limbs_mul_greater_to_out_toom_22`: the low n = xs - xs / 2
   * limbs and the high s = xs / 2 limbs; `None` when one of its asserts fails.
   */
  function Toom22Split(xs: nat, ys: nat): (r: Option<Split>)
    ensures r.Some? ==> Tiles(r.value, xs, ys, 1, 1)
    ensures r.Some? ==> r.value.t <= r.value.s && r.value.n - 1 <= r.value.s
  {
    if xs < ys then None
    else
      var s := xs / 2;
      var n := xs - s;
      if ys < n then None
      else
        var t := ys - n;
        if !(s > 0 && (s == n || s == n - 1)) || !(0 < t <= s) then None
        else Some(Split(n, s, t))
  }

  /** Depth of the Toom-22 recursion on m limbs: halvings, rounded up, until below the threshold. */
  function Toom22Depth(m: nat): nat
  {
    if m < MulToom22Threshold then 0 else 1 + Toom22Depth(m - m / 2)
  }

  /**
   * `_limbs_mul_greater_to_out_toom_22_scratch_size`: the documented need is
   * 2 (xs + k) for recursion depth k, and 2 (xs + 32) bounds it for every
   * length up to 2^32.
   */
  function Toom22ScratchSize(xs: nat): (r: nat)
    ensures xs <= Pow2(Width) ==> r >= 2 * (xs + Toom22Depth(xs))
  {
    Toom22DepthBound(xs, Width);
    2 * (xs + Width)
  }

  /** Lengths up to 2^k recurse at most k times. */
  lemma {:induction false} Toom22DepthBound(m: nat, k: nat)
    ensures m <= Pow2(k) ==> Toom22Depth(m) <= k
  {
    if m <= Pow2(k) && m >= MulToom22Threshold {
      assert k > 0;
      assert m - m / 2 <= Pow2(k - 1);
      Toom22DepthBound(m - m / 2, k - 1);
    }
  }

  // Toom-32

  /** `_limbs_mul_greater_to_out_toom_32_input_sizes_valid`: exactly the compute function's asserts. */
  function Toom32Valid(xs: nat, ys: nat): (r: bool)
    ensures r <==> Toom32Split(xs, ys).Some?
    ensures r ==> xs < 3 * ys
  {
    if ys == 0 || xs < ys then false
    else
      var n := PieceSize(xs, ys, 3, 2);
      if ys + 2 > xs || xs + 6 > 3 * ys then false
      else
        var s := SaturatingSub(xs, 2 * n);
        var t := SaturatingSub(ys, n);
        0 < s <= n && 0 < t <= n && s + t >= n
  }

  /**
   * The split of `_limbs_mul_greater_to_out_toom_32`: xs in three pieces, ys
   * in two; `None` when an assert fails, a chunk does not fit or computing n
   * underflows on empty operands.
   */
  function Toom32Split(xs: nat, ys: nat): (r: Option<Split>)
    ensures r.Some? ==> Tiles(r.value, xs, ys, 2, 1)
    ensures r.Some? ==> r.value.s + r.value.t >= r.value.n && ys + 2 <= xs && xs + 6 <= 3 * ys
  {
    if xs < ys || xs == 0 then None
    else
      var n := PieceSize(xs, ys, 3, 2);
      if !(ys + 2 <= xs && xs + 6 <= 3 * ys) then None
      else
        match (Chunks(xs, 2, n), Chunks(ys, 1, n))
        case (Some(s), Some(t)) =>
          if 0 < s <= n && 0 < t <= n && s + t >= n then Some(Split(n, s, t)) else None
        case _ => None
  }

  /** `_limbs_mul_greater_to_out_toom_32_scratch_size`: 2 n + 1 for the compute function's n. */
  function Toom32ScratchSize(xs: nat, ys: nat): (r: nat)
    requires xs + ys > 0
    ensures Toom32Valid(xs, ys) ==> r == 2 * Toom32Split(xs, ys).value.n + 1
  {
    2 * PieceSize(xs, ys, 3, 2) + 1
  }

  // Toom-33

  /** `_limbs_mul_greater_to_out_toom_33_input_sizes_valid`: exactly the compute function's asserts. */
  function Toom33Valid(xs: nat, ys: nat): (r: bool)
    ensures r <==> Toom33Split(xs, ys).Some?
    ensures r ==> 2 * xs < 3 * ys
  {
    if ys == 0 || xs < ys then false
    else
      var n := CeilDiv(xs, 3);
      var s := SaturatingSub(xs, 2 * n);
      var t := SaturatingSub(ys, 2 * n);
      0 < s <= n && 0 < t <= n
  }

  /** The split of `_limbs_mul_greater_to_out_toom_33`: both operands in three pieces of n = ceil(xs / 3). */
  function Toom33Split(xs: nat, ys: nat): (r: Option<Split>)
    ensures r.Some? ==> Tiles(r.value, xs, ys, 2, 2)
  {
    if xs < ys then None
    else
      var n := CeilDiv(xs, 3);
      match (Chunks(xs, 2, n), Chunks(ys, 2, n))
      case (Some(s), Some(t)) =>
        if 0 < s <= n && 0 < t <= n then Some(Split(n, s, t)) else None
      case _ => None
  }

  /** Depth of the Toom-33 recursion on m limbs: thirds, rounded up, until below the threshold. */
  function Toom33Depth(m: nat): nat
  {
    if m < MulToom33Threshold then 0 else 1 + Toom33Depth(CeilDiv(m, 3))
  }

  /**
   * `_limbs_mul_greater_to_out_toom_33_scratch_size`: 3 xs + 32 covers the
   * documented need of 5 xs / 2 + 10 k for Toom-33 recursion depth k.
   */
  function Toom33ScratchSize(xs: nat): (r: nat)
    ensures 2 * r >= 5 * xs + 20 * Toom33Depth(xs)
  {
    Toom33DepthBound(xs);
    3 * xs + Width
  }

  lemma {:induction false} Toom33DepthBound(m: nat)
    ensures 20 * Toom33Depth(m) <= m + 64
  {
    if m >= MulToom33Threshold {
      Toom33DepthBound(CeilDiv(m, 3));
    }
  }

  // Toom-42

  /** `_limbs_mul_greater_to_out_toom_42_input_sizes_valid`: exactly the compute function's asserts. */
  function Toom42Valid(xs: nat, ys: nat): (r: bool)
    ensures r <==> Toom42Split(xs, ys).Some?
    ensures r ==> xs < 4 * ys
  {
    if ys == 0 || xs < ys then false
    else
      var n := Toom42PieceSize(xs, ys);
      var s := SaturatingSub(xs, 3 * n);
      var t := SaturatingSub(ys, n);
      0 < s <= n && 0 < t <= n
  }

  /** The n of Toom-42: ceil(xs / 4) when xs >= 2 ys, else ceil(ys / 2); either way the larger. */
  function Toom42PieceSize(xs: nat, ys: nat): (n: nat)
    ensures n == Max(CeilDiv(xs, 4), CeilDiv(ys, 2))
  {
    if xs >= 2 * ys then
      CeilDivRatio(xs, ys, 4, 2);
      CeilDiv(xs, 4)
    else
      PieceSizeByYs(xs, ys, 4, 2);
      CeilDiv(ys, 2)
  }

  /**
   * The split of `_limbs_mul_greater_to_out_toom_42`: xs in four pieces, ys in
   * two. The compute function does not assert xs >= ys; its split implies it.
   */
  function Toom42Split(xs: nat, ys: nat): (r: Option<Split>)
    ensures r.Some? ==> Tiles(r.value, xs, ys, 3, 1) && ys < xs
  {
    var n := Toom42PieceSize(xs, ys);
    match (Chunks(xs, 3, n), Chunks(ys, 1, n))
    case (Some(s), Some(t)) =>
      if 0 < s <= n && 0 < t <= n then Some(Split(n, s, t)) else None
    case _ => None
  }

  /** `_limbs_mul_greater_to_out_toom_42_scratch_size`: 6 n + 3 for the compute function's n. */
  function Toom42ScratchSize(xs: nat, ys: nat): (r: nat)
    ensures Toom42Valid(xs, ys) ==> r == 6 * Toom42Split(xs, ys).value.n + 3
  {
    6 * Toom42PieceSize(xs, ys) + 3
  }

  // Toom-43

  /** `_limbs_mul_greater_to_out_toom_43_input_sizes_valid`: exactly the compute function's asserts. */
  function Toom43Valid(xs: nat, ys: nat): (r: bool)
    ensures r <==> Toom43Split(xs, ys).Some?
    ensures r ==> xs < 2 * ys
  {
    if ys == 0 || xs < ys then false
    else
      var n := PieceSize(xs, ys, 4, 3);
      var s := SaturatingSub(xs, 3 * n);
      var t := SaturatingSub(ys, 2 * n);
      0 < s <= n && 0 < t <= n && s + t >= 5
  }

  /**
   * The split of `_limbs_mul_greater_to_out_toom_43`: xs in four pieces, ys in
   * three, with at least five limbs in the two top pieces together.
   */
  function Toom43Split(xs: nat, ys: nat): (r: Option<Split>)
    ensures r.Some? ==> Tiles(r.value, xs, ys, 3, 2) && r.value.s + r.value.t >= 5 && ys < xs
  {
    if xs + ys == 0 then None
    else
      var n := PieceSize(xs, ys, 4, 3);
      match (Chunks(xs, 3, n), Chunks(ys, 2, n))
      case (Some(s), Some(t)) =>
        if 0 < s <= n && 0 < t <= n && s + t >= 5 then Some(Split(n, s, t)) else None
      case _ => None
  }

  /** `_limbs_mul_greater_to_out_toom_43_scratch_size`: 6 n + 4 for the compute function's n. */
  function Toom43ScratchSize(xs: nat, ys: nat): (r: nat)
    requires xs + ys > 0
    ensures Toom43Valid(xs, ys) ==> r == 6 * Toom43Split(xs, ys).value.n + 4
  {
    6 * PieceSize(xs, ys, 4, 3) + 4
  }

  // Toom-44

  /** `_limbs_mul_greater_to_out_toom_44_input_sizes_valid`: exactly the compute function's asserts. */
  function Toom44Valid(xs: nat, ys: nat): (r: bool)
    ensures r <==> Toom44Split(xs, ys).Some?
    ensures r ==> 3 * xs < 4 * ys
  {
    if ys == 0 || xs < ys then false
    else
      var n := CeilDiv(xs, 4);
      var s := SaturatingSub(xs, 3 * n);
      var t := SaturatingSub(ys, 3 * n);
      0 < s <= n && 0 < t <= n && s >= t
  }

  /** The split of `_limbs_mul_greater_to_out_toom_44`: both operands in four pieces of n = ceil(xs / 4). */
  function Toom44Split(xs: nat, ys: nat): (r: Option<Split>)
    ensures r.Some? ==> Tiles(r.value, xs, ys, 3, 3) && r.value.s >= r.value.t
  {
    if xs < ys then None
    else
      var n := CeilDiv(xs, 4);
      match (Chunks(xs, 3, n), Chunks(ys, 3, n))
      case (Some(s), Some(t)) =>
        if 0 < s <= n && 0 < t <= n && s >= t then Some(Split(n, s, t)) else None
      case _ => None
  }

  /** `_limbs_mul_greater_to_out_toom_44_scratch_size`. */
  function Toom44ScratchSize(xs: nat): nat
  {
    3 * xs + Width
  }

  /**
   * At the sizes where Toom-44 is used, 3 xs + 32 satisfies the documented
   * recurrence S(xs) <= 4 (2 ceil(xs / 4) + 1) + 1 + S(ceil(xs / 4) + 1).
   */
  lemma Toom44ScratchRecurrence(xs: nat)
    requires xs >= MulToom44Threshold
    ensures Toom44ScratchSize(xs) >= 4 * (2 * CeilDiv(xs, 4) + 1) + 1 + Toom44ScratchSize(CeilDiv(xs, 4) + 1)
  {
  }

  // Toom-52

  /** `_limbs_mul_greater_to_out_toom_52_input_sizes_valid`: exactly the compute function's asserts. */
  function Toom52Valid(xs: nat, ys: nat): (r: bool)
    ensures r <==> Toom52Split(xs, ys).Some?
    ensures r ==> xs < 5 * ys
  {
    if xs == 0 || xs < ys then false
    else
      var n := PieceSize(xs, ys, 5, 2);
      var s := SaturatingSub(xs, 4 * n);
      var t := SaturatingSub(ys, n);
      0 < s <= n && 0 < t <= n && s + t >= 5
  }

  /**
   * The split of `_limbs_mul_greater_to_out_toom_52`: xs in five pieces, ys in
   * two, with at least five limbs in the two top pieces together.
   */
  function Toom52Split(xs: nat, ys: nat): (r: Option<Split>)
    ensures r.Some? ==> Tiles(r.value, xs, ys, 4, 1) && r.value.s + r.value.t >= 5
  {
    if xs < ys || xs == 0 then None
    else
      var n := PieceSize(xs, ys, 5, 2);
      match (Chunks(ys, 1, n), Chunks(xs, 4, n))
      case (Some(t), Some(s)) =>
        if 0 < s <= n && 0 < t <= n && s + t >= 5 then Some(Split(n, s, t)) else None
      case _ => None
  }

  /** `_limbs_mul_greater_to_out_toom_52_scratch_size`: 6 n + 4 for the compute function's n. */
  function Toom52ScratchSize(xs: nat, ys: nat): (r: nat)
    requires xs + ys > 0
    ensures Toom52Valid(xs, ys) ==> r == 6 * Toom52Split(xs, ys).value.n + 4
  {
    6 * PieceSize(xs, ys, 5, 2) + 4
  }

  // Toom-53

  /** `_limbs_mul_greater_to_out_toom_53_input_sizes_valid`: exactly the compute function's asserts. */
  function Toom53Valid(xs: nat, ys: nat): (r: bool)
    ensures r <==> Toom53Split(xs, ys).Some?
    ensures r ==> 2 * xs < 5 * ys
  {
    if xs == 0 || xs < ys then false
    else
      var n := PieceSize(xs, ys, 5, 3);
      var s := SaturatingSub(xs, 4 * n);
      var t := SaturatingSub(ys, 2 * n);
      0 < s <= n && 0 < t <= n
  }

  /** The split of `_limbs_mul_greater_to_out_toom_53`: xs in five pieces, ys in three. */
  function Toom53Split(xs: nat, ys: nat): (r: Option<Split>)
    ensures r.Some? ==> Tiles(r.value, xs, ys, 4, 2)
  {
    if xs < ys || xs == 0 then None
    else
      var n := PieceSize(xs, ys, 5, 3);
      match (Chunks(xs, 4, n), Chunks(ys, 2, n))
      case (Some(s), Some(t)) =>
        if 0 < s <= n && 0 < t <= n then Some(Split(n, s, t)) else None
      case _ => None
  }

  /** `_limbs_mul_greater_to_out_toom_53_scratch_size`: 10 (n + 1) for the compute function's n. */
  function Toom53ScratchSize(xs: nat, ys: nat): (r: nat)
    requires xs + ys > 0
    ensures Toom53Valid(xs, ys) ==> r == 10 * (Toom53Split(xs, ys).value.n + 1)
  {
    10 * (PieceSize(xs, ys, 5, 3) + 1)
  }

  // Toom-54

  /** `_limbs_mul_greater_to_out_toom_54_input_sizes_valid`: exactly the compute function's asserts. */
  function Toom54Valid(xs: nat, ys: nat): (r: bool)
    ensures r <==> Toom54Split(xs, ys).Some?
    ensures r ==> 3 * xs < 5 * ys
  {
    if xs == 0 || xs < ys then false
    else
      var n := PieceSize(xs, ys, 5, 4);
      var s := SaturatingSub(xs, 4 * n);
      var t := SaturatingSub(ys, 3 * n);
      0 < s <= n && 0 < t <= n && s + t >= n && s + t > 4 && n > 2
  }

  /**
   * The split of `_limbs_mul_greater_to_out_toom_54`: xs in five pieces, ys in
   * four, the two top pieces together at least a full piece and more than four limbs.
   */
  function Toom54Split(xs: nat, ys: nat): (r: Option<Split>)
    ensures r.Some? ==> Tiles(r.value, xs, ys, 4, 3)
    ensures r.Some? ==> r.value.s + r.value.t >= r.value.n && r.value.s + r.value.t > 4 && r.value.n > 2
  {
    if xs < ys || xs == 0 then None
    else
      var n := PieceSize(xs, ys, 5, 4);
      match (Chunks(xs, 4, n), Chunks(ys, 3, n))
      case (Some(s), Some(t)) =>
        if 0 < s <= n && 0 < t <= n && s + t >= n && s + t > 4 && n > 2 then Some(Split(n, s, t)) else None
      case _ => None
  }

  /** `_limbs_mul_greater_to_out_toom_54_scratch_size`: 9 n + 3 for the compute function's n. */
  function Toom54ScratchSize(xs: nat, ys: nat): (r: nat)
    requires xs + ys > 0
    ensures Toom54Valid(xs, ys) ==> r == 9 * Toom54Split(xs, ys).value.n + 3
  {
    9 * PieceSize(xs, ys, 5, 4) + 3
  }

  // Toom-62

  /** `_limbs_mul_greater_to_out_toom_62_input_sizes_valid`: exactly the compute function's asserts. */
  function Toom62Valid(xs: nat, ys: nat): (r: bool)
    ensures r <==> Toom62Split(xs, ys).Some?
    ensures r ==> xs < 6 * ys
  {
    if xs == 0 || xs < ys then false
    else
      var n := PieceSize(xs, ys, 6, 2);
      var s := SaturatingSub(xs, 5 * n);
      var t := SaturatingSub(ys, n);
      0 < s <= n && 0 < t <= n
  }

  /** The split of `_limbs_mul_greater_to_out_toom_62`: xs in six pieces, ys in two. */
  function Toom62Split(xs: nat, ys: nat): (r: Option<Split>)
    ensures r.Some? ==> Tiles(r.value, xs, ys, 5, 1)
  {
    if xs < ys || xs == 0 then None
    else
      var n := PieceSize(xs, ys, 6, 2);
      match (Chunks(xs, 5, n), Chunks(ys, 1, n))
      case (Some(s), Some(t)) =>
        if 0 < s <= n && 0 < t <= n then Some(Split(n, s, t)) else None
      case _ => None
  }

  /** `_limbs_mul_greater_to_out_toom_62_scratch_size`: 10 (n + 1) for the compute function's n. */
  function Toom62ScratchSize(xs: nat, ys: nat): (r: nat)
    requires xs + ys > 0
    ensures Toom62Valid(xs, ys) ==> r == 10 * (Toom62Split(xs, ys).value.n + 1)
  {
    10 * (PieceSize(xs, ys, 6, 2) + 1)
  }

  // Toom-63

  /** `_limbs_mul_greater_to_out_toom_63_input_sizes_valid`: exactly the compute function's asserts. */
  function Toom63Valid(xs: nat, ys: nat): (r: bool)
    ensures r <==> Toom63Split(xs, ys).Some?
    ensures r ==> xs < 3 * ys
  {
    if xs == 0 || xs < ys then false
    else
      var n := PieceSize(xs, ys, 6, 3);
      var s := SaturatingSub(xs, 5 * n);
      var t := SaturatingSub(ys, 2 * n);
      0 < s <= n && 0 < t <= n && s + t >= n && s + t > 4 && n > 2
  }

  /**
   * The split of `_limbs_mul_greater_to_out_toom_63`: xs in six pieces, ys in
   * three, the two top pieces together at least a full piece and more than four limbs.
   */
  function Toom63Split(xs: nat, ys: nat): (r: Option<Split>)
    ensures r.Some? ==> Tiles(r.value, xs, ys, 5, 2)
    ensures r.Some? ==> r.value.s + r.value.t >= r.value.n && r.value.s + r.value.t > 4 && r.value.n > 2
  {
    if xs < ys || xs == 0 then None
    else
      var n := PieceSize(xs, ys, 6, 3);
      match (Chunks(ys, 2, n), Chunks(xs, 5, n))
      case (Some(t), Some(s)) =>
        if 0 < s <= n && 0 < t <= n && s + t >= n && s + t > 4 && n > 2 then Some(Split(n, s, t)) else None
      case _ => None
  }

  /** `_limbs_mul_greater_to_out_toom_63_scratch_size`: 9 n + 3 for the compute function's n. */
  function Toom63ScratchSize(xs: nat, ys: nat): (r: nat)
    requires xs + ys > 0
    ensures Toom63Valid(xs, ys) ==> r == 9 * Toom63Split(xs, ys).value.n + 3
  {
    9 * PieceSize(xs, ys, 6, 3) + 3
  }
}
