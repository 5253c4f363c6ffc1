/**
 * Multiplication modulo B^n - 1 (`_limbs_mul_mod_limb_width_to_n_minus_1`), at
 * the value level.
 *
 * For even n = 2h above the threshold the product is computed twice at half
 * size, once modulo B^h - 1 (by recursion on the folded operands) and once
 * modulo B^h + 1 (by a folded schoolbook product, the plus-one basecase or the
 * FFT), and the two residues are recombined with the Chinese remainder theorem,
 * B^h - 1 and B^h + 1 being coprime. Odd or small n multiply outright and fold
 * the high half onto the low half.
 *
 * Operands are naturals together with their limb counts (`x < B^xsLen`); a
 * result `None` stands for a panic, so every `assert!` of the source appears as
 * a guard, and the lemmas show that none of them fires on admissible input.
 */
module MulMod {
  import opened Limbs
  import opened Modular
  import Karatsuba

  /** `MULMOD_BNM1_THRESHOLD`: below this n the product is folded directly. */
  const MulModBnm1Threshold: nat := 13
  /** `MUL_FFT_MODF_THRESHOLD`: below this half size the FFT is never chosen. */
  const MulFftModfThreshold: nat := 396
  /** `FFT_FIRST_K`: the least FFT order worth using for the product mod B^h + 1. */
  const FftFirstK: nat := 4

  /** Limb i of v. */
  function Limb(v: nat, i: nat): nat
  {
    (v / Pow(Base, i)) % Base
  }

  /** a and b agree modulo the positive m. */
  predicate Congruent(a: int, b: int, m: nat)
  {
    m > 0 && (a - b) % m == 0
  }

  // ---------------------------------------------------------------------------
  // Sizes
  // ---------------------------------------------------------------------------

  /**
   * `_limbs_mul_mod_limb_width_to_n_minus_1_next_size`: the size to use for a
   * product needing n limbs, rounded up so that the recursion can halve it once
   * (n <= 48), twice (n <= 96) or three times before reaching odd sizes.
   * `fftNextSize(c)` stands for `mpn_fft_next_size(c, _limbs_mul_fft_best_k(c, false))`.
   */
  function NextSize(n: nat, fftNextSize: nat -> nat): (r: nat)
    ensures n < MulModBnm1Threshold ==> r == n
    ensures MulModBnm1Threshold <= n <= 48 ==> r % 2 == 0 && n <= r < n + 2
    ensures 48 < n <= 96 ==> r % 4 == 0 && n <= r < n + 4
    ensures 96 < n && (n + 1) / 2 < MulFftModfThreshold ==> r % 8 == 0 && n <= r < n + 8
    ensures 96 < n && (n + 1) / 2 >= MulFftModfThreshold ==> r == 2 * fftNextSize((n + 1) / 2)
  {
    if n < MulModBnm1Threshold then n
    else if n <= (MulModBnm1Threshold - 1) * 4 then (n + 1) / 2 * 2
    else if n <= (MulModBnm1Threshold - 1) * 8 then (n + 3) / 4 * 4
    else
      var ceilingHalf := (n + 1) / 2;
      if ceilingHalf < MulFftModfThreshold then (n + 7) / 8 * 8
      else fftNextSize(ceilingHalf) * 2
  }

  /** Away from the FFT sizes, a size already returned is returned unchanged. */
  lemma NextSizeIdempotent(n: nat, fftNextSize: nat -> nat)
    requires n <= 784
    ensures NextSize(NextSize(n, fftNextSize), fftNextSize) == NextSize(n, fftNextSize)
  {
    var r := NextSize(n, fftNextSize);
    if 96 < n {
      assert r <= 784;
    }
  }

  /**
   * `_limbs_mul_mod_limb_width_to_n_minus_1_scratch_size`: n + 4 limbs, plus
   * room for the folded operands that exceed half of n.
   */
  function ScratchSize(n: nat, xsLen: nat, ysLen: nat): (r: nat)
    ensures n + 4 <= r <= 2 * n + 4
    ensures xsLen > n / 2 && ysLen > n / 2 ==> r == 2 * n + 4
    ensures xsLen <= n / 2 ==> r == n + 4
  {
    var halfN := n / 2;
    if xsLen > halfN then
      if ysLen > halfN then 2 * n + 4 else n + 4 + halfN
    else n + 4
  }

  /**
   * The recursive step stays inside the itch: what remains after the folded
   * operands holds the half-size call's own scratch, and the operands mod
   * B^h + 1 (h + 1 limbs each, after 2(h + 1) limbs of product) fit as well.
   */
  lemma ScratchCoversRecursion(n: nat, xsLen: nat, ysLen: nat, xs': nat, ys': nat)
    requires n % 2 == 0 && ysLen <= xsLen <= n
    ensures var h := n / 2;
      var folded := (if xsLen > h then h else 0) + (if ysLen > h then h else 0);
      ScratchSize(n, xsLen, ysLen) - folded >= ScratchSize(h, xs', ys')
    ensures var h := n / 2;
      xsLen > h ==> ScratchSize(n, xsLen, ysLen) >= (if ysLen > h then 4 else 3) * (h + 1)
  {
    var h := n / 2;
    assert ScratchSize(h, xs', ys') <= 2 * h + 4;
  }

  // ---------------------------------------------------------------------------
  // Small arithmetic facts
  // ---------------------------------------------------------------------------

  lemma MultipleOf(a: int, d: nat, k: int)
    requires d > 0 && a == d * k
    ensures a % d == 0
  {
    ModAddMultiple(0, d, k);
  }

  lemma SumOfMultiples(a: int, b: int, d: nat)
    requires d > 0 && a % d == 0 && b % d == 0
    ensures (a + b) % d == 0
  {
    var qa, qb := a / d, b / d;
    assert a == d * qa && b == d * qb;
    MultipleOf(a + b, d, qa + qb);
  }

  lemma ScaledMultiple(a: int, k: int, d: nat)
    requires d > 0 && a % d == 0
    ensures (k * a) % d == 0
  {
    var q := a / d;
    assert k * a == d * (k * q);
    MultipleOf(k * a, d, k * q);
  }

  lemma ProductBound(x: nat, xsLen: nat, y: nat, ysLen: nat)
    requires x < Pow(Base, xsLen) && y < Pow(Base, ysLen)
    ensures x * y < Pow(Base, xsLen + ysLen)
  {
    PowAdd(Base, xsLen, ysLen);
    Karatsuba.ProductBelow(x, y, Pow(Base, xsLen), Pow(Base, ysLen));
  }

  lemma LimbOf(v: nat, i: nat)
    requires v < Pow(Base, i + 1)
    ensures Limb(v, i) == v / Pow(Base, i)
  {
    PowBaseStep(i);
    DivBelow(v, Pow(Base, i), Base);
    SmallDivMod(v / Pow(Base, i), Base);
  }

  lemma PowDouble(n: nat)
    ensures Pow(Base, 2 * n) == Pow(Base, n) * Pow(Base, n)
  {
    PowAdd(Base, n, n);
    assert n + n == 2 * n;
  }

  lemma PowEven(h: nat)
    requires h > 0
    ensures Pow(Base, h) % 2 == 0 && Pow(Base, h) >= Base
  {
    PowMonotone(Base, 1, h);
    assert Pow(Base, h) == 2 * (0x8000_0000 * Pow(Base, h - 1));
  }

  /** A value in [0, d) congruent to p modulo d is p's least residue. */
  lemma LeastResidue(p: int, v: int, d: nat)
    requires 0 <= v < d && Congruent(v, p, d)
    ensures v == p % d
  {
    ModNegate(v - p, d);
    var k := (p - v) / d;
    assert p - v == d * k;
    ModUnique(p, d, k, v);
  }

  // ---------------------------------------------------------------------------
  // Folding modulo B^n - 1
  // ---------------------------------------------------------------------------

  /**
   * `limbs_add_to_out` of the low n limbs of p and the limbs above them, with
   * m = B^n: the n-limb sum and its carry out.
   */
  function SplitSum(p: nat, m: nat): (nat, bool)
    requires m > 0
  {
    var s := p % m + p / m;
    if s < m then (s, false) else (s - m, true)
  }

  /** The fold with the carry added back in, as the driver does it: the increment is asserted not to overflow. */
  function FoldBnm1(p: nat, n: nat): Option<nat>
  {
    var m := Pow(Base, n);
    var (s, carry) := SplitSum(p, m);
    if !carry then Some(s)
    else if s + 1 >= m then None
    else Some(s + 1)
  }

  /** The fold with m = B^n kept abstract, for p below m^2. */
  lemma FoldCore(p: nat, m: nat)
    requires m > 1 && p < m * m
    ensures var (s, carry) := SplitSum(p, m);
      var r := if carry then s + 1 else s;
      r < m && Congruent(r, p, m - 1) && (r == 0 <==> p == 0) && (p < m ==> r == p)
  {
    var lo: nat, hi: nat := p % m, p / m;
    DivBelow(p, m, m);
    if p < m {
      SmallDivMod(p, m);
    }
    if lo + hi >= m {
      FoldCarry(p, m, lo, hi);
    } else {
      FoldNoCarry(p, m, lo, hi);
    }
  }

  lemma FoldCarry(p: nat, m: nat, lo: nat, hi: nat)
    requires m > 1 && lo == p % m && hi == p / m && hi < m && lo + hi >= m
    ensures 0 < lo + hi - m + 1 < m && Congruent(lo + hi - m + 1, p, m - 1) && p > 0
  {
    var k := -((hi + 1) as int);
    assert p == m * hi + lo;
    assert lo + hi - m + 1 - p == (m - 1) * k;
    MultipleOf(lo + hi - m + 1 - p, m - 1, k);
  }

  lemma FoldNoCarry(p: nat, m: nat, lo: nat, hi: nat)
    requires m > 1 && lo == p % m && hi == p / m && lo + hi < m
    ensures Congruent(lo + hi, p, m - 1) && (lo + hi == 0 <==> p == 0)
  {
    var k := -(hi as int);
    assert p == m * hi + lo;
    assert lo + hi - p == (m - 1) * k;
    MultipleOf(lo + hi - p, m - 1, k);
  }

  /**
   * Folding a number below B^2n never overflows, keeps its residue modulo
   * B^n - 1, is zero exactly when the number is, and leaves a number that
   * already fits unchanged.
   */
  lemma FoldBnm1Spec(p: nat, n: nat)
    requires n > 0 && p < Pow(Base, 2 * n)
    ensures FoldBnm1(p, n).Some?
    ensures var r := FoldBnm1(p, n).value;
      r < Pow(Base, n) && Congruent(r, p, Pow(Base, n) - 1)
      && (r == 0 <==> p == 0) && (p < Pow(Base, n) ==> r == p)
  {
    PowDouble(n);
    PowEven(n);
    FoldCore(p, Pow(Base, n));
  }

  /**
   * `_limbs_mul_mod_limb_width_to_n_minus_1_basecase`: the full product of two
   * n-limb operands, its high half added onto its low half and the carry out
   * added back in with `limbs_slice_add_limb_in_place`, whose own carry is
   * ignored.
   */
  function Minus1Basecase(x: nat, y: nat, n: nat): Option<nat>
  {
    if n == 0 then None
    else
      var m := Pow(Base, n);
      var (s, carry) := SplitSum(x * y, m);
      Some(if carry then (s + 1) % m else s)
  }

  /**
   * The minus-one basecase panics only on empty operands; otherwise it gives an
   * n-limb value congruent to x y modulo B^n - 1, zero only when x or y is (the
   * zero class may also come out as B^n - 1).
   */
  lemma Minus1BasecaseSpec(x: nat, y: nat, n: nat)
    requires x < Pow(Base, n) && y < Pow(Base, n)
    ensures Minus1Basecase(x, y, n).Some? <==> n > 0
    ensures n > 0 ==> var r := Minus1Basecase(x, y, n).value;
      r < Pow(Base, n) && Congruent(r, x * y, Pow(Base, n) - 1) && (r == 0 <==> x == 0 || y == 0)
  {
    if n > 0 {
      var p := NatProduct(x, y);
      ProductBound(x, n, y, n);
      assert n + n == 2 * n;
      PowEven(n);
      FoldBnm1Spec(p, n);
      var (s, carry) := SplitSum(p, Pow(Base, n));
      if carry {
        SmallDivMod(s + 1, Pow(Base, n));
      }
      ZeroProduct(x, y, p);
    }
  }

  // ---------------------------------------------------------------------------
  // Products modulo B^h + 1
  // ---------------------------------------------------------------------------

  /**
   * The plus-one fold of p with m = B^n: the middle n limbs subtracted from the
   * low n, and `carry` plus the borrow added back in.
   */
  function Plus1Fold(p: nat, m: nat, carry: nat): nat
    requires m > 0
  {
    var lo, mid := p % m, (p / m) % m;
    var borrow: nat := if lo < mid then 1 else 0;
    lo + borrow * m - mid + (carry + borrow)
  }

  /**
   * `_limbs_mul_mod_limb_width_to_n_plus_1_basecase`: the product of two
   * (n + 1)-limb operands, with limb 2n + 1 asserted zero and limb 2n asserted
   * below `Limb::MAX` (it is incremented by the borrow), folded into n + 1
   * limbs; the final increment is asserted not to overflow.
   */
  function Plus1Basecase(x: nat, y: nat, n: nat): Option<nat>
  {
    if n == 0 then None
    else
      var p: nat := x * y;
      if Limb(p, 2 * n + 1) != 0 then None
      else if Limb(p, 2 * n) == MaxLimb then None
      else
        var v := Plus1Fold(p, Pow(Base, n), Limb(p, 2 * n));
        if v >= Pow(Base, n + 1) then None else Some(v)
  }

  lemma DivDiv(p: nat, a: nat, b: nat)
    requires a > 0 && b > 0
    ensures p / (a * b) == (p / a) / b
  {
    var q := p / a;
    var q2, r2 := q / b, q % b;
    var r := a * r2 + p % a;
    assert p == (a * b) * q2 + r by {
      assert p == a * q + p % a;
      assert q == b * q2 + r2;
    }
    assert r < a * b by {
      MulMonotone(a, r2, b - 1);
    }
    ModUnique(p, a * b, q2, r);
  }

  /** p = lo + m mid + m^2 carry, from the quotients the limb slices denote. */
  lemma ThreeParts(p: nat, m: nat, mm: nat)
    requires m > 0 && mm == m * m
    ensures p == p % m + m * ((p / m) % m) + mm * (p / mm)
  {
    var q := p / m;
    DivDiv(p, m, m);
    assert q == m * (q / m) + q % m;
    assert p == m * q + p % m;
  }

  lemma Plus1Identity(p: int, v: int, m: int, lo: int, mid: int, carry: int, borrow: int)
    requires p == lo + m * mid + (m * m) * carry
    requires v == lo + borrow * m - mid + (carry + borrow)
    ensures v - p == (m + 1) * (borrow - mid - (m - 1) * carry)
  {
  }

  /**
   * The plus-one fold with m = B^n, mm = B^2n and b = B kept abstract: below
   * mm b, with the top limb below b - 1, it fits n + 1 limbs and keeps the
   * residue mod m + 1.
   */
  lemma Plus1Core(p: nat, m: nat, mm: nat, b: nat, carry: nat)
    requires m >= 2 && b >= 2 && mm == m * m && p < mm * b && carry == p / mm && carry != b - 1
    ensures Plus1Fold(p, m, carry) < m * b && Congruent(Plus1Fold(p, m, carry), p, m + 1)
  {
    DivBelow(p, mm, b);
    Plus1Bound(p, m, b, carry);
    ThreeParts(p, m, mm);
    Plus1Congruent(p, m, mm, carry);
  }

  lemma Plus1Bound(p: nat, m: nat, b: nat, carry: nat)
    requires m >= 2 && b >= 2 && carry <= b - 2
    ensures Plus1Fold(p, m, carry) < m * b
  {
    assert m * b >= m + b by {
      MulPositive(m - 1, b - 1);
      assert m * b == (m - 1) * (b - 1) + m + b - 1;
    }
  }

  lemma Plus1Congruent(p: nat, m: nat, mm: nat, carry: nat)
    requires m >= 2 && mm == m * m && p == p % m + m * ((p / m) % m) + mm * carry
    ensures Congruent(Plus1Fold(p, m, carry), p, m + 1)
  {
    var lo: nat, mid: nat := p % m, (p / m) % m;
    var borrow: nat := if lo < mid then 1 else 0;
    var v := lo + borrow * m - mid + (carry + borrow);
    assert v == Plus1Fold(p, m, carry);
    Plus1Identity(p, v, m, lo, mid, carry, borrow);
    MultipleOf(v - p, m + 1, borrow - mid - (m - 1) * carry);
  }

  /**
   * The plus-one basecase succeeds exactly when n > 0 and the product fits the
   * two asserted limbs; it then gives an (n + 1)-limb value congruent to x y
   * modulo B^n + 1.
   */
  lemma Plus1BasecaseSpec(x: nat, y: nat, n: nat)
    requires x < Pow(Base, n + 1) && y < Pow(Base, n + 1)
    ensures Plus1Basecase(x, y, n).Some? <==>
      n > 0 && x * y < Pow(Base, 2 * n + 1) && x * y / Pow(Base, 2 * n) != MaxLimb
    ensures Plus1Basecase(x, y, n).Some? ==> var r := Plus1Basecase(x, y, n).value;
      r < Pow(Base, n + 1) && Congruent(r, x * y, Pow(Base, n) + 1)
  {
    if n > 0 {
      var p: nat := x * y;
      ProductBound(x, n + 1, y, n + 1);
      assert 2 * n + 1 + 1 == (n + 1) + (n + 1);
      LimbOf(p, 2 * n + 1);
      FloorDivAtLeast(p, Pow(Base, 2 * n + 1), 1);
      if p < Pow(Base, 2 * n + 1) {
        LimbOf(p, 2 * n);
        if p / Pow(Base, 2 * n) != MaxLimb {
          PowDouble(n);
          PowEven(n);
          PowBaseStep(n);
          PowBaseStep(2 * n);
          Plus1Core(p, Pow(Base, n), Pow(Base, 2 * n), Base, p / Pow(Base, 2 * n));
        }
      }
    }
  }

  /** For p at most m^2 (m = B^n abstract) the plus-one fold is p's least residue mod m + 1. */
  lemma Plus1SmallCore(p: nat, m: nat, mm: nat)
    requires m >= 2 && mm == m * m && p <= mm
    ensures 0 <= p / mm <= 1 && Plus1Fold(p, m, p / mm) == p % (m + 1)
  {
    MulPositive(m, m);
    var lo: nat, mid: nat, carry: nat := p % m, (p / m) % m, p / mm;
    ThreeParts(p, m, mm);
    if p == mm {
      DivAddMultiple(0, mm, 1);
      assert carry == 1;
      assert lo + m * mid == 0;
      if mid > 0 {
        MulMonotone(m, 1, mid);
      }
    } else {
      SmallDivMod(p, mm);
    }
    var borrow: nat := if lo < mid then 1 else 0;
    var v := lo + borrow * m - mid + (carry + borrow);
    assert v == Plus1Fold(p, m, carry);
    assert 0 <= v <= m;
    Plus1Identity(p, v, m, lo, mid, carry, borrow);
    MultipleOf(v - p, m + 1, borrow - mid - (m - 1) * carry);
    LeastResidue(p, v, m + 1);
  }

  lemma NormalizedProduct(x: nat, y: nat, m: nat, mm: nat)
    requires x <= m && y <= m && mm == m * m
    ensures x * y <= mm
  {
    MulMonotone(x, y, m);
    MulMonotone(m, x, m);
  }

  /**
   * With both operands normalised (at most B^n), the plus-one basecase never
   * panics and returns the product's least residue modulo B^n + 1.
   */
  lemma Plus1BasecaseNormalized(x: nat, y: nat, n: nat)
    requires n > 0 && x <= Pow(Base, n) && y <= Pow(Base, n)
    ensures Plus1Basecase(x, y, n) == Some((x * y) % (Pow(Base, n) + 1))
  {
    var p := NatProduct(x, y);
    assert Pow(Base, n) >= 2 && Pow(Base, 2 * n) == Pow(Base, n) * Pow(Base, n)
        && Pow(Base, 2 * n + 1) == Pow(Base, n) * Pow(Base, n) * Base && Pow(Base, n + 1) == Pow(Base, n) * Base by {
      PowBaseStep(n);
      PowEven(n);
      PowDouble(n);
      PowBaseStep(2 * n);
    }
    assert p <= Pow(Base, n) * Pow(Base, n) by {
      NormalizedProduct(x, y, Pow(Base, n), Pow(Base, n) * Pow(Base, n));
    }
    Plus1NormalizedCore(p, n, Pow(Base, n), Pow(Base, 2 * n), Pow(Base, 2 * n + 1));
    Plus1BasecaseOf(x, y, n, p, p % (Pow(Base, n) + 1));
    ResidueOfProduct(x, y, p, Pow(Base, n) + 1);
  }

  lemma Plus1BasecaseOf(x: nat, y: nat, n: nat, p: nat, v: nat)
    requires n > 0
    requires p == x * y
    requires Limb(p, 2 * n + 1) == 0
    requires Limb(p, 2 * n) != MaxLimb
    requires Plus1Fold(p, Pow(Base, n), Limb(p, 2 * n)) == v
    requires v < Pow(Base, n + 1)
    ensures Plus1Basecase(x, y, n) == Some(v)
  {
  }

  lemma ResidueOfProduct(x: nat, y: nat, p: nat, d: nat)
    requires p == x * y && d > 0
    ensures p % d == (x * y) % d
  {
  }

  /** The plus-one basecase's steps on a product of at most m^2, with m = B^n, mm = B^2n and mmb = B^(2n+1) abstract. */
  lemma Plus1NormalizedCore(p: nat, n: nat, m: nat, mm: nat, mmb: nat)
    requires m >= 2 && m == Pow(Base, n) && mm == Pow(Base, 2 * n) && mmb == Pow(Base, 2 * n + 1)
    requires mm == m * m && mmb == mm * Base && Pow(Base, n + 1) == m * Base && p <= mm
    ensures Limb(p, 2 * n + 1) == 0 && Limb(p, 2 * n) != MaxLimb
    ensures Plus1Fold(p, m, Limb(p, 2 * n)) == p % (m + 1) && p % (m + 1) < Pow(Base, n + 1)
  {
    Plus1SmallCore(p, m, mm);
    SmallDivMod(p / mm, Base);
    MulStrict(mm, 1, Base);
    SmallDivMod(p, mmb);
    SmallDivMod(0, Base);
    MulStrict(m, 1, Base);
  }

  // ---------------------------------------------------------------------------
  // Residue arithmetic
  // ---------------------------------------------------------------------------

  lemma CongruentTrans(a: int, b: int, c: int, d: nat)
    requires Congruent(a, b, d) && Congruent(b, c, d)
    ensures Congruent(a, c, d)
  {
    SumOfMultiples(a - b, b - c, d);
  }

  lemma CongruentProduct(a: int, x: int, b: int, y: int, d: nat)
    requires Congruent(a, x, d) && Congruent(b, y, d)
    ensures Congruent(a * b, x * y, d)
  {
    ScaledMultiple(b - y, a, d);
    ScaledMultiple(a - x, y, d);
    assert a * b - x * y == a * (b - y) + y * (a - x);
    SumOfMultiples(a * (b - y), y * (a - x), d);
  }

  lemma CongruentResidue(a: int, d: nat)
    requires d > 0
    ensures Congruent(a % d, a, d)
  {
    var q := a / d;
    assert a % d - a == d * -q;
    MultipleOf(a % d - a, d, -q);
  }

  lemma CongruentSelf(a: int, d: nat)
    requires d > 0
    ensures Congruent(a, a, d)
  {
    MultipleOf(0, d, 0);
  }

  /** A value in [0, N] congruent to some p in [0, N) is p itself, unless it is N standing for zero. */
  lemma EqualBelow(r: int, p: int, d: nat)
    requires 0 <= r <= d && 0 <= p < d && Congruent(r, p, d) && (p == 0 ==> r == 0)
    ensures r == p
  {
    if p > 0 {
      ModEqualIffDifference(r, p, d);
      SmallDivMod(p, d);
      assert r != d by {
        DivAddMultiple(0, d, 1);
      }
      SmallDivMod(r, d);
    }
  }

  /** Chinese remainder theorem for the odd modulus k and k + 2, which are coprime. */
  lemma Crt(z: int, k: nat)
    requires k % 2 == 1 && z % k == 0 && z % (k + 2) == 0
    ensures z % (k * (k + 2)) == 0
  {
    var p := k + 2;
    var u, w := z / k, z / p;
    assert z == k * u && z == p * w;
    CrtTwice(k, u, w);
    var s := (k + 1) / 2;
    var t := CrtHalve(p, s, u, u - w);
    assert z == (k * p) * t by {
      assert z == k * (p * t);
    }
    MultipleOf(z, k * p, t);
  }

  /** From k u = (k + 2) w: 2 u = (k + 2)(u - w). */
  lemma CrtTwice(k: int, u: int, w: int)
    requires k * u == (k + 2) * w
    ensures 2 * u == (k + 2) * (u - w)
  {
    assert (k + 2) * (u - w) == (k + 2) * u - (k + 2) * w;
    assert (k + 2) * u == k * u + 2 * u;
  }

  /** An odd p = 2s + 1 dividing 2u divides u. */
  lemma CrtHalve(p: int, s: int, u: int, e: int) returns (t: int)
    requires p == 2 * s + 1 && 2 * u == p * e
    ensures u == p * t
  {
    assert p * e == 2 * (s * e) + e;
    t := u - s * e;
    assert e == 2 * t;
    assert p * e == 2 * (p * t);
  }

  // ---------------------------------------------------------------------------
  // The product modulo B^h + 1
  // ---------------------------------------------------------------------------

  /**
   * `limbs_sub_to_out` (or `limbs_sub_in_place_left`) of hi from lo over h
   * limbs (m = B^h), limb h cleared, and 1 added over h + 1 limbs (mb = B^(h+1))
   * on a borrow, the increment asserted not to overflow: lo - hi modulo m + 1.
   */
  function SubBnp1(lo: nat, hi: nat, m: nat, mb: nat): Option<nat>
    requires m > 0
  {
    if lo >= hi then Some(lo - hi)
    else
      var w := (lo - hi) % m + 1;
      if w >= mb then None else Some(w)
  }

  /** For h-limb operands the subtraction never overflows and lands in [0, B^h], congruent to lo - hi. */
  lemma SubBnp1Spec(lo: nat, hi: nat, m: nat, mb: nat)
    requires lo < m && hi < m && m < mb
    ensures SubBnp1(lo, hi, m, mb).Some?
    ensures var v := SubBnp1(lo, hi, m, mb).value;
      v <= m && Congruent(v, lo - hi, m + 1) && (v == 0 <==> lo == hi)
  {
    if lo >= hi {
      CongruentSelf(lo - hi, m + 1);
    } else {
      ModUnique(lo - hi, m, -1, lo - hi + m);
      MultipleOf(lo - hi + m + 1 - (lo - hi), m + 1, 1);
    }
  }

  /**
   * An operand reduced modulo B^h + 1 with its limb count (`anp`, `bnp`): the
   * operand itself when it has at most h limbs, otherwise its low h limbs minus
   * the rest, whose limb count is h plus the top limb of the difference.
   */
  function OperandBnp1(x: nat, xsLen: nat, h: nat): Option<(nat, nat)>
  {
    if xsLen <= h then Some((x, xsLen))
    else
      var m := Pow(Base, h);
      var v :- SubBnp1(x % m, x / m, m, Pow(Base, h + 1));
      Some((v, h + Limb(v, h)))
  }

  /** x = lo + m hi is congruent to lo - hi modulo m + 1. */
  lemma SplitCongruent(x: nat, m: nat, lo: nat, hi: nat)
    requires m > 0 && lo == x % m && hi == x / m
    ensures Congruent(lo - hi, x, m + 1)
  {
    assert x == m * hi + lo;
    assert lo - hi - x == (m + 1) * -(hi as int);
    MultipleOf(lo - hi - x, m + 1, -(hi as int));
  }

  /** Low half minus high half of a value below m^2, as residue modulo m + 1. */
  lemma SplitBnp1(x: nat, m: nat, mb: nat) returns (v: nat)
    requires 1 < m < mb && x < m * m
    ensures SubBnp1(x % m, x / m, m, mb) == Some(v)
    ensures v <= m && Congruent(v, x, m + 1) && (x == 0 ==> v == 0)
  {
    DivBelow(x, m, m);
    if x == 0 {
      SmallDivMod(x, m);
    }
    SubBnp1Spec(x % m, x / m, m, mb);
    SplitCongruent(x, m, x % m, x / m);
    v := SubBnp1(x % m, x / m, m, mb).value;
    CongruentTrans(v, x % m - x / m, x, m + 1);
  }

  /** The limb above the low h of a normalised residue is 1 exactly when the residue is m. */
  lemma TopLimb(v: nat, m: nat)
    requires 0 < m && v <= m
    ensures v / m == (if v == m then 1 else 0)
  {
    if v == m {
      DivAddMultiple(0, m, 1);
    } else {
      SmallDivMod(v, m);
    }
  }

  /** Reducing an operand of at most 2h limbs never panics and gives a normalised residue that fits its count. */
  lemma OperandBnp1Spec(x: nat, xsLen: nat, h: nat) returns (a: nat, anp: nat)
    requires h > 0 && x < Pow(Base, xsLen) && xsLen <= 2 * h
    ensures OperandBnp1(x, xsLen, h) == Some((a, anp))
    ensures a <= Pow(Base, h) && a < Pow(Base, anp) && Congruent(a, x, Pow(Base, h) + 1)
    ensures x == 0 ==> a == 0
    ensures xsLen <= h ==> a == x && anp == xsLen
    ensures xsLen > h ==> h <= anp <= h + 1 && (anp == h + 1 ==> a == Pow(Base, h))
  {
    var m := Pow(Base, h);
    if xsLen <= h {
      PowMonotone(Base, xsLen, h);
      CongruentSelf(x, m + 1);
      a, anp := x, xsLen;
    } else {
      PowBaseStep(h);
      PowEven(h);
      PowMonotone(Base, xsLen, 2 * h);
      PowDouble(h);
      a := SplitBnp1(x, m, Pow(Base, h + 1));
      LimbOf(a, h);
      TopLimb(a, m);
      anp := h + Limb(a, h);
    }
  }

  /**
   * The schoolbook path of the product mod B^h + 1: p = a * ys has anp limbs
   * once h is taken off the combined count; limb 2h is asserted zero when that
   * count exceeds h, which then drops to h, and the high limbs are subtracted
   * from the low h as in `SubBnp1`.
   */
  function FoldProduct(p: nat, anp: nat, h: nat): Option<nat>
  {
    if !(anp <= h || Limb(p, 2 * h) == 0) then None
    else
      var len := if anp > h then anp - 1 else anp;
      var m := Pow(Base, h);
      SubBnp1(p % m, (p / m) % Pow(Base, len), m, Pow(Base, h + 1))
  }

  /** The high limbs, truncated to len, are all of p / m when p has at most h + len limbs. */
  lemma FoldProductCore(p: nat, m: nat, ml: nat, mb: nat) returns (v: nat)
    requires 1 < m < mb && 0 < ml <= m && p < m * ml
    ensures SubBnp1(p % m, (p / m) % ml, m, mb) == Some(v)
    ensures v <= m && Congruent(v, p, m + 1) && (p == 0 ==> v == 0)
  {
    DivBelow(p, m, ml);
    SmallDivMod(p / m, ml);
    MulMonotone(m, ml, m);
    v := SplitBnp1(p, m, mb);
  }

  lemma FoldProductSpec(p: nat, e: nat, h: nat) returns (v: nat)
    requires h > 0 && 0 < e <= h + 1 && p < Pow(Base, h + e)
    requires e == h + 1 ==> p < Pow(Base, 2 * h)
    ensures FoldProduct(p, e, h) == Some(v)
    ensures v <= Pow(Base, h) && Congruent(v, p, Pow(Base, h) + 1) && (p == 0 ==> v == 0)
  {
    var len := if e > h then e - 1 else e;
    if e == h + 1 {
      PowBaseStep(2 * h);
      LimbOf(p, 2 * h);
      SmallDivMod(p, Pow(Base, 2 * h));
    }
    assert p < Pow(Base, h + len);
    PowAdd(Base, h, len);
    PowMonotone(Base, len, h);
    PowBaseStep(h);
    PowEven(h);
    v := FoldProductCore(p, Pow(Base, h), Pow(Base, len), Pow(Base, h + 1));
  }

  function TrailingZeros(h: nat): nat
    requires h > 0
  {
    if h % 2 == 1 then 0 else 1 + TrailingZeros(h / 2)
  }

  /**
   * The FFT order chosen for the product mod B^h + 1: none below the
   * threshold, otherwise the smaller of the tuned order `fftBestK(h)` (that is
   * `_limbs_mul_fft_best_k(h, false)`) and the number of trailing zeros of h.
   */
  function FftK(h: nat, fftBestK: nat -> nat): nat
  {
    if h < MulFftModfThreshold then 0 else Min(fftBestK(h), TrailingZeros(h))
  }

  /**
   * xp = x y modulo B^h + 1, normalised to h + 1 limbs: by the FFT when k is at
   * least `FftFirstK` (its result is taken to be the least residue), by the
   * schoolbook path when ys fits h limbs, and by the plus-one basecase otherwise.
   */
  function ProductBnp1(x: nat, xsLen: nat, y: nat, ysLen: nat, h: nat, k: nat): Option<nat>
  {
    var xa :- OperandBnp1(x, xsLen, h);
    var yb :- OperandBnp1(y, ysLen, h);
    var (a, anp) := xa;
    var (b, bnp) := yb;
    if k >= FftFirstK then Some((a * b) % (Pow(Base, h) + 1))
    else if ysLen <= h then
      if !(anp + bnp <= 2 * h + 1 && anp + bnp > h && anp >= bnp) then None
      else FoldProduct(a * y, anp + bnp - h, h)
    else if xsLen <= h then None
    else Plus1Basecase(a, b, h)
  }

  /** The least residue of a product of residues is a normalised residue of the product. */
  lemma ResidueProduct(a: nat, x: nat, b: nat, y: nat, m: nat) returns (r: nat)
    requires m > 0 && Congruent(a, x, m + 1) && Congruent(b, y, m + 1)
    ensures r == (a * b) % (m + 1)
    ensures r <= m && Congruent(r, x * y, m + 1) && (a == 0 || b == 0 ==> r == 0)
  {
    r := (a * b) % (m + 1);
    CongruentProduct(a, x, b, y, m + 1);
    CongruentResidue(a * b, m + 1);
    CongruentTrans((a * b) % (m + 1), a * b, x * y, m + 1);
    if a == 0 || b == 0 {
      SmallDivMod(0, m + 1);
    }
  }

  /**
   * On the driver's admissible operands the product mod B^h + 1 never panics,
   * is normalised (at most B^h), is congruent to x y, and is zero when an
   * operand is.
   */
  lemma ProductBnp1Spec(x: nat, xsLen: nat, y: nat, ysLen: nat, h: nat, k: nat) returns (v: nat)
    requires h > 0 && 0 < ysLen <= xsLen <= 2 * h && xsLen + ysLen > h
    requires x < Pow(Base, xsLen) && y < Pow(Base, ysLen)
    ensures ProductBnp1(x, xsLen, y, ysLen, h, k) == Some(v)
    ensures v <= Pow(Base, h) && Congruent(v, x * y, Pow(Base, h) + 1)
    ensures x == 0 || y == 0 ==> v == 0
  {
    var a, anp := OperandBnp1Spec(x, xsLen, h);
    var b, bnp := OperandBnp1Spec(y, ysLen, h);
    if k >= FftFirstK || ysLen > h {
      v := ProductBnp1ByResidue(x, xsLen, y, ysLen, h, k, a, anp, b, bnp);
    } else {
      v := ProductBnp1BySchoolbook(x, xsLen, y, ysLen, h, k, a, anp, b, bnp);
    }
  }

  lemma ProductBnp1ByResidue(x: nat, xsLen: nat, y: nat, ysLen: nat, h: nat, k: nat, a: nat, anp: nat, b: nat, bnp: nat)
      returns (v: nat)
    requires h > 0 && ysLen <= xsLen && (k >= FftFirstK || ysLen > h)
    requires OperandBnp1(x, xsLen, h) == Some((a, anp)) && OperandBnp1(y, ysLen, h) == Some((b, bnp))
    requires a <= Pow(Base, h) && b <= Pow(Base, h)
    requires Congruent(a, x, Pow(Base, h) + 1) && Congruent(b, y, Pow(Base, h) + 1)
    requires (x == 0 ==> a == 0) && (y == 0 ==> b == 0)
    ensures ProductBnp1(x, xsLen, y, ysLen, h, k) == Some(v)
    ensures v <= Pow(Base, h) && Congruent(v, x * y, Pow(Base, h) + 1) && (x == 0 || y == 0 ==> v == 0)
  {
    v := ProductBnp1Residue(x, y, a, b, h, k >= FftFirstK);
  }

  lemma ProductBnp1BySchoolbook(x: nat, xsLen: nat, y: nat, ysLen: nat, h: nat, k: nat, a: nat, anp: nat, b: nat, bnp: nat)
      returns (v: nat)
    requires h > 0 && 0 < ysLen <= h && ysLen <= xsLen <= 2 * h && xsLen + ysLen > h && k < FftFirstK
    requires OperandBnp1(x, xsLen, h) == Some((a, anp)) && OperandBnp1(y, ysLen, h) == Some((b, bnp))
    requires y < Pow(Base, ysLen) && a < Pow(Base, anp) && Congruent(a, x, Pow(Base, h) + 1) && (x == 0 ==> a == 0)
    requires xsLen <= h ==> anp == xsLen
    requires xsLen > h ==> h <= anp <= h + 1 && (anp == h + 1 ==> a == Pow(Base, h))
    requires b == y && bnp == ysLen
    ensures ProductBnp1(x, xsLen, y, ysLen, h, k) == Some(v)
    ensures v <= Pow(Base, h) && Congruent(v, x * y, Pow(Base, h) + 1) && (x == 0 || y == 0 ==> v == 0)
  {
    v := ProductBnp1Schoolbook(x, xsLen, y, ysLen, h, a, anp);
  }

  /** The FFT and plus-one basecase paths: the least residue of the reduced operands' product. */
  lemma ProductBnp1Residue(x: nat, y: nat, a: nat, b: nat, h: nat, fft: bool) returns (v: nat)
    requires h > 0 && a <= Pow(Base, h) && b <= Pow(Base, h)
    requires Congruent(a, x, Pow(Base, h) + 1) && Congruent(b, y, Pow(Base, h) + 1)
    requires (x == 0 ==> a == 0) && (y == 0 ==> b == 0)
    ensures v == (a * b) % (Pow(Base, h) + 1) && (!fft ==> Plus1Basecase(a, b, h) == Some(v))
    ensures v <= Pow(Base, h) && Congruent(v, x * y, Pow(Base, h) + 1) && (x == 0 || y == 0 ==> v == 0)
  {
    if !fft {
      Plus1BasecaseNormalized(a, b, h);
    }
    v := ResidueProduct(a, x, b, y, Pow(Base, h));
  }

  /** The schoolbook path, taken when ys fits h limbs: its asserts hold and it reduces a ys modulo B^h + 1. */
  lemma ProductBnp1Schoolbook(x: nat, xsLen: nat, y: nat, ysLen: nat, h: nat, a: nat, anp: nat) returns (v: nat)
    requires h > 0 && 0 < ysLen <= h && ysLen <= xsLen <= 2 * h && xsLen + ysLen > h
    requires y < Pow(Base, ysLen) && a < Pow(Base, anp) && Congruent(a, x, Pow(Base, h) + 1) && (x == 0 ==> a == 0)
    requires xsLen <= h ==> anp == xsLen
    requires xsLen > h ==> h <= anp <= h + 1 && (anp == h + 1 ==> a == Pow(Base, h))
    ensures anp + ysLen <= 2 * h + 1 && anp + ysLen > h && anp >= ysLen
    ensures FoldProduct(a * y, anp + ysLen - h, h) == Some(v)
    ensures v <= Pow(Base, h) && Congruent(v, x * y, Pow(Base, h) + 1) && (x == 0 || y == 0 ==> v == 0)
  {
    var m := Pow(Base, h);
    var p := NatProduct(a, y);
    v := SchoolbookBnp1(a, anp, y, ysLen, h, p);
    CongruentSelf(y, m + 1);
    CongruentProduct(a, x, y, y, m + 1);
    CongruentTrans(v, p, x * y, m + 1);
  }

  lemma ZeroProduct(x: nat, y: nat, p: nat)
    requires p == x * y
    ensures p == 0 <==> x == 0 || y == 0
  {
    if x > 0 && y > 0 {
      MulPositive(x, y);
    }
  }

  lemma NatProduct(a: nat, b: nat) returns (p: nat)
    ensures p == a * b
  {
    p := a * b;
  }

  lemma MulStrict(m: nat, y: nat, q: nat)
    requires m > 0 && y < q
    ensures m * y < m * q
  {
    MulMonotone(m, y + 1, q);
  }

  lemma SchoolbookBnp1(a: nat, anp: nat, y: nat, ysLen: nat, h: nat, p: nat) returns (v: nat)
    requires h > 0 && 0 < ysLen <= h && ysLen <= anp <= h + 1 && anp + ysLen > h && p == a * y
    requires a < Pow(Base, anp) && y < Pow(Base, ysLen) && (anp == h + 1 ==> a == Pow(Base, h))
    ensures FoldProduct(p, anp + ysLen - h, h) == Some(v)
    ensures v <= Pow(Base, h) && Congruent(v, p, Pow(Base, h) + 1) && (a == 0 || y == 0 ==> v == 0)
  {
    var e := anp + ysLen - h;
    ProductBound(a, anp, y, ysLen);
    assert h + e == anp + ysLen;
    if e == h + 1 {
      var m := Pow(Base, h);
      PowMonotone(Base, ysLen, h);
      PowDouble(h);
      MulStrict(m, y, m);
    }
    v := FoldProductSpec(p, e, h);
  }

  // ---------------------------------------------------------------------------
  // Chinese-remainder recomposition
  // ---------------------------------------------------------------------------

  /** An m-limb subtraction that wraps: a - b modulo m. */
  function WrapSub(a: int, b: int, m: nat): nat
    requires m > 0
  {
    (a - b) % m
  }

  /**
   * The low half of the result, (xm + xp) / 2 modulo B^h - 1 as a rotation:
   * xm plus the low h limbs of xp with the carries and the dropped low bit
   * collected in a small counter, shifted right one bit, the counter's low bit
   * put back as the top bit (m = B^h, so B^h / 2 is that bit) and the rest added
   * back in. Each step the source asserts becomes a `None`.
   */
  function HalfSum(xm: nat, xpLo: nat, top: nat, m: nat): Option<nat>
    requires m > 0 && xm < m && xpLo < m
  {
    var t := xm + xpLo;
    var low: nat := if t >= m then t - m else t;
    var carry := top + (if t >= m then 1 else 0) + low % 2;
    var half := m / 2;
    var shifted := low / 2;
    if carry > 2 || shifted >= half then None
    else
      var v := if carry % 2 == 1 then shifted + half else shifted;
      if carry / 2 == 0 then Some(v)
      else if v >= half || v + 1 >= m then None
      else Some(v + 1)
  }

  /**
   * For a normalised xp = xpLo + m top (top set only over a zero low part) the
   * rotation never panics and halves xm + xp modulo m - 1; it keeps 0 for two
   * zero residues and m - 1 for (m - 1, 0), and is nonzero when xp = m.
   */
  lemma HalfSumSpec(xm: nat, xpLo: nat, top: nat, m: nat) returns (v: nat)
    requires m >= 2 && m % 2 == 0 && xm < m && xpLo < m && top <= 1 && (top == 1 ==> xpLo == 0)
    ensures HalfSum(xm, xpLo, top, m) == Some(v)
    ensures v < m && Congruent(2 * v, xm + xpLo + m * top, m - 1)
    ensures xm == 0 && xpLo == 0 && top == 0 ==> v == 0
    ensures xm == m - 1 && xpLo == 0 && top == 0 ==> v == m - 1
    ensures top == 1 ==> v > 0
  {
    v := HalfSumDefined(xm, xpLo, top, m);
    var t := xm + xpLo;
    var c1 := if t >= m then 1 else 0;
    var low: nat := if t >= m then t - m else t;
    var lp := low % 2;
    HalfSumDifference(xm, xpLo, top, m, c1, low, low / 2, lp, v);
    MultipleOf(2 * v - (xm + xpLo + m * top), m - 1, (top + c1 + lp) % 2 - c1 - top);
  }

  lemma HalfSumDefined(xm: nat, xpLo: nat, top: nat, m: nat) returns (v: nat)
    requires m >= 2 && m % 2 == 0 && xm < m && xpLo < m && top <= 1 && (top == 1 ==> xpLo == 0)
    ensures HalfSum(xm, xpLo, top, m) == Some(v) && v < m
    ensures xm == 0 && xpLo == 0 && top == 0 ==> v == 0
    ensures xm == m - 1 && xpLo == 0 && top == 0 ==> v == m - 1
    ensures top == 1 ==> v > 0
  {
    var t := xm + xpLo;
    var low: nat := if t >= m then t - m else t;
    var half := m / 2;
    assert m == 2 * half && low == 2 * (low / 2) + low % 2;
    v := HalfSum(xm, xpLo, top, m).value;
  }

  lemma HalfSumDifference(xm: nat, xpLo: nat, top: nat, m: nat, c1: nat, low: nat, sh: nat, lp: nat, v: nat)
    requires m >= 2 && m % 2 == 0 && xm < m && xpLo < m && top <= 1 && (top == 1 ==> xpLo == 0)
    requires c1 == (if xm + xpLo >= m then 1 else 0) && low == (if c1 == 1 then xm + xpLo - m else xm + xpLo)
    requires low == 2 * sh + lp && lp < 2
    requires HalfSum(xm, xpLo, top, m) == Some(v)
    ensures 2 * v - (xm + xpLo + m * top) == (m - 1) * ((top + c1 + lp) % 2 - c1 - top)
  {
    var half := m / 2;
    assert m == 2 * half;
    if top == 1 {
      assert m * top == m;
    } else {
      assert m * top == 0;
    }
  }

  /**
   * The high half when xs.len() + ys.len() >= n: the h-limb difference of the
   * low half and xp's low limbs goes above the low half, and the borrow plus
   * xp's top limb is subtracted from the whole, asserted not to underflow.
   */
  function HighHalfFull(xm2: nat, xpLo: nat, top: nat, m: nat): Option<nat>
    requires m > 0
  {
    var borrow := if xm2 < xpLo then 1 else 0;
    var v := xm2 + m * WrapSub(xm2, xpLo, m);
    var carry := top + borrow;
    if v < carry then None else Some(v - carry)
  }

  /**
   * The high half when only total = h + a limbs are wanted (ma = B^a): only the
   * low a limbs of the difference go above the low half; the limbs above limb a
   * are asserted zero (unless a = h - 1, where there are none), and the final
   * decrement over total limbs borrows exactly when limb a of the difference is 1.
   */
  function HighHalfTruncated(xm2: nat, xpLo: nat, top: nat, m: nat, ma: nat, last: bool): Option<nat>
    requires m > 0 && ma > 0
  {
    var borrow := if xm2 < xpLo then 1 else 0;
    var d := WrapSub(xm2, xpLo, m);
    var carry := top + borrow;
    if !(last || d / (ma * Base) == 0) then None
    else
      var v := xm2 + m * (d % ma);
      var w := WrapSub(v, carry, m * ma);
      var digit := (d / ma) % Base;
      if v < carry then (if digit == 1 then Some(w) else None)
      else if digit == 0 then Some(w) else None
  }

  function HighHalf(xm2: nat, xpLo: nat, top: nat, h: nat, n: nat, total: nat): Option<nat>
    requires h < total
  {
    if total < n then HighHalfTruncated(xm2, xpLo, top, Pow(Base, h), Pow(Base, total - h), total == n - 1)
    else HighHalfFull(xm2, xpLo, top, Pow(Base, h))
  }

  /**
   * The full recomposition never underflows and yields
   * R = xm2 (m + 1) - m xp + carry (m^2 - 1) in [0, m^2), where xp = xpLo + m top.
   */
  lemma HighHalfFullSpec(xm2: nat, xpLo: nat, top: nat, m: nat) returns (r: nat)
    requires m >= 2 && xm2 < m && xpLo < m && top <= 1 && (top == 1 ==> xpLo == 0 && xm2 > 0)
    ensures HighHalfFull(xm2, xpLo, top, m) == Some(r)
    ensures r < m * m
    ensures r == xm2 * (m + 1) - m * (xpLo + m * top) + (top + (if xm2 < xpLo then 1 else 0)) * (m * m - 1)
  {
    var borrow := if xm2 < xpLo then 1 else 0;
    var d := WrapSub(xm2, xpLo, m);
    ModUnique(xm2 - xpLo, m, -borrow, xm2 - xpLo + borrow * m);
    FullCore(xm2, xpLo, top, m, d, borrow);
    r := HighHalfFull(xm2, xpLo, top, m).value;
  }

  lemma FullCore(xm2: nat, xpLo: nat, top: nat, m: nat, d: nat, borrow: nat)
    requires m >= 2 && xm2 < m && xpLo < m && top <= 1 && (top == 1 ==> xpLo == 0 && xm2 > 0)
    requires borrow == (if xm2 < xpLo then 1 else 0) && d == xm2 - xpLo + borrow * m
    ensures xm2 + m * d >= top + borrow
    ensures xm2 + m * d - (top + borrow) < m * m
    ensures xm2 + m * d - (top + borrow) == xm2 * (m + 1) - m * (xpLo + m * top) + (top + borrow) * (m * m - 1)
  {
    MulMonotone(m, d, m - 1);
    if borrow == 1 {
      assert m * d == m * (xm2 - xpLo) + m * m;
    } else if top == 1 {
      assert m * (xpLo + m * top) == m * m;
    } else {
      assert m * (xpLo + m * top) == m * xpLo;
    }
  }

  /** The two residues of R: xm modulo m - 1 (given 2 xm2 = xm + xp there) and xp modulo m + 1. */
  lemma CrtResidues(r: int, xm: int, xm2: int, xp: int, carry: int, m: nat)
    requires m >= 2 && r == xm2 * (m + 1) - m * xp + carry * (m * m - 1)
    requires Congruent(2 * xm2, xm + xp, m - 1)
    ensures Congruent(r, xm, m - 1) && Congruent(r, xp, m + 1)
  {
    CrtMinus(r, xm, xm2, xp, carry, m);
    CrtPlus(r, xm2, xp, carry, m);
  }

  lemma CrtMinus(r: int, xm: int, xm2: int, xp: int, carry: int, m: nat)
    requires m >= 2 && r == xm2 * (m + 1) - m * xp + carry * (m * m - 1)
    requires Congruent(2 * xm2, xm + xp, m - 1)
    ensures Congruent(r, xm, m - 1)
  {
    var q := xm2 - xp + carry * (m + 1);
    assert r - xm == (m - 1) * q + (2 * xm2 - (xm + xp));
    MultipleOf((m - 1) * q, m - 1, q);
    SumOfMultiples((m - 1) * q, 2 * xm2 - (xm + xp), m - 1);
  }

  lemma CrtPlus(r: int, xm2: int, xp: int, carry: int, m: nat)
    requires m >= 2 && r == xm2 * (m + 1) - m * xp + carry * (m * m - 1)
    ensures Congruent(r, xp, m + 1)
  {
    var q := xm2 - xp + carry * (m - 1);
    assert r - xp == (m + 1) * q;
    MultipleOf(r - xp, m + 1, q);
  }

  /** Residues modulo m - 1 and m + 1 determine the residue modulo m^2 - 1 (m even). */
  lemma CrtCombine(r: int, p: int, xm: int, xp: int, m: nat)
    requires m >= 2 && m % 2 == 0
    requires Congruent(r, xm, m - 1) && Congruent(xm, p, m - 1)
    requires Congruent(r, xp, m + 1) && Congruent(xp, p, m + 1)
    ensures Congruent(r, p, m * m - 1)
  {
    CongruentTrans(r, xm, p, m - 1);
    CongruentTrans(r, xp, p, m + 1);
    Crt(r - p, m - 1);
    assert (m - 1) * (m - 1 + 2) == m * m - 1;
  }

  /** R is zero only if xm is, or xm = m - 1 and xp = 0 forcing R = m^2 - 1. */
  lemma CrtNonZero(r: int, xm: nat, xp: nat, m: nat)
    requires m >= 2 && 0 < xm < m && xp <= m
    requires Congruent(r, xm, m - 1) && Congruent(r, xp, m + 1)
    requires xm == m - 1 && xp == 0 ==> r == m * m - 1
    ensures r != 0
  {
    SmallDivMod(0, m - 1);
    SmallDivMod(0, m + 1);
    if xm < m - 1 {
      ModEqualIffDifference(r, xm, m - 1);
      SmallDivMod(xm, m - 1);
    } else if xp > 0 {
      ModEqualIffDifference(r, xp, m + 1);
      SmallDivMod(xp, m + 1);
    } else {
      assert m * m - 1 >= 3;
    }
  }

  /**
   * When only total = h + a limbs are wanted and R (the full recomposition)
   * fits them, the truncated high half passes its asserts and yields R.
   */
  lemma HighHalfTruncatedSpec(xm2: nat, xpLo: nat, top: nat, m: nat, ma: nat, last: bool, r: nat)
    requires m >= 2 && ma > 0 && xm2 < m && xpLo < m && top <= 1
    requires HighHalfFull(xm2, xpLo, top, m) == Some(r) && r < m * ma
    ensures HighHalfTruncated(xm2, xpLo, top, m, ma, last) == Some(r)
  {
    var borrow := if xm2 < xpLo then 1 else 0;
    var d := WrapSub(xm2, xpLo, m);
    var carry := top + borrow;
    var dl, dh := DivParts(d, ma);
    TruncatedValue(xm2, m, ma, d, dl, dh, carry, r);
    DivDiv(d, ma, Base);
    SmallDivMod(dh, Base);
  }

  lemma TruncatedValue(xm2: nat, m: nat, ma: nat, d: nat, dl: nat, dh: nat, carry: nat, r: nat)
    requires m >= 2 && ma > 0 && carry <= 2 && d == dl + ma * dh
    requires xm2 + m * d >= carry && r == xm2 + m * d - carry && r < m * ma
    ensures xm2 + m * dl >= carry ==> dh == 0
    ensures xm2 + m * dl < carry ==> dh == 1
    ensures WrapSub(xm2 + m * dl, carry, m * ma) == r
  {
    var k := m * ma;
    var v := xm2 + m * dl;
    assert r == v - carry + k * dh by {
      assert m * d == m * dl + k * dh;
    }
    if v >= carry {
      TruncatedNoBorrow(v - carry, k, dh, r);
    } else {
      TruncatedBorrow(v - carry, k, dh, r);
    }
  }

  lemma TruncatedNoBorrow(s: int, k: nat, dh: nat, r: nat)
    requires k >= 2 && 0 <= s && r == s + k * dh && r < k
    ensures dh == 0 && s % k == r
  {
    DivAddMultiple(0, k, dh);
    DivBelow(k * dh, k, 1);
    SmallDivMod(s, k);
  }

  lemma TruncatedBorrow(s: int, k: nat, dh: nat, r: nat)
    requires k >= 2 && -2 <= s < 0 && r == s + k * dh && r < k
    ensures dh == 1 && s % k == r
  {
    DivAddMultiple(0, k, dh);
    DivBelow(k * dh, k, 2);
    ModUnique(s, k, -1, s + k);
  }

  lemma DivParts(d: nat, ma: nat) returns (dl: nat, dh: nat)
    requires ma > 0
    ensures dl == d % ma && dh == d / ma && d == dl + ma * dh
  {
    dl, dh := d % ma, d / ma;
  }

  // ---------------------------------------------------------------------------
  // The driver
  // ---------------------------------------------------------------------------

  /**
   * The inputs `_limbs_mul_mod_limb_width_to_n_minus_1` accepts: its asserts
   * 0 < ys.len() <= xs.len() <= n, and xs.len() + ys.len() > n / 2 whenever it
   * splits n in two.
   */
  predicate Admissible(n: nat, xsLen: nat, ysLen: nat)
  {
    0 < ysLen <= xsLen <= n
    && (n < MulModBnm1Threshold || n % 2 == 1 || xsLen + ysLen > n / 2)
  }

  /**
   * What the driver promises for operands x (xsLen limbs) and y (ysLen limbs):
   * an n-limb value congruent to x y modulo B^n - 1, equal to x y when the
   * product fits in n limbs, and zero exactly when an operand is zero (so zero
   * is never represented by B^n - 1).
   */
  predicate MulModSpec(n: nat, x: nat, xsLen: nat, y: nat, ysLen: nat, v: nat)
  {
    v < Pow(Base, n) && Congruent(v, x * y, Pow(Base, n) - 1)
    && (xsLen + ysLen <= n ==> v == x * y)
    && (v == 0 <==> x == 0 || y == 0)
  }

  /**
   * The non-recursive branch: the plain product when it fits n limbs, its
   * halves added modulo B^n - 1 when ys is shorter than n, and the minus-one
   * basecase when both operands have n limbs.
   */
  function Direct(n: nat, x: nat, xsLen: nat, y: nat, ysLen: nat): Option<nat>
  {
    if ysLen < n then
      if xsLen + ysLen <= n then Some(x * y) else FoldBnm1(x * y, n)
    else Minus1Basecase(x, y, n)
  }

  lemma DirectSpec(n: nat, x: nat, xsLen: nat, y: nat, ysLen: nat)
    requires 0 < ysLen <= xsLen <= n && x < Pow(Base, xsLen) && y < Pow(Base, ysLen)
    ensures Direct(n, x, xsLen, y, ysLen).Some?
    ensures MulModSpec(n, x, xsLen, y, ysLen, Direct(n, x, xsLen, y, ysLen).value)
  {
    if ysLen < n {
      if xsLen + ysLen <= n {
        DirectPlain(n, x, xsLen, y, ysLen);
      } else {
        DirectFold(n, x, xsLen, y, ysLen);
      }
    } else {
      DirectBasecase(n, x, xsLen, y, ysLen);
    }
  }

  lemma DirectPlain(n: nat, x: nat, xsLen: nat, y: nat, ysLen: nat)
    requires 0 < ysLen <= xsLen && xsLen + ysLen <= n && x < Pow(Base, xsLen) && y < Pow(Base, ysLen)
    ensures MulModSpec(n, x, xsLen, y, ysLen, x * y)
  {
    var p := NatProduct(x, y);
    ProductBound(x, xsLen, y, ysLen);
    PowEven(n);
    ZeroProduct(x, y, p);
    PowMonotone(Base, xsLen + ysLen, n);
    CongruentSelf(p, Pow(Base, n) - 1);
    MulModSpecOf(n, x, xsLen, y, ysLen, p, p, Pow(Base, n));
  }

  lemma DirectFold(n: nat, x: nat, xsLen: nat, y: nat, ysLen: nat)
    requires 0 < ysLen <= xsLen <= n && xsLen + ysLen > n && x < Pow(Base, xsLen) && y < Pow(Base, ysLen)
    ensures FoldBnm1(x * y, n).Some? && MulModSpec(n, x, xsLen, y, ysLen, FoldBnm1(x * y, n).value)
  {
    var p := NatProduct(x, y);
    ProductBound(x, xsLen, y, ysLen);
    ZeroProduct(x, y, p);
    PowMonotone(Base, xsLen + ysLen, 2 * n);
    FoldBnm1Spec(p, n);
    MulModSpecOf(n, x, xsLen, y, ysLen, FoldBnm1(p, n).value, p, Pow(Base, n));
  }

  lemma DirectBasecase(n: nat, x: nat, xsLen: nat, y: nat, ysLen: nat)
    requires 0 < ysLen <= xsLen <= n && n <= ysLen && x < Pow(Base, xsLen) && y < Pow(Base, ysLen)
    ensures Minus1Basecase(x, y, n).Some? && MulModSpec(n, x, xsLen, y, ysLen, Minus1Basecase(x, y, n).value)
  {
    Minus1BasecaseSpec(x, y, n);
  }

  /**
   * The operand the recursive call sees: unchanged when it has at most h
   * limbs, otherwise its two halves added modulo B^h - 1.
   */
  function Halve(x: nat, xsLen: nat, h: nat): Option<nat>
  {
    if xsLen > h then FoldBnm1(x, h) else Some(x)
  }

  lemma HalveSpec(x: nat, xsLen: nat, h: nat)
    requires h > 0 && x < Pow(Base, xsLen) && xsLen <= 2 * h
    ensures Halve(x, xsLen, h).Some?
    ensures var a := Halve(x, xsLen, h).value;
      a < Pow(Base, Min(xsLen, h)) && Congruent(a, x, Pow(Base, h) - 1) && (a == 0 <==> x == 0)
  {
    if xsLen > h {
      PowMonotone(Base, xsLen, 2 * h);
      FoldBnm1Spec(x, h);
    } else {
      PowEven(h);
      CongruentSelf(x, Pow(Base, h) - 1);
    }
  }

  /** The limbs of a normalised residue modulo m + 1: xp = xpLo + m top, top set only for xp = m. */
  lemma NormalizedSplit(xp: nat, m: nat) returns (xpLo: nat, top: nat)
    requires m > 0 && xp <= m
    ensures xpLo == xp % m && top == xp / m && xp == xpLo + m * top
    ensures xpLo < m && top <= 1 && (top == 1 ==> xpLo == 0)
  {
    TopLimb(xp, m);
    xpLo, top := xp % m, xp / m;
  }

  /** The product of an xsLen-limb and a ysLen-limb number is below B^(xsLen + ysLen) - 1. */
  lemma ProductBelowModulus(x: nat, y: nat, p: nat, q: nat)
    requires x < p && y < q && p >= 2 && q >= 2
    ensures x * y < p * q - 1
  {
    MulMonotone(x, y, q - 1);
    MulMonotone(q - 1, x, p - 1);
    assert (p - 1) * (q - 1) == p * q - p - q + 1;
  }

  /**
   * The residue recomposed from xm (mod B^h - 1) and xp = xpLo + m top
   * (mod B^h + 1): both recomposition steps succeed, and the full value R is
   * congruent to x y modulo B^n - 1 and zero exactly when an operand is.
   */
  lemma Recompose(p: nat, xm: nat, xp: nat, xpLo: nat, top: nat, m: nat) returns (xm2: nat, r: nat)
    requires m >= 2 && m % 2 == 0 && xm < m && xp <= m
    requires xp == xpLo + m * top && xpLo < m && top <= 1 && (top == 1 ==> xpLo == 0)
    requires Congruent(xm, p, m - 1) && Congruent(xp, p, m + 1)
    requires xm == 0 <==> p == 0
    requires p == 0 ==> xp == 0
    ensures HalfSum(xm, xpLo, top, m) == Some(xm2)
    ensures HighHalfFull(xm2, xpLo, top, m) == Some(r)
    ensures r < m * m && Congruent(r, p, m * m - 1) && (r == 0 <==> p == 0)
  {
    xm2 := HalfSumSpec(xm, xpLo, top, m);
    r := HighHalfFullSpec(xm2, xpLo, top, m);
    var carry := top + (if xm2 < xpLo then 1 else 0);
    CrtResidues(r, xm, xm2, xp, carry, m);
    CrtCombine(r, p, xm, xp, m);
    RecomposeZero(p, xm, xp, xpLo, top, m, xm2, r);
  }

  lemma RecomposeZero(p: nat, xm: nat, xp: nat, xpLo: nat, top: nat, m: nat, xm2: nat, r: int)
    requires m >= 2 && xm < m && xp <= m
    requires xp == xpLo + m * top && xpLo < m && top <= 1
    requires xm == 0 <==> p == 0
    requires p == 0 ==> xp == 0
    requires xm == 0 && xpLo == 0 && top == 0 ==> xm2 == 0
    requires xm == m - 1 && xpLo == 0 && top == 0 ==> xm2 == m - 1
    requires r == xm2 * (m + 1) - m * (xpLo + m * top) + (top + (if xm2 < xpLo then 1 else 0)) * (m * m - 1)
    requires Congruent(r, xm, m - 1) && Congruent(r, xp, m + 1)
    ensures r == 0 <==> p == 0
  {
    if p != 0 {
      CrtNonZero(r, xm, xp, m);
    }
  }

  /** B^h, and B^n - 1 = (B^h)^2 - 1 for n = 2h. */
  lemma Moduli(h: nat) returns (m: nat, nm: nat)
    requires h > 0
    ensures m == Pow(Base, h) && nm == m * m - 1 && Pow(Base, 2 * h) == m * m
    ensures m >= Base && m % 2 == 0
  {
    PowEven(h);
    PowDouble(h);
    m := Pow(Base, h);
    nm := m * m - 1;
  }

  /** When the product fits total < n limbs the recomposed value is the product and the truncated high half yields it. */
  lemma TruncatedResult(x: nat, xsLen: nat, y: nat, ysLen: nat, h: nat, p: nat, xm2: nat, xpLo: nat, top: nat, r: nat, m: nat, nm: nat)
    requires h > 0 && h < xsLen + ysLen < 2 * h && p == x * y
    requires m == Pow(Base, h) && nm == m * m - 1 && Pow(Base, 2 * h) == m * m
    requires x < Pow(Base, xsLen) && y < Pow(Base, ysLen)
    requires xm2 < m && xpLo < m && top <= 1
    requires HighHalfFull(xm2, xpLo, top, m) == Some(r)
    requires r < m * m && Congruent(r, p, nm) && (r == 0 <==> p == 0)
    ensures r == p
    ensures HighHalfTruncated(xm2, xpLo, top, m, Pow(Base, xsLen + ysLen - h), xsLen + ysLen == 2 * h - 1) == Some(r)
  {
    var total := xsLen + ysLen;
    ProductBound(x, xsLen, y, ysLen);
    PowMonotone(Base, total, 2 * h - 1);
    PowBaseStep(2 * h - 1);
    EqualBelow(r, p, nm);
    PowAdd(Base, h, total - h);
    PowEven(h);
    HighHalfTruncatedSpec(xm2, xpLo, top, m, Pow(Base, total - h), total == 2 * h - 1, r);
  }

  /** When the operands have n limbs between them the recomposed value is the product itself. */
  lemma ExactResult(x: nat, xsLen: nat, y: nat, ysLen: nat, p: nat, r: nat, nm: nat)
    requires 0 < ysLen && 0 < xsLen && p == x * y && nm == Pow(Base, xsLen + ysLen) - 1
    requires x < Pow(Base, xsLen) && y < Pow(Base, ysLen)
    requires r <= nm && Congruent(r, p, nm) && (p == 0 ==> r == 0)
    ensures r == p
  {
    PowEven(xsLen);
    PowEven(ysLen);
    ProductBelowModulus(x, y, Pow(Base, xsLen), Pow(Base, ysLen));
    PowAdd(Base, xsLen, ysLen);
    EqualBelow(r, p, nm);
  }

  /**
   * The recomposition of xm (mod B^h - 1) and xp (mod B^h + 1): the rotation
   * giving the low half, then the high half over total limbs.
   */
  function Recombine(xm: nat, xp: nat, h: nat, n: nat, total: nat): Option<nat>
    requires xm < Pow(Base, h) && h < total
  {
    var m := Pow(Base, h);
    match HalfSum(xm, xp % m, Limb(xp, h), m)
    case None => None
    case Some(xm2) => HighHalf(xm2, xp % m, Limb(xp, h), h, n, total)
  }

  lemma RecombineSpec(x: nat, xsLen: nat, y: nat, ysLen: nat, h: nat, xm: nat, xp: nat, p: nat, m: nat, nm: nat)
      returns (r: nat)
    requires h > 0 && 0 < ysLen <= xsLen <= 2 * h && xsLen + ysLen > h && p == x * y
    requires m == Pow(Base, h) && nm == m * m - 1 && Pow(Base, 2 * h) == m * m && m >= Base && m % 2 == 0
    requires x < Pow(Base, xsLen) && y < Pow(Base, ysLen)
    requires xm < m && xp <= m && Congruent(xm, p, m - 1) && Congruent(xp, p, m + 1)
    requires xm == 0 <==> p == 0
    requires p == 0 ==> xp == 0
    ensures Recombine(xm, xp, h, 2 * h, xsLen + ysLen) == Some(r)
    ensures r < m * m && Congruent(r, p, nm) && (r == 0 <==> p == 0)
    ensures xsLen + ysLen <= 2 * h ==> r == p
  {
    var total := xsLen + ysLen;
    var xpLo, top := NormalizedSplit(xp, m);
    PowBaseStep(h);
    LimbOf(xp, h);
    var xm2, r0 := Recompose(p, xm, xp, xpLo, top, m);
    r := r0;
    if total < 2 * h {
      TruncatedResult(x, xsLen, y, ysLen, h, p, xm2, xpLo, top, r, m, nm);
    } else if total == 2 * h {
      ExactResult(x, xsLen, y, ysLen, p, r, nm);
    }
  }

  /**
   * One level of the recursion: given the recursive result xm for the halved
   * operands, the product mod B^h + 1 and the recomposition succeed and meet
   * the driver's promise for n.
   */
  lemma RecursiveStep(n: nat, x: nat, xsLen: nat, y: nat, ysLen: nat, a: nat, b: nat, xm: nat, k: nat)
    requires n >= 2 && n % 2 == 0 && 0 < ysLen <= xsLen <= n && xsLen + ysLen > n / 2
    requires x < Pow(Base, xsLen) && y < Pow(Base, ysLen)
    requires Congruent(a, x, Pow(Base, n / 2) - 1) && (a == 0 <==> x == 0)
    requires Congruent(b, y, Pow(Base, n / 2) - 1) && (b == 0 <==> y == 0)
    requires MulModSpec(n / 2, a, Min(xsLen, n / 2), b, Min(ysLen, n / 2), xm)
    ensures ProductBnp1(x, xsLen, y, ysLen, n / 2, k).Some?
    ensures var xp := ProductBnp1(x, xsLen, y, ysLen, n / 2, k).value;
      Recombine(xm, xp, n / 2, n, xsLen + ysLen).Some?
      && MulModSpec(n, x, xsLen, y, ysLen, Recombine(xm, xp, n / 2, n, xsLen + ysLen).value)
  {
    var h := n / 2;
    var m, nm := Moduli(h);
    var xp := ProductBnp1Spec(x, xsLen, y, ysLen, h, k);
    var p := NatProduct(x, y);
    ZeroProduct(x, y, p);
    assert xm < m && Congruent(xm, p, m - 1) && (xm == 0 <==> p == 0) by {
      assert xm < m && Congruent(xm, a * b, m - 1) && (xm == 0 <==> a == 0 || b == 0);
      HalvedResidue(x, y, a, b, xm, p, m);
    }
    var r := RecombineSpec(x, xsLen, y, ysLen, h, xm, xp, p, m, nm);
    assert n == 2 * h;
    MulModSpecOf(n, x, xsLen, y, ysLen, r, p, m * m);
  }

  /** The recursive result on the halved operands is x y modulo m - 1, zero exactly when x y is. */
  lemma HalvedResidue(x: nat, y: nat, a: nat, b: nat, xm: nat, p: nat, m: nat)
    requires m >= 2 && p == x * y
    requires Congruent(a, x, m - 1) && (a == 0 <==> x == 0) && Congruent(b, y, m - 1) && (b == 0 <==> y == 0)
    requires Congruent(xm, a * b, m - 1) && (xm == 0 <==> a == 0 || b == 0)
    ensures Congruent(xm, p, m - 1) && (xm == 0 <==> p == 0)
  {
    CongruentProduct(a, x, b, y, m - 1);
    CongruentTrans(xm, a * b, p, m - 1);
    ZeroProduct(x, y, p);
  }

  lemma MulModSpecOf(n: nat, x: nat, xsLen: nat, y: nat, ysLen: nat, r: nat, p: nat, mn: nat)
    requires mn == Pow(Base, n) && p == x * y && r < mn && Congruent(r, p, mn - 1)
    requires (xsLen + ysLen <= n ==> r == p) && (r == 0 <==> x == 0 || y == 0)
    ensures MulModSpec(n, x, xsLen, y, ysLen, r)
  {
  }

  /**
   * `_limbs_mul_mod_limb_width_to_n_minus_1`: x y modulo B^n - 1 for an
   * xsLen-limb x and a ysLen-limb y. Small or odd n is handled directly;
   * otherwise, with h = n / 2, the product is computed modulo B^h - 1 by
   * recursion on the halved operands and modulo B^h + 1 by `ProductBnp1`, and
   * the two are recombined. `fftBestK` stands for `_limbs_mul_fft_best_k`.
   */
  function MulModBnm1(n: nat, x: nat, xsLen: nat, y: nat, ysLen: nat, fftBestK: nat -> nat): (r: Option<nat>)
    requires x < Pow(Base, xsLen) && y < Pow(Base, ysLen)
    ensures r.Some? <==> Admissible(n, xsLen, ysLen)
    ensures r.Some? ==> MulModSpec(n, x, xsLen, y, ysLen, r.value)
    decreases n
  {
    if ysLen == 0 || ysLen > xsLen || xsLen > n then None
    else if n < MulModBnm1Threshold || n % 2 == 1 then
      DirectSpec(n, x, xsLen, y, ysLen);
      Direct(n, x, xsLen, y, ysLen)
    else
      var h := n / 2;
      if xsLen + ysLen <= h then None
      else
        HalveSpec(x, xsLen, h);
        HalveSpec(y, ysLen, h);
        match Halve(x, xsLen, h)
        case None => None
        case Some(a) =>
          match Halve(y, ysLen, h)
          case None => None
          case Some(b) =>
            match MulModBnm1(h, a, Min(xsLen, h), b, Min(ysLen, h), fftBestK)
            case None => None
            case Some(xm) =>
              var k := FftK(h, fftBestK);
              RecursiveStep(n, x, xsLen, y, ysLen, a, b, xm, k);
              match ProductBnp1(x, xsLen, y, ysLen, h, k)
              case None => None
              case Some(xp) => Recombine(xm, xp, h, n, xsLen + ysLen)
  }
}
