/**
 * Facts about Euclidean remainders, powers of two and limb prefixes that the
 * limb-scan and Toom models share.
 */
module Modular {
  import opened Limbs

  /** Adding a multiple of m does not change the remainder modulo m. */
  lemma ModAddMultiple(a: int, m: nat, k: int)
    requires m > 0
    ensures (a + m * k) % m == a % m
  {
    ModUnique(a, m, a / m, a % m);
    assert a + m * k == (a / m + k) * m + a % m;
    ModUnique(a + m * k, m, a / m + k, a % m);
  }

  /** Equal remainders are a remainder-free difference. */
  lemma ModEqualIffDifference(a: int, b: int, m: nat)
    requires m > 0
    ensures a % m == b % m <==> (a - b) % m == 0
  {
    ModUnique(a, m, a / m, a % m);
    ModUnique(b, m, b / m, b % m);
    if a % m == b % m {
      assert a - b == (a / m - b / m) * m;
      ModUnique(a - b, m, a / m - b / m, 0);
    }
    if (a - b) % m == 0 {
      var q := (a - b) / m;
      ModUnique(a - b, m, q, 0);
      assert a == (b / m + q) * m + b % m;
      ModUnique(a, m, b / m + q, b % m);
    }
  }

  /** A number and its negation are divisible by the same moduli. */
  lemma ModNegate(a: int, m: nat)
    requires m > 0
    ensures a % m == 0 <==> (-a) % m == 0
  {
    if a % m == 0 {
      ModUnique(a, m, a / m, 0);
      assert -a == (-(a / m)) * m;
      ModUnique(-a, m, -(a / m), 0);
    }
    if (-a) % m == 0 {
      ModUnique(-a, m, (-a) / m, 0);
      assert a == (-((-a) / m)) * m;
      ModUnique(a, m, -((-a) / m), 0);
    }
  }

  /** Divisibility by a product implies divisibility by each factor. */
  lemma DividesFactor(z: int, m: nat, k: nat)
    requires m > 0 && k > 0
    requires z % (m * k) == 0
    ensures z % m == 0
  {
    var q := z / (m * k);
    ModUnique(z, m * k, q, 0);
    assert z == (k * q) * m;
    ModUnique(z, m, k * q, 0);
  }

  /** Scaling both a number and a modulus by p > 0 preserves divisibility. */
  lemma ScaledDivides(a: int, p: nat, q: nat)
    requires p > 0 && q > 0
    ensures (p * a) % (p * q) == 0 <==> a % q == 0
  {
    if a % q == 0 {
      ScaleUp(a, p, q, a / q);
    }
    if (p * a) % (p * q) == 0 {
      ScaleDown(a, p, q, (p * a) / (p * q));
    }
  }

  lemma ScaleUp(a: int, p: nat, q: nat, k: int)
    requires p > 0 && q > 0 && a % q == 0 && k == a / q
    ensures (p * a) % (p * q) == 0
  {
    ModUnique(a, q, k, 0);
    assert p * a == k * (p * q);
    ModUnique(p * a, p * q, k, 0);
  }

  lemma ScaleDown(a: int, p: nat, q: nat, k: int)
    requires p > 0 && q > 0 && (p * a) % (p * q) == 0 && k == (p * a) / (p * q)
    ensures a % q == 0
  {
    ModUnique(p * a, p * q, k, 0);
    assert p * (a - q * k) == 0;
    assert a == k * q;
    ModUnique(a, q, k, 0);
  }

  /** Adding two numbers split at the same weight m adds their halves. */
  lemma SumSplit(a: int, b: int, la: int, lb: int, ha: int, hb: int, m: int)
    requires a == la + m * ha && b == lb + m * hb
    ensures a + b == (la + lb) + m * (ha + hb)
  {
  }

  lemma MulPositive(a: int, b: int)
    requires a > 0 && b > 0
    ensures a * b > 0
  {
  }

  /** m * a + (m * b) * h = m * (a + b * h). */
  lemma FactorOut(total: int, m: int, a: int, b: int, h: int)
    requires total == m * a + (m * b) * h
    ensures total == m * (a + b * h)
  {
  }

  /** A value strictly between 0 and m is not divisible by m. */
  lemma SmallNotDivisible(a: int, m: nat)
    requires 0 < a < m
    ensures a % m != 0
  {
    ModUnique(a, m, 0, a);
  }

  /** B^m = 2^(32 m). */
  lemma {:induction false} BasePow(m: nat)
    ensures Pow(Base, m) == Pow2(Width * m)
  {
    if m > 0 {
      BasePow(m - 1);
      BaseIsPow2();
      PowAdd(2, Width, Width * (m - 1));
      assert Width * m == Width + Width * (m - 1);
    }
  }

  /** 2^pow splits as B^j * 2^(pow - 32 j) once pow >= 32 j. */
  lemma SplitPow2(pow: nat, j: nat)
    requires Width * j <= pow
    ensures Pow2(pow) == Pow(Base, j) * Pow2(pow - Width * j)
  {
    BasePow(j);
    PowAdd(2, Width * j, pow - Width * j);
  }

  /** B = 2^k * 2^(32 - k). */
  lemma SplitBase(k: nat)
    requires k <= Width
    ensures Base == Pow2(k) * Pow2(Width - k)
  {
    BaseIsPow2();
    PowAdd(2, k, Width - k);
  }

  /** 2^(32 i + k) = B^i * 2^k. */
  lemma SplitPow2Low(i: nat, k: nat)
    ensures Pow2(Width * i + k) == Pow(Base, i) * Pow2(k)
  {
    BasePow(i);
    PowAdd(2, Width * i, k);
  }

  /** B^(j+1) = B^j * B. */
  lemma PowBaseStep(j: nat)
    ensures Pow(Base, j + 1) == Pow(Base, j) * Base
  {
  }

  /** Appending one limb to a prefix adds it at weight B^j. */
  lemma PrefixStep(s: seq<nat>, j: nat)
    requires j < |s|
    ensures Value(s[..j + 1]) == Value(s[..j]) + Pow(Base, j) * s[j]
  {
    assert s[..j + 1] == s[..j] + [s[j]];
    ValueAppend(s[..j], [s[j]]);
    assert Value([s[j]]) == s[j] + Base * Value([]);
  }

  function Min(a: nat, b: nat): nat { if a <= b then a else b }

  /** The low j limbs of s, reading missing limbs as zero. */
  function Low(s: seq<nat>, j: nat): nat { Value(s[..Min(j, |s|)]) }

  /** The limbs of s from j on, reading missing limbs as zero. */
  function High(s: seq<nat>, j: nat): nat { if j <= |s| then Value(s[j..]) else 0 }

  lemma LowHigh(s: seq<nat>, j: nat)
    ensures Value(s) == Low(s, j) + Pow(Base, j) * High(s, j)
  {
    if j <= |s| {
      ValueSplit(s, j);
    } else {
      assert s[..|s|] == s;
    }
  }

  /** Low(s, j + 1) adds limb j (zero past the end) at weight B^j. */
  lemma LowStep(s: seq<nat>, j: nat)
    ensures Low(s, j + 1) == Low(s, j) + Pow(Base, j) * (if j < |s| then s[j] else 0)
  {
    if j < |s| {
      PrefixStep(s, j);
    }
  }

  /** The non-empty slices whose most significant limb is nonzero: the normalized limbs of a positive Natural. */
  predicate Normalized(s: seq<nat>) { |s| > 0 && s[|s| - 1] != 0 }

  /** A normalized slice denotes a positive number. */
  lemma NormalizedPositive(s: seq<nat>)
    requires Normalized(s)
    ensures Value(s) > 0
  {
    ValueZero(s);
  }

  /** (a + d k) / d = a / d + k: adding whole multiples of the divisor moves the quotient only. */
  lemma DivAddMultiple(a: nat, d: nat, k: nat)
    requires d > 0
    ensures (a + d * k) / d == a / d + k && (a + d * k) % d == a % d
  {
    ModUnique(a + d * k, d, a / d + k, a % d);
  }

  /** A value below its divisor is its own remainder. */
  lemma SmallDivMod(a: int, m: nat)
    requires 0 <= a < m
    ensures a / m == 0 && a % m == a
  {
    ModUnique(a, m, 0, a);
  }

  /** Multiplying by a natural keeps the order. */
  lemma MulMonotone(p: nat, a: int, b: int)
    requires a <= b
    ensures p * a <= p * b
  {
    assert p * b - p * a == p * (b - a);
  }

  /** A product with a factor below m, divided by m, stays below the other factor. */
  lemma MulDivBelow(y: nat, k: nat, m: nat)
    requires y < m && k > 0
    ensures (y * k) / m < k
  {
    MulMonotone(k, y, m);
    DivBelow(y * k, m, k);
  }

  /** The floor of r / p reaches k exactly when r reaches p k. */
  lemma FloorDivAtLeast(r: nat, p: nat, k: nat)
    requires p > 0
    ensures r / p >= k <==> r >= p * k
  {
    var q := r / p;
    assert r == p * q + r % p;
    if q >= k {
      MulMonotone(p, k, q);
    } else {
      MulMonotone(p, q + 1, k);
    }
  }

  /** Quotient bound: r < p q gives r / p < q. */
  lemma DivBelow(r: nat, p: nat, q: nat)
    requires p > 0 && r < p * q
    ensures r / p < q
  {
    FloorDivAtLeast(r, p, q);
  }
}
