/**
 * Shared vocabulary of the model: 32-bit limbs, little-endian limb slices and
 * the natural numbers they denote, and the `Option` used for operations that
 * can panic or fail an `assert!`.
 */
module Limbs {

  /** Number of bits in a `Limb` (the crate is modelled with 32-bit limbs). */
  const Width: nat := 32
  /** B = 2^32, the radix of a limb slice. */
  const Base: nat := 0x1_0000_0000
  /** `Limb::MAX` = B - 1. */
  const MaxLimb: nat := 0xFFFF_FFFF

  /** `None` stands for a panic (a failed `assert!`, an `unwrap` of nothing, an index out of range). */
  datatype Option<T> = None | Some(value: T)
  {
    predicate IsFailure()
    {
      None?
    }

    function PropagateFailure<U>(): Option<U>
      requires None?
    {
      None
    }

    function Extract(): T
      requires Some?
    {
      value
    }
  }

  predicate IsLimb(x: int) { 0 <= x < Base }

  predicate AreLimbs(s: seq<nat>) { forall i :: 0 <= i < |s| ==> s[i] < Base }

  function Pow(b: nat, e: nat): (r: nat)
    ensures b > 0 ==> r > 0
  {
    if e == 0 then 1 else b * Pow(b, e - 1)
  }

  function Pow2(e: nat): (r: nat)
    ensures r > 0
  {
    Pow(2, e)
  }

  /** The natural number whose little-endian base-B digits are `s`. */
  function Value(s: seq<nat>): nat
  {
    if |s| == 0 then 0 else s[0] + Base * Value(s[1..])
  }

  lemma PowPositive(b: nat, e: nat)
    requires b > 0
    ensures Pow(b, e) > 0
  {
    if e > 0 { PowPositive(b, e - 1); }
  }

  lemma {:induction false} PowAdd(b: nat, e1: nat, e2: nat)
    ensures Pow(b, e1 + e2) == Pow(b, e1) * Pow(b, e2)
  {
    if e1 > 0 {
      PowAdd(b, e1 - 1, e2);
      assert Pow(b, e1 + e2) == b * Pow(b, e1 - 1 + e2);
    }
  }

  lemma {:induction false} PowMonotone(b: nat, e1: nat, e2: nat)
    requires b > 0 && e1 <= e2
    ensures Pow(b, e1) <= Pow(b, e2)
  {
    if e1 < e2 {
      PowMonotone(b, e1, e2 - 1);
      var p := Pow(b, e2 - 1);
      assert Pow(b, e2) == (b - 1) * p + p;
    }
  }

  lemma BaseIsPow2()
    ensures Base == Pow2(Width)
  {
    assert Pow(2, 8) == 256;
    PowAdd(2, 8, 8);
    PowAdd(2, 16, 16);
  }

  /** A limb slice of length k denotes a number below B^k. */
  lemma {:induction false} ValueBound(s: seq<nat>)
    requires AreLimbs(s)
    ensures Value(s) < Pow(Base, |s|)
  {
    if |s| > 0 {
      ValueBound(s[1..]);
      assert Value(s[1..]) + 1 <= Pow(Base, |s| - 1);
      assert Base * (Value(s[1..]) + 1) <= Base * Pow(Base, |s| - 1);
    }
  }

  /** Concatenating slices is positional addition: the high part is scaled by B^|lo|. */
  lemma {:induction false} ValueAppend(lo: seq<nat>, hi: seq<nat>)
    ensures Value(lo + hi) == Value(lo) + Pow(Base, |lo|) * Value(hi)
  {
    if |lo| > 0 {
      assert (lo + hi)[1..] == lo[1..] + hi;
      ValueAppend(lo[1..], hi);
    } else {
      assert lo + hi == hi;
    }
  }

  /** The high limbs of a slice do not affect its value modulo B^k. */
  lemma ValueSplit(s: seq<nat>, k: nat)
    requires k <= |s|
    ensures Value(s) == Value(s[..k]) + Pow(Base, k) * Value(s[k..])
  {
    assert s == s[..k] + s[k..];
    ValueAppend(s[..k], s[k..]);
  }

  /** The most significant limb decides whether a slice is zero. */
  lemma {:induction false} ValueZero(s: seq<nat>)
    ensures Value(s) == 0 <==> forall i :: 0 <= i < |s| ==> s[i] == 0
  {
    if |s| > 0 {
      ValueZero(s[1..]);
      if Value(s) == 0 {
        forall i | 0 <= i < |s| ensures s[i] == 0 {
          if i > 0 { assert s[i] == s[1..][i - 1]; }
        }
      } else if s[0] == 0 {
        var j :| 0 <= j < |s[1..]| && s[1..][j] != 0;
        assert s[j + 1] != 0;
      }
    }
  }

  function AbsInt(i: int): nat { if i < 0 then -i else i }

  lemma MulAtLeast(d: int, b: int)
    requires d != 0 && b != 0
    ensures AbsInt(d * b) >= AbsInt(b)
  {
    var ad, ab := AbsInt(d), AbsInt(b);
    assert AbsInt(d * b) == ad * ab by {
      if d < 0 && b < 0 { assert d * b == (-d) * (-b); }
      else if d < 0 { assert d * b == -((-d) * b); }
      else if b < 0 { assert d * b == -(d * (-b)); }
    }
    assert ad * ab == (ad - 1) * ab + ab;
  }

  /** Euclidean division is determined by its defining equation. */
  lemma ModUnique(a: int, b: int, q: int, r: int)
    requires b != 0 && a == q * b + r && 0 <= r < AbsInt(b)
    ensures a % b == r && a / b == q
  {
    var q0, r0 := a / b, a % b;
    assert a == q0 * b + r0;
    if q != q0 {
      assert (q - q0) * b == r0 - r;
      MulAtLeast(q - q0, b);
    }
  }

  /** Every limb is zero (`limbs_test_zero`). */
  predicate AllZero(s: seq<nat>)
  {
    forall i :: 0 <= i < |s| ==> s[i] == 0
  }

  /** The low `len` base-B digits of v, least significant first. */
  function ToLimbs(v: nat, len: nat): (r: seq<nat>)
    ensures |r| == len && AreLimbs(r)
  {
    if len == 0 then [] else [v % Base] + ToLimbs(v / Base, len - 1)
  }

  /** A number below B^len is recovered from its `len` digits. */
  lemma {:induction false} ToLimbsValue(v: nat, len: nat)
    requires v < Pow(Base, len)
    ensures Value(ToLimbs(v, len)) == v
  {
    if len > 0 {
      var r := ToLimbs(v, len);
      assert r[1..] == ToLimbs(v / Base, len - 1);
      assert v / Base < Pow(Base, len - 1);
      ToLimbsValue(v / Base, len - 1);
    }
  }
}
