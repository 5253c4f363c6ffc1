/**
 * The two-variant `Natural` of the crate: a value that fits in one limb is
 * `Small`; anything larger is `Large`, held as normalized limbs.
 */
module Naturals {
  import opened Limbs
  import opened Modular

  datatype Natural = Small(small: nat) | Large(limbs: seq<nat>)

  /**
   * `Small` holds a `u32`; `Large` holds at least two limbs, the last nonzero,
   * so every number has exactly one representation.
   */
  predicate WellFormed(n: Natural)
  {
    match n
    case Small(v) => IsLimb(v)
    case Large(ls) => AreLimbs(ls) && |ls| >= 2 && Normalized(ls)
  }

  function ToNat(n: Natural): nat
  {
    match n
    case Small(v) => v
    case Large(ls) => Value(ls)
  }

  /** The normalized little-endian limbs of v; empty for zero. */
  function LimbsOf(v: nat): (r: seq<nat>)
    ensures AreLimbs(r) && Value(r) == v
    ensures v == 0 <==> |r| == 0
    ensures v > 0 ==> Normalized(r)
    ensures v >= Base ==> |r| >= 2
    decreases v
  {
    if v == 0 then []
    else
      var lo, hi := v % Base, v / Base;
      ModUnique(v, Base, hi, lo);
      [lo] + LimbsOf(hi)
  }

  /** A normalized limb slice is the only one denoting its value. */
  lemma {:induction false} LimbsOfValue(s: seq<nat>)
    requires AreLimbs(s) && (|s| == 0 || Normalized(s))
    ensures LimbsOf(Value(s)) == s
  {
    if |s| > 0 {
      var t := s[1..];
      assert AreLimbs(t) && (|t| == 0 || Normalized(t));
      LimbsOfValue(t);
      NormalizedPositive(s);
      ModUnique(Value(s), Base, Value(t), s[0]);
      assert LimbsOf(Value(s)) == [s[0]] + LimbsOf(Value(t));
    }
  }

  /** The Natural holding v: `Small` when v fits in a limb. */
  function FromNat(v: nat): (n: Natural)
    ensures WellFormed(n) && ToNat(n) == v
  {
    if v < Base then Small(v) else Large(LimbsOf(v))
  }

  /** Every well-formed Natural is the representation of its value. */
  lemma FromNatToNat(n: Natural)
    requires WellFormed(n)
    ensures FromNat(ToNat(n)) == n
  {
    if n.Large? {
      LimbsOfValue(n.limbs);
      ValueSplit(n.limbs, |n.limbs| - 1);
      PowMonotone(Base, 1, |n.limbs| - 1);
    }
  }
}
