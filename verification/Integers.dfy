/**
 * The sign-and-magnitude `Integer` of the crate, and the `abs` family of
 * operations on it (`abs`, `abs_ref`, `natural_abs`, `natural_abs_ref`,
 * `abs_assign`).
 */
module Integers {
  import opened Limbs

  /**
   * `sign` is true for a non-negative value; `abs` is the magnitude. A
   * well-formed Integer never carries a negative zero.
   */
  datatype Integer = Integer(sign: bool, abs: nat)

  predicate WellFormed(x: Integer) { x.abs == 0 ==> x.sign }

  /** The mathematical integer an `Integer` denotes. */
  function ToInt(x: Integer): int { if x.sign then x.abs as int else -(x.abs as int) }

  function FromInt(i: int): (x: Integer)
    ensures WellFormed(x) && ToInt(x) == i
  {
    if i >= 0 then Integer(true, i) else Integer(false, -i)
  }

  /** Well-formed Integers and mathematical integers are in one-to-one correspondence. */
  lemma FromIntToInt(x: Integer)
    requires WellFormed(x)
    ensures FromInt(ToInt(x)) == x
  {
  }

  /**
   * `abs` and `abs_ref`: the sign becomes positive and the magnitude is kept.
   * Both return the same value; only ownership of the argument differs.
   */
  function Abs(x: Integer): (r: Integer)
    ensures ToInt(r) == AbsInt(ToInt(x))
    ensures r.abs == x.abs
    ensures WellFormed(r)
  {
    x.(sign := true)
  }

  /** `natural_abs` and `natural_abs_ref`: the magnitude as a Natural. */
  function NaturalAbs(x: Integer): (r: nat)
    ensures r == AbsInt(ToInt(x))
  {
    x.abs
  }

  /** `abs_assign`: the in-place form, returning the updated value. */
  method AbsAssign(x: Integer) returns (y: Integer)
    ensures ToInt(y) == AbsInt(ToInt(x))
    ensures WellFormed(x) ==> WellFormed(y)
  {
    y := x.(sign := true);
  }

  /** Taking the absolute value twice is the same as once, and agrees with `natural_abs`. */
  lemma AbsIdempotent(x: Integer)
    ensures Abs(Abs(x)) == Abs(x)
    ensures ToInt(Abs(x)) == NaturalAbs(x)
  {
  }

  /** The documented examples: 0, 123 and -123. */
  lemma AbsExamples()
    ensures ToInt(Abs(FromInt(0))) == 0
    ensures ToInt(Abs(FromInt(123))) == 123
    ensures ToInt(Abs(FromInt(-123))) == 123
    ensures NaturalAbs(FromInt(-123)) == 123
  {
  }
}
