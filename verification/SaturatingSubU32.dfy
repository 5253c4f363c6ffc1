/**
 * Saturating subtraction between a `Natural` and a `u32`, in both orders and
 * in place: the difference when it is non-negative, zero otherwise.
 */
module SaturatingSubU32 {
  import opened Limbs

  predicate IsU32(v: int) { 0 <= v < Base }

  /** `checked_sub`: the difference, or nothing when it would be negative. */
  function CheckedSub(x: nat, y: nat): (r: Option<nat>)
    ensures r.Some? <==> y <= x
    ensures r.Some? ==> r.value + y == x
  {
    if y <= x then Some(x - y) else None
  }

  /**
   * Reference reading of saturating subtraction: the least natural d with
   * x <= d + y.
   */
  predicate Covers(x: nat, y: nat, e: nat) { x <= e + y }

  predicate IsLeastCover(x: nat, y: nat, d: nat)
  {
    Covers(x, y, d) && forall e: nat :: Covers(x, y, e) ==> d <= e
  }

  /** `Natural::saturating_sub(u32)`, by value and by reference. */
  function NaturalSaturatingSub(x: nat, y: nat): (r: nat)
    requires IsU32(y)
    ensures y <= x ==> r + y == x
    ensures x < y ==> r == 0
  {
    match CheckedSub(x, y)
    case Some(d) => d
    case None => 0
  }

  /** `sub_assign_u32_no_panic`: subtracts in place and reports whether it underflowed. */
  function SubAssignNoPanic(x: nat, y: nat): (r: (nat, bool))
    requires IsU32(y)
    ensures r.1 <==> x < y
    ensures !r.1 ==> r.0 + y == x
  {
    if x < y then (0, true) else (x - y, false)
  }

  /** `Natural::saturating_sub_assign(u32)`: the updated value of the Natural. */
  method NaturalSaturatingSubAssign(x: nat, y: nat) returns (after: nat)
    requires IsU32(y)
    ensures after == NaturalSaturatingSub(x, y)
    ensures IsLeastCover(x, y, after)
  {
    var (d, borrow) := SubAssignNoPanic(x, y);
    after := d;
    if borrow {
      after := 0;
    }
  }

  /** `u32::saturating_sub(Natural)`, by value and by reference. */
  function U32SaturatingSub(x: nat, y: nat): (r: nat)
    requires IsU32(x)
    ensures IsU32(r)
    ensures y <= x ==> r + y == x
    ensures x < y ==> r == 0
  {
    match CheckedSub(x, y)
    case Some(d) => d
    case None => 0
  }

  /** `u32::saturating_sub_assign(Natural)`, by value and by reference: the updated `u32`. */
  method U32SaturatingSubAssign(x: nat, y: nat) returns (after: nat)
    requires IsU32(x)
    ensures IsU32(after)
    ensures after == U32SaturatingSub(x, y)
    ensures IsLeastCover(x, y, after)
  {
    after := U32SaturatingSub(x, y);
  }

  /** Both saturating subtractions compute the least cover of x by y. */
  lemma SaturatingSubIsLeastCover(x: nat, y: nat)
    requires IsU32(y)
    ensures IsLeastCover(x, y, NaturalSaturatingSub(x, y))
    ensures IsU32(x) ==> U32SaturatingSub(x, y) == NaturalSaturatingSub(x, y)
  {
  }

  /** The documented examples, including 10^12 - 123 and the chain 15 - 1 - 2 - 3 - 4 - 10. */
  lemma SaturatingSubExamples()
    ensures NaturalSaturatingSub(123, 123) == 0
    ensures NaturalSaturatingSub(123, 0) == 123
    ensures NaturalSaturatingSub(456, 123) == 333
    ensures NaturalSaturatingSub(123, 456) == 0
    ensures NaturalSaturatingSub(1_000_000_000_000, 123) == 999_999_999_877
    ensures U32SaturatingSub(123, 123) == 0
    ensures U32SaturatingSub(123, 0) == 123
    ensures U32SaturatingSub(456, 123) == 333
    ensures U32SaturatingSub(123, 456) == 0
  {
  }

  method SaturatingSubAssignExample() returns (x: nat)
    ensures x == 0
  {
    x := NaturalSaturatingSubAssign(15, 1);
    x := NaturalSaturatingSubAssign(x, 2);
    x := NaturalSaturatingSubAssign(x, 3);
    x := NaturalSaturatingSubAssign(x, 4);
    assert x == 5;
    x := NaturalSaturatingSubAssign(x, 10);
  }
}
