/**
 * `DivisibleBy` between an `Integer` and a signed limb, in both directions,
 * plus the `i32` overloads that exist when limbs are 64 bits wide (then a
 * `SignedLimb` is an `i64` and an `i32` widens to it without loss).
 */
module DivisibleBySignedLimb {
  import opened Limbs
  import opened Integers

  /** `i32` values. */
  predicate IsI32(v: int) { -0x8000_0000 <= v < 0x8000_0000 }

  /** `SignedLimb` values in the build that carries the `i32` overloads: limbs are 64 bits, so an `i64`. */
  predicate IsSignedLimb(v: int) { -0x8000_0000_0000_0000 <= v < 0x8000_0000_0000_0000 }

  /**
   * `Natural::divisible_by`: a is a multiple of b. Zero is a multiple of
   * everything, including zero; nothing else is a multiple of zero.
   */
  predicate NaturalDivisibleBy(a: nat, b: nat)
  {
    if b == 0 then a == 0 else a % b == 0
  }

  /** Independent reading of the same relation: a is k * b for some natural k. */
  lemma NaturalDivisibleByMultiple(a: nat, b: nat, k: nat)
    ensures NaturalDivisibleBy(k * b, b)
    ensures NaturalDivisibleBy(a, b) ==> a == (if b == 0 then 0 else a / b) * b
  {
    if b != 0 {
      ModUnique(k * b, b, k, 0);
      ModUnique(a, b, a / b, a % b);
    }
  }

  /** `&Integer` divisible by a `SignedLimb`: compares magnitudes. */
  function IntegerDivisibleBySignedLimb(x: Integer, y: int): (r: bool)
    requires IsSignedLimb(y)
    ensures r <==> (if y == 0 then ToInt(x) == 0 else ToInt(x) % y == 0)
  {
    SignedDivisibilityIgnoresSigns(ToInt(x), y);
    NaturalDivisibleBy(x.abs, AbsInt(y))
  }

  /** `SignedLimb` divisible by `&Integer`: compares magnitudes. */
  function SignedLimbDivisibleByInteger(x: int, y: Integer): (r: bool)
    requires IsSignedLimb(x)
    ensures r <==> (if ToInt(y) == 0 then x == 0 else x % ToInt(y) == 0)
  {
    SignedDivisibilityIgnoresSigns(x, ToInt(y));
    NaturalDivisibleBy(AbsInt(x), y.abs)
  }

  /** The `i32` overload of `&Integer` divisible by: widens to a `SignedLimb` first. */
  function IntegerDivisibleByI32(x: Integer, y: int): (r: bool)
    requires IsI32(y)
    ensures r <==> (if y == 0 then ToInt(x) == 0 else ToInt(x) % y == 0)
  {
    WidenI32(y);
    IntegerDivisibleBySignedLimb(x, y)
  }

  /** The `i32` overload of divisible by `&Integer`: widens to a `SignedLimb` first. */
  function I32DivisibleByInteger(x: int, y: Integer): (r: bool)
    requires IsI32(x)
    ensures r <==> (if ToInt(y) == 0 then x == 0 else x % ToInt(y) == 0)
  {
    WidenI32(x);
    SignedLimbDivisibleByInteger(x, y)
  }

  /** Every `i32` is a `SignedLimb` (`SignedLimb::from` is lossless). */
  lemma WidenI32(v: int)
    requires IsI32(v)
    ensures IsSignedLimb(v)
  {
  }

  lemma AbsMul(q: int, b: int)
    ensures AbsInt(q * b) == AbsInt(q) * AbsInt(b)
  {
    if q < 0 && b < 0 { assert q * b == (-q) * (-b); }
    else if q < 0 { assert q * b == -((-q) * b); }
    else if b < 0 { assert q * b == -(q * (-b)); }
  }

  /** A signed multiple of b has a magnitude that is a multiple of |b|. */
  lemma SignedToNatural(a: int, b: int)
    requires b != 0 && a % b == 0
    ensures AbsInt(a) % AbsInt(b) == 0
  {
    var q := a / b;
    ModUnique(a, b, q, a % b);
    AbsMul(q, b);
    ModUnique(AbsInt(a), AbsInt(b), AbsInt(q), 0);
  }

  /** A magnitude that is a multiple of |b| belongs to a signed multiple of b. */
  lemma NaturalToSigned(a: int, b: int)
    requires b != 0 && AbsInt(a) % AbsInt(b) == 0
    ensures a % b == 0
  {
    var k := AbsInt(a) / AbsInt(b);
    ModUnique(AbsInt(a), AbsInt(b), k, AbsInt(a) % AbsInt(b));
    var q := if (a < 0) == (b < 0) then k else -k;
    AbsMul(q, b);
    assert a == q * b by {
      if a < 0 && b < 0 { assert -a == k * -b; }
      else if a < 0 { assert -a == k * b; }
      else if b < 0 { assert a == k * -b; }
    }
    ModUnique(a, b, q, 0);
  }

  /** Divisibility of signed integers is divisibility of their magnitudes. */
  lemma SignedDivisibilityIgnoresSigns(a: int, b: int)
    ensures NaturalDivisibleBy(AbsInt(a), AbsInt(b)) <==> (if b == 0 then a == 0 else a % b == 0)
  {
    if b != 0 {
      if a % b == 0 { SignedToNatural(a, b); }
      if AbsInt(a) % AbsInt(b) == 0 { NaturalToSigned(a, b); }
    }
  }

  /** The documented examples of both directions. */
  lemma DivisibleByExamples()
    ensures IntegerDivisibleByI32(FromInt(0), 0)
    ensures !IntegerDivisibleByI32(FromInt(100), -3)
    ensures IntegerDivisibleByI32(FromInt(-102), 3)
    ensures I32DivisibleByInteger(0, FromInt(0))
    ensures !I32DivisibleByInteger(-100, FromInt(3))
    ensures I32DivisibleByInteger(102, FromInt(-3))
  {
  }
}
