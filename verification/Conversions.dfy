/**
 * Conversions between primitive integer types: `checked_from`,
 * `wrapping_from`, `saturating_from`, `overflowing_from` and
 * `convertible_from`, in the three families the crate generates them in
 * (identity, lossless, lossy), and the table of which family each ordered
 * pair of types gets.
 */
module Conversions {
  import opened Limbs

  /** A primitive integer type: its bit width and whether it is signed. */
  datatype IntType = IntType(width: nat, signed: bool)

  predicate ValidType(t: IntType) { t.width > 0 }

  /** 2^width, the number of values of the type. */
  function Modulus(t: IntType): nat { Pow2(t.width) }

  /** 2^(width-1), the number of negative values of a signed type. */
  function Half(t: IntType): nat requires ValidType(t) { Pow2(t.width - 1) }

  /** `MIN`. */
  function MinValue(t: IntType): int requires ValidType(t)
  {
    if t.signed then -(Half(t) as int) else 0
  }

  /** `MAX`. */
  function MaxValue(t: IntType): int requires ValidType(t)
  {
    if t.signed then Half(t) - 1 else Modulus(t) - 1
  }

  predicate InRange(t: IntType, v: int) requires ValidType(t)
  {
    MinValue(t) <= v <= MaxValue(t)
  }

  lemma TwoHalves(t: IntType)
    requires ValidType(t)
    ensures Modulus(t) == 2 * Half(t)
    ensures MinValue(t) <= 0 <= MaxValue(t)
    ensures MaxValue(t) - MinValue(t) == Modulus(t) - 1
  {
    assert Pow2(t.width) == 2 * Pow2(t.width - 1);
  }

  /**
   * `value as T` between primitive integers: keep the low `width` bits and
   * read them as two's complement when the target is signed.
   */
  function Wrap(t: IntType, v: int): (r: int)
    requires ValidType(t)
    ensures InRange(t, r)
    ensures (r - v) % Modulus(t) == 0
    ensures InRange(t, v) ==> r == v
  {
    var low := v % Modulus(t);
    var r := if t.signed && low >= Half(t) then low - Modulus(t) else low;
    WrapFacts(t, v, low, r);
    r
  }

  lemma WrapFacts(t: IntType, v: int, low: int, r: int)
    requires ValidType(t) && low == v % Modulus(t)
    requires r == if t.signed && low >= Half(t) then low - Modulus(t) else low
    ensures InRange(t, r)
    ensures (r - v) % Modulus(t) == 0
    ensures InRange(t, v) ==> r == v
  {
    TwoHalves(t);
    var m := Modulus(t);
    ModUnique(v, m, v / m, low);
    ModUnique(r - v, m, if r == low then -(v / m) else -(v / m) - 1, 0);
    if InRange(t, v) {
      if v >= 0 {
        ModUnique(v, m, 0, v);
      } else {
        ModUnique(v, m, -1, v + m);
      }
    }
  }

  /** Only one value of a type is congruent to v modulo 2^width: wrapping is the unique such value. */
  lemma WrapUnique(t: IntType, v: int, x: int)
    requires ValidType(t) && InRange(t, x) && (x - v) % Modulus(t) == 0
    ensures x == Wrap(t, v)
  {
    TwoHalves(t);
    CongruentInWindow(x, Wrap(t, v), v, MinValue(t), Modulus(t));
  }

  /** Two numbers in a window of width m that are congruent to v modulo m are equal. */
  lemma CongruentInWindow(x: int, r: int, v: int, lo: int, m: nat)
    requires m > 0 && lo <= x < lo + m && lo <= r < lo + m
    requires (x - v) % m == 0 && (r - v) % m == 0
    ensures x == r
  {
    var q1, q2 := (x - v) / m, (r - v) / m;
    ModUnique(x - v, m, q1, 0);
    ModUnique(r - v, m, q2, 0);
    assert x - r == (q1 - q2) * m;
    if q1 != q2 {
      MulAtLeast(q1 - q2, m);
    }
  }

  /** Every value of a is a value of b. */
  predicate Contains(a: IntType, b: IntType)
    requires ValidType(a) && ValidType(b)
  {
    MinValue(b) <= MinValue(a) && MaxValue(a) <= MaxValue(b)
  }

  /** How a pair of types gets its conversions: by `identity_conversion!`, `lossless_conversion!` or `lossy_conversion!`. */
  datatype Family = Identity | Lossless | Lossy

  /** The macro is only instantiated for pairs where its bodies are correct. */
  predicate Applicable(f: Family, a: IntType, b: IntType)
    requires ValidType(a) && ValidType(b)
  {
    match f
    case Identity => a == b
    case Lossless => Contains(a, b)
    case Lossy => true
  }

  /**
   * `_checked_from_lossy`: wrap, then accept the result only if it has the
   * sign of the input and wraps back to it.
   */
  function CheckedFromLossy(a: IntType, b: IntType, v: int): (r: Option<int>)
    requires ValidType(a) && ValidType(b) && InRange(a, v)
    ensures r.Some? <==> InRange(b, v)
    ensures r.Some? ==> r.value == v
  {
    var result := Wrap(b, v);
    LossyTestDecides(a, b, v);
    if (result >= 0) == (v >= 0) && Wrap(a, result) == v then Some(result) else None
  }

  /**
   * The test of the lossy family: the wrapped value keeps the input's sign
   * and wraps back to the input exactly when the input fits in b.
   */
  lemma LossyTestDecides(a: IntType, b: IntType, v: int)
    requires ValidType(a) && ValidType(b) && InRange(a, v)
    ensures ((Wrap(b, v) >= 0) == (v >= 0) && Wrap(a, Wrap(b, v)) == v) <==> InRange(b, v)
  {
    TwoHalves(a);
    TwoHalves(b);
  }

  /**
   * `_saturating_from_lossy`: if b's MAX is a value of a and v is at least
   * that, MAX; likewise for MIN; otherwise the wrapped value (which is then v).
   */
  function SaturatingFromLossy(a: IntType, b: IntType, v: int): (r: int)
    requires ValidType(a) && ValidType(b) && InRange(a, v)
    ensures v > MaxValue(b) ==> r == MaxValue(b)
    ensures v < MinValue(b) ==> r == MinValue(b)
    ensures InRange(b, v) ==> r == v
  {
    TwoHalves(a);
    TwoHalves(b);
    var maxInA := CheckedFromLossy(b, a, MaxValue(b));
    var minInA := CheckedFromLossy(b, a, MinValue(b));
    if maxInA.Some? && v >= maxInA.value then MaxValue(b)
    else if minInA.Some? && v <= minInA.value then MinValue(b)
    else Wrap(b, v)
  }

  /** `_overflowing_from_lossy`: the wrapped value, and whether the lossy test failed. */
  function OverflowingFromLossy(a: IntType, b: IntType, v: int): (r: (int, bool))
    requires ValidType(a) && ValidType(b) && InRange(a, v)
    ensures r.1 <==> !InRange(b, v)
    ensures !r.1 ==> r.0 == v
  {
    var result := Wrap(b, v);
    LossyTestDecides(a, b, v);
    (result, (result >= 0) != (v >= 0) || Wrap(a, result) != v)
  }

  /** `_convertible_from_lossy`: the lossy test alone. */
  function ConvertibleFromLossy(a: IntType, b: IntType, v: int): (r: bool)
    requires ValidType(a) && ValidType(b) && InRange(a, v)
    ensures r <==> InRange(b, v)
  {
    var result := Wrap(b, v);
    LossyTestDecides(a, b, v);
    (result >= 0) == (v >= 0) && Wrap(a, result) == v
  }

  /** `T::checked_from`: the value itself when it fits, `None` otherwise. */
  function CheckedFrom(f: Family, a: IntType, b: IntType, v: int): (r: Option<int>)
    requires ValidType(a) && ValidType(b) && Applicable(f, a, b) && InRange(a, v)
    ensures r.Some? <==> InRange(b, v)
    ensures r.Some? ==> r.value == v
  {
    match f
    case Identity => Some(v)
    case Lossless => Some(v)
    case Lossy => CheckedFromLossy(a, b, v)
  }

  /** `T::wrapping_from`: the value of b congruent to v modulo 2^width. */
  function WrappingFrom(f: Family, a: IntType, b: IntType, v: int): (r: int)
    requires ValidType(a) && ValidType(b) && Applicable(f, a, b) && InRange(a, v)
    ensures InRange(b, r) && (r - v) % Modulus(b) == 0
  {
    match f
    case Identity => v
    case Lossless => v
    case Lossy => Wrap(b, v)
  }

  /** `T::saturating_from`: v clamped to b's range. */
  function SaturatingFrom(f: Family, a: IntType, b: IntType, v: int): (r: int)
    requires ValidType(a) && ValidType(b) && Applicable(f, a, b) && InRange(a, v)
    ensures v > MaxValue(b) ==> r == MaxValue(b)
    ensures v < MinValue(b) ==> r == MinValue(b)
    ensures InRange(b, v) ==> r == v
  {
    match f
    case Identity => v
    case Lossless => v
    case Lossy => SaturatingFromLossy(a, b, v)
  }

  /** `T::overflowing_from`: the wrapped value and whether it differs from v. */
  function OverflowingFrom(f: Family, a: IntType, b: IntType, v: int): (r: (int, bool))
    requires ValidType(a) && ValidType(b) && Applicable(f, a, b) && InRange(a, v)
    ensures r.1 <==> !InRange(b, v)
    ensures InRange(b, r.0) && (r.0 - v) % Modulus(b) == 0
  {
    match f
    case Identity => (v, false)
    case Lossless => (v, false)
    case Lossy => OverflowingFromLossy(a, b, v)
  }

  /** `T::convertible_from`: whether v fits. */
  function ConvertibleFrom(f: Family, a: IntType, b: IntType, v: int): (r: bool)
    requires ValidType(a) && ValidType(b) && Applicable(f, a, b) && InRange(a, v)
    ensures r <==> InRange(b, v)
  {
    match f
    case Identity => true
    case Lossless => true
    case Lossy => ConvertibleFromLossy(a, b, v)
  }

  /**
   * The five conversions fit together: checked is `Some` of the wrapped value
   * exactly when the value is convertible; overflowing is the wrapped value
   * with the negated convertibility flag; saturating agrees with wrapping on
   * convertible values.
   */
  lemma ConversionsAgree(f: Family, a: IntType, b: IntType, v: int)
    requires ValidType(a) && ValidType(b) && Applicable(f, a, b) && InRange(a, v)
    ensures CheckedFrom(f, a, b, v) == (if ConvertibleFrom(f, a, b, v) then Some(WrappingFrom(f, a, b, v)) else None)
    ensures OverflowingFrom(f, a, b, v) == (WrappingFrom(f, a, b, v), !ConvertibleFrom(f, a, b, v))
    ensures ConvertibleFrom(f, a, b, v) ==> SaturatingFrom(f, a, b, v) == WrappingFrom(f, a, b, v)
  {
    WrapUnique(b, v, OverflowingFrom(f, a, b, v).0);
  }

  /** Saturation picks the value of b nearest to v. */
  lemma SaturatingIsNearest(f: Family, a: IntType, b: IntType, v: int, x: int)
    requires ValidType(a) && ValidType(b) && Applicable(f, a, b) && InRange(a, v) && InRange(b, x)
    ensures InRange(b, SaturatingFrom(f, a, b, v))
    ensures AbsInt(SaturatingFrom(f, a, b, v) - v) <= AbsInt(x - v)
  {
  }

  /** The lossless bodies compute what the lossy ones would: the family only saves work. */
  lemma LosslessAgreesWithLossy(a: IntType, b: IntType, v: int)
    requires ValidType(a) && ValidType(b) && Contains(a, b) && InRange(a, v)
    ensures CheckedFrom(Lossless, a, b, v) == CheckedFromLossy(a, b, v)
    ensures SaturatingFrom(Lossless, a, b, v) == SaturatingFromLossy(a, b, v)
    ensures OverflowingFrom(Lossless, a, b, v) == OverflowingFromLossy(a, b, v)
    ensures ConvertibleFrom(Lossless, a, b, v) == ConvertibleFromLossy(a, b, v)
  {
  }

  /** The primitive integer types. */
  datatype Prim = U8 | U16 | U32 | U64 | U128 | Usize | I8 | I16 | I32 | I64 | I128 | Isize

  /** The shape of a primitive type; `usize` and `isize` have the platform's pointer width. */
  function TypeOf(p: Prim, pointerWidth: nat): (t: IntType)
  {
    match p
    case U8 => IntType(8, false)
    case U16 => IntType(16, false)
    case U32 => IntType(32, false)
    case U64 => IntType(64, false)
    case U128 => IntType(128, false)
    case Usize => IntType(pointerWidth, false)
    case I8 => IntType(8, true)
    case I16 => IntType(16, true)
    case I32 => IntType(32, true)
    case I64 => IntType(64, true)
    case I128 => IntType(128, true)
    case Isize => IntType(pointerWidth, true)
  }

  /** Rust's pointer widths. */
  predicate ValidPointerWidth(w: nat) { w == 16 || w == 32 || w == 64 }

  /** For each a, the b of every `proper_subset_conversion!(a, b)`: lossless a to b, lossy b to a. */
  function SubsetTargets(a: Prim): seq<Prim>
  {
    match a
    case U8 => [U16, U32, U64, U128, Usize, I16, I32, I64, I128, Isize]
    case U16 => [U32, U64, U128, Usize, I32, I64, I128]
    case U32 => [U64, U128, I64, I128]
    case U64 => [U128, I128]
    case I8 => [I16, I32, I64, I128, Isize]
    case I16 => [I32, I64, I128, Isize]
    case I32 => [I64, I128]
    case I64 => [I128]
    case _ => []
  }

  /** For each a, the b of every `no_containment_conversion!(a, b)`: lossy both ways. */
  function NoContainmentTargets(a: Prim): seq<Prim>
  {
    match a
    case U8 => [I8]
    case U16 => [I8, I16, Isize]
    case U32 => [Usize, I8, I16, I32, Isize]
    case U64 => [Usize, I8, I16, I32, I64, Isize]
    case U128 => [Usize, I8, I16, I32, I64, I128, Isize]
    case Usize => [I8, I16, I32, I64, I128, Isize]
    case I32 => [Isize]
    case I64 => [Isize]
    case I128 => [Isize]
    case _ => []
  }

  /** The family the macro invocations give the conversion from a to b, if any. */
  function FamilyOf(a: Prim, b: Prim): Option<Family>
  {
    if a == b then Some(Identity)
    else if b in SubsetTargets(a) then Some(Lossless)
    else if a in SubsetTargets(b) || b in NoContainmentTargets(a) || a in NoContainmentTargets(b) then Some(Lossy)
    else None
  }

  /** Containment read off the widths: what the lossless pairs must satisfy. */
  predicate WidthContains(a: IntType, b: IntType)
  {
    if a.signed then b.signed && a.width <= b.width
    else if b.signed then a.width < b.width
    else a.width <= b.width
  }

  lemma WidthContainsSound(a: IntType, b: IntType)
    requires ValidType(a) && ValidType(b) && WidthContains(a, b)
    ensures Contains(a, b)
  {
    if a.signed || !b.signed {
      PowMonotone(2, a.width, b.width);
      PowMonotone(2, a.width - 1, b.width - 1);
    } else {
      PowMonotone(2, a.width, b.width - 1);
    }
  }

  /**
   * Every ordered pair of primitive types has conversions, and each pair's
   * family is correct for it on every pointer width: the lossless pairs
   * really are contained.
   */
  lemma TableSound(a: Prim, b: Prim, pointerWidth: nat)
    requires ValidPointerWidth(pointerWidth)
    ensures FamilyOf(a, b).Some?
    ensures Applicable(FamilyOf(a, b).value, TypeOf(a, pointerWidth), TypeOf(b, pointerWidth))
  {
    TableComplete(a, b);
    if FamilyOf(a, b) == Some(Lossless) {
      LosslessPairsWiden(a, b, pointerWidth);
      WidthContainsSound(TypeOf(a, pointerWidth), TypeOf(b, pointerWidth));
    }
  }

  lemma TableComplete(a: Prim, b: Prim)
    ensures FamilyOf(a, b).Some?
  {
    match b
    case U8 =>
    case U16 =>
    case U32 =>
    case U64 =>
    case U128 =>
    case Usize =>
    case I8 =>
    case I16 =>
    case I32 =>
    case I64 =>
    case I128 =>
    case Isize =>
  }

  lemma LosslessPairsWiden(a: Prim, b: Prim, pointerWidth: nat)
    requires ValidPointerWidth(pointerWidth) && b in SubsetTargets(a)
    ensures WidthContains(TypeOf(a, pointerWidth), TypeOf(b, pointerWidth))
  {
  }

  lemma Pow2Of8()
    ensures Pow2(7) == 128 && Pow2(8) == 256
  {
    assert Pow2(4) == 16;
    PowAdd(2, 4, 4);
  }

  lemma Pow2Of16()
    ensures Pow2(15) == 32768 && Pow2(16) == 65536
  {
    Pow2Of8();
    PowAdd(2, 8, 8);
  }

  lemma Pow2Of32()
    ensures Pow2(31) == 0x8000_0000 && Pow2(32) == 0x1_0000_0000
  {
    Pow2Of16();
    PowAdd(2, 16, 16);
  }

  lemma Pow2Of64()
    ensures Pow2(63) == 0x8000_0000_0000_0000 && Pow2(64) == 0x1_0000_0000_0000_0000
  {
    Pow2Of32();
    PowAdd(2, 32, 32);
  }

  /** Identity and lossless conversions keep the value: `u8 <- 123u8`, `i32 <- -5i32`, `u16 <- 123u8`, `i64 <- -5i32`. */
  lemma LosslessExamples()
    ensures Half(IntType(8, false)) == 128 && Half(IntType(16, false)) == 32768
    ensures Half(IntType(32, true)) == 0x8000_0000 && Half(IntType(64, true)) == 0x8000_0000_0000_0000
    ensures CheckedFrom(Identity, IntType(8, false), IntType(8, false), 123) == Some(123)
    ensures OverflowingFrom(Identity, IntType(32, true), IntType(32, true), -5) == (-5, false)
    ensures Contains(IntType(8, false), IntType(16, false))
    ensures CheckedFrom(Lossless, IntType(8, false), IntType(16, false), 123) == Some(123)
    ensures Contains(IntType(32, true), IntType(64, true))
    ensures SaturatingFrom(Lossless, IntType(32, true), IntType(64, true), -5) == -5
    ensures ConvertibleFrom(Lossless, IntType(32, true), IntType(64, true), -5)
  {
    Pow2Of16();
    Pow2Of32();
    Pow2Of64();
  }

  /** `u32 <- 5u64`: fits, so every conversion returns 5. */
  lemma U64ToU32Example()
    ensures Half(IntType(32, false)) == 0x8000_0000 && Half(IntType(64, false)) == 0x8000_0000_0000_0000
    ensures CheckedFrom(Lossy, IntType(64, false), IntType(32, false), 5) == Some(5)
    ensures WrappingFrom(Lossy, IntType(64, false), IntType(32, false), 5) == 5
    ensures SaturatingFrom(Lossy, IntType(64, false), IntType(32, false), 5) == 5
    ensures OverflowingFrom(Lossy, IntType(64, false), IntType(32, false), 5) == (5, false)
    ensures ConvertibleFrom(Lossy, IntType(64, false), IntType(32, false), 5)
  {
    Pow2Of32();
    Pow2Of64();
  }

  /** `u8 <- 1000u16`: wraps to 232, saturates to 255. */
  lemma U16ToU8Example()
    ensures Half(IntType(8, false)) == 128 && Half(IntType(16, false)) == 32768
    ensures CheckedFrom(Lossy, IntType(16, false), IntType(8, false), 1000) == None
    ensures WrappingFrom(Lossy, IntType(16, false), IntType(8, false), 1000) == 232
    ensures SaturatingFrom(Lossy, IntType(16, false), IntType(8, false), 1000) == 255
    ensures OverflowingFrom(Lossy, IntType(16, false), IntType(8, false), 1000) == (232, true)
    ensures !ConvertibleFrom(Lossy, IntType(16, false), IntType(8, false), 1000)
  {
    Pow2Of16();
    WrapUnique(IntType(8, false), 1000, 232);
    ConversionsAgree(Lossy, IntType(16, false), IntType(8, false), 1000);
  }

  /** `u32 <- -5i32`: wraps to 4294967291, saturates to 0. */
  lemma I32ToU32Example()
    ensures Half(IntType(32, true)) == 0x8000_0000 && Modulus(IntType(32, false)) == 0x1_0000_0000
    ensures CheckedFrom(Lossy, IntType(32, true), IntType(32, false), -5) == None
    ensures WrappingFrom(Lossy, IntType(32, true), IntType(32, false), -5) == 4_294_967_291
    ensures SaturatingFrom(Lossy, IntType(32, true), IntType(32, false), -5) == 0
    ensures OverflowingFrom(Lossy, IntType(32, true), IntType(32, false), -5) == (4_294_967_291, true)
    ensures !ConvertibleFrom(Lossy, IntType(32, true), IntType(32, false), -5)
  {
    Pow2Of32();
    WrapUnique(IntType(32, false), -5, 4_294_967_291);
    ConversionsAgree(Lossy, IntType(32, true), IntType(32, false), -5);
  }

  /** `i32 <- 3000000000u32`: wraps to -1294967296, saturates to `i32::MAX`. */
  lemma U32ToI32Example()
    ensures Half(IntType(32, true)) == 0x8000_0000 && Modulus(IntType(32, false)) == 0x1_0000_0000
    ensures CheckedFrom(Lossy, IntType(32, false), IntType(32, true), 3_000_000_000) == None
    ensures WrappingFrom(Lossy, IntType(32, false), IntType(32, true), 3_000_000_000) == -1_294_967_296
    ensures SaturatingFrom(Lossy, IntType(32, false), IntType(32, true), 3_000_000_000) == 2_147_483_647
    ensures OverflowingFrom(Lossy, IntType(32, false), IntType(32, true), 3_000_000_000) == (-1_294_967_296, true)
    ensures !ConvertibleFrom(Lossy, IntType(32, false), IntType(32, true), 3_000_000_000)
  {
    Pow2Of32();
    WrapUnique(IntType(32, true), 3_000_000_000, -1_294_967_296);
    ConversionsAgree(Lossy, IntType(32, false), IntType(32, true), 3_000_000_000);
  }

  /** `i8 <- -1000i16`: wraps to 24, saturates to -128. */
  lemma I16ToI8Example()
    ensures Half(IntType(8, true)) == 128 && Half(IntType(16, true)) == 32768
    ensures CheckedFrom(Lossy, IntType(16, true), IntType(8, true), -1000) == None
    ensures WrappingFrom(Lossy, IntType(16, true), IntType(8, true), -1000) == 24
    ensures SaturatingFrom(Lossy, IntType(16, true), IntType(8, true), -1000) == -128
    ensures OverflowingFrom(Lossy, IntType(16, true), IntType(8, true), -1000) == (24, true)
    ensures !ConvertibleFrom(Lossy, IntType(16, true), IntType(8, true), -1000)
  {
    Pow2Of16();
    WrapUnique(IntType(8, true), -1000, 24);
    ConversionsAgree(Lossy, IntType(16, true), IntType(8, true), -1000);
  }
}
