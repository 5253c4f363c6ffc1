# malachite multiplication core and small numeric semantics, in Dafny

This project models parts of the Rust arbitrary-precision library malachite and
proves properties of the model. Limbs are 32 bits wide, so the base B is 2^32.
A limb slice is modelled by the natural number it denotes (least significant
limb first) together with its length. A Rust panic, a failed `assert!` or a
step that would leave the integers is modelled by `None` of an `Option` result.

The modelled parts:

- **Toom-Cook multiplication sizes** (`toom.rs`). These are the
  `*_input_sizes_valid` predicates, the `*_scratch_size` functions and the
  operand splits of Toom-22, 32, 33, 42, 43, 44, 52, 53, 54, 62, 63, 6.5 and
  8.5. For Toom-6.5 and Toom-8.5 the model covers the choice of p and q, "half"
  splitting and the recovery from a badly chosen split. It also covers the
  recursive dispatchers and the top-limb bounds of the evaluations asserted by
  the compute functions.
- **Toom-22 end to end** (Karatsuba) at the value level, with `abs_sub_n`, the
  abs-sub-add helper and couple handling.
- **Interpolation** (`poly_interpolate.rs`). This covers the 5-, 6-, 7- and
  8-point interpolations at the value level, `shl_and_sub_same_length` and
  `shl_and_sub`. The 5-, 6- and 7-point interpolations recover the
  coefficients; the 8-point one recovers f(B^n) when the result fits 7n+s+t
  limbs. Its final recomposition is modelled window by window, with every
  asserted carry.
- **Multiplication modulo B^n − 1** (`mul_mod.rs`). This covers `next_size`,
  `scratch_size`, the basecases modulo B^n − 1 and modulo B^n + 1, and the
  driver with its direct and CRT-recursive paths. The FFT product is an oracle.
- **Small operations**:
  - primitive-integer conversions (`from.rs`);
  - radix formatting (`to_string.rs`);
  - `x ≡ −y mod 2^pow` on limbs and `Integer::eq_mod_power_of_two`;
  - `is_power_of_two` on limbs and on `Natural`;
  - `Integer` abs;
  - divisibility by a signed limb;
  - saturating subtraction of a `u32`;
  - `bool::not_assign`;
  - the sign of a `Float`.

The modules follow the source files. `Limbs` and `Modular` hold the shared
vocabulary: `Value`, `Pow`, `Pow2`, `Option`, and facts about division and
remainders. `Naturals` and `Integers` hold the `Natural` (Small/Large) and
`Integer` (sign, magnitude) representations.

## Model

| member | source | states |
|---|---|---|
| BoolNot.NotAssign | malachite-base/src/bools/not_assign.rs:23-25 | the new value always differs from the old one |
| BoolNot.NotAssignInvolution | malachite-base/src/bools/not_assign.rs:23-25 | negating twice restores the original value |
| BoolNot.NotAssignExamples | malachite-base/src/bools/not_assign.rs:14-20 | false becomes true and true becomes false |
| FloatSign.Sign | malachite-float/src/arithmetic/sign.rs:43-54 | NaN panics; every other value has sign Greater exactly when its sign flag is set, and never Equal (zero included) |
| FloatSign.SignFlip | malachite-float/src/arithmetic/sign.rs:43-51 | flipping the sign flag of a non-NaN value swaps Greater and Less |
| FloatSign.SignExamples | malachite-float/src/arithmetic/sign.rs:36-41 | ±∞, ±0 and ±1 give Greater/Less; NaN panics |
| Integers.Abs | malachite-nz/src/integer/arithmetic/abs.rs:26-29 | the result denotes the absolute value, keeps the magnitude and is well formed |
| Integers.NaturalAbs | malachite-nz/src/integer/arithmetic/abs.rs:81-83 | the magnitude equals the absolute value of the integer |
| Integers.AbsAssign | malachite-nz/src/integer/arithmetic/abs.rs:141-145 | after assignment the value is the absolute value of the old one, and well-formedness is kept |
| Integers.AbsIdempotent | malachite-nz/src/integer/arithmetic/abs.rs:53-58 | abs applied twice equals abs once, and abs agrees with natural_abs |
| Integers.AbsExamples | malachite-nz/src/integer/arithmetic/abs.rs:127-138 | 0 ↦ 0, 123 ↦ 123, −123 ↦ 123 |
| SaturatingSubU32.NaturalSaturatingSub | malachite-nz/src/natural/arithmetic/saturating_sub_u32.rs:32-37 | the difference when other ≤ self, and 0 otherwise |
| SaturatingSubU32.NaturalSaturatingSubAssign | malachite-nz/src/natural/arithmetic/saturating_sub_u32.rs:107-113 | the assigned value equals the non-assigning form and is the least e with self ≤ e + other |
| SaturatingSubU32.U32SaturatingSub | malachite-nz/src/natural/arithmetic/saturating_sub_u32.rs:140-145 | a u32 minus a Natural clamps at 0 and stays a u32 |
| SaturatingSubU32.U32SaturatingSubAssign | malachite-nz/src/natural/arithmetic/saturating_sub_u32.rs:217-221 | the assign form equals the non-assigning form and is the least cover |
| SaturatingSubU32.SaturatingSubIsLeastCover | malachite-nz/src/natural/arithmetic/saturating_sub_u32.rs:68-73 | saturating subtraction is the least e with self ≤ e + other; on u32 inputs both directions agree |
| SaturatingSubU32.SaturatingSubExamples | malachite-nz/src/natural/arithmetic/saturating_sub_u32.rs:25-29 | 123−123 = 0, 456−123 = 333, 123−456 = 0, 10^12−123 = 999999999877, and the u32 examples |
| SaturatingSubU32.SaturatingSubAssignExample | malachite-nz/src/natural/arithmetic/saturating_sub_u32.rs:96-104 | 15 minus 1, 2, 3, 4 and then 10 ends at 0 |
| IsPowerOfTwo.U32IsPowerOfTwo | malachite-nz/src/natural/arithmetic/is_power_of_two.rs:28-30 | the one-bit test on a limb holds exactly when the limb is a power of two |
| IsPowerOfTwo.LimbsTestZero | malachite-nz/src/natural/arithmetic/is_power_of_two.rs:28-30 | the scan is true exactly when every limb is zero |
| IsPowerOfTwo.LimbsIsPowerOfTwo | malachite-nz/src/natural/arithmetic/is_power_of_two.rs:28-30 | panics on empty input; true iff all limbs below the top are zero and the top limb is a power of two, i.e. iff the normalized value is a power of two |
| IsPowerOfTwo.PowerOfTwoLimbs | malachite-nz/src/natural/arithmetic/is_power_of_two.rs:28-30 | a normalized limb value is a power of two iff its low limbs are zero and its top limb is a power of two |
| IsPowerOfTwo.NaturalIsPowerOfTwo | malachite-nz/src/natural/arithmetic/is_power_of_two.rs:58-63 | true exactly when the Natural's value is a power of two, for the Small and Large forms |
| IsPowerOfTwo.ZeroIsNotPowerOfTwo | malachite-nz/src/natural/arithmetic/is_power_of_two.rs:51-51 | zero is not a power of two |
| IsPowerOfTwo.LimbsIsPowerOfTwoExamples | malachite-nz/src/natural/arithmetic/is_power_of_two.rs:23-26 | [3] no, [0, 8] yes, [1, 8] no, [0, 10] no |
| IsPowerOfTwo.SmallIsPowerOfTwoExamples | malachite-nz/src/natural/arithmetic/is_power_of_two.rs:51-55 | 0 and 123 are not powers of two, 0x80 is |
| IsPowerOfTwo.TrillionIsNotPowerOfTwo | malachite-nz/src/natural/arithmetic/is_power_of_two.rs:51-55 | 10^12 is not a power of two |
| IsPowerOfTwo.TwoToTheFortyIsPowerOfTwo | malachite-nz/src/natural/arithmetic/is_power_of_two.rs:51-55 | 2^40 is a power of two |
| DivisibleBySignedLimb.IntegerDivisibleBySignedLimb | malachite-nz/src/integer/arithmetic/divisible_by_signed_limb.rs:32-34 | true iff y divides x, where only 0 is divisible by 0 |
| DivisibleBySignedLimb.SignedLimbDivisibleByInteger | malachite-nz/src/integer/arithmetic/divisible_by_signed_limb.rs:68-70 | true iff the Integer divides the signed limb, where only 0 is divisible by 0 |
| DivisibleBySignedLimb.IntegerDivisibleByI32 | malachite-nz/src/integer/arithmetic/divisible_by_signed_limb.rs:38-43 | the i32 overload decides the same divisibility |
| DivisibleBySignedLimb.I32DivisibleByInteger | malachite-nz/src/integer/arithmetic/divisible_by_signed_limb.rs:74-79 | the i32 overload decides the same divisibility |
| DivisibleBySignedLimb.SignedDivisibilityIgnoresSigns | malachite-nz/src/integer/arithmetic/divisible_by_signed_limb.rs:32-34 | divisibility of the magnitudes is exactly signed divisibility |
| DivisibleBySignedLimb.NaturalDivisibleByMultiple | malachite-nz/src/integer/arithmetic/divisible_by_signed_limb.rs:32-34 | every multiple of b is divisible by b, and divisibility means being a multiple |
| DivisibleBySignedLimb.DivisibleByExamples | malachite-nz/src/integer/arithmetic/divisible_by_signed_limb.rs:27-29 | 0 by 0 yes, 100 by −3 no, −102 by 3 yes, and the reversed examples |
| EqModPowerOfTwo.WrappingNeg | malachite-nz/src/integer/arithmetic/eq_mod_power_of_two.rs:24-24 | the negated limb is a limb that sums with the original to a multiple of B |
| EqModPowerOfTwo.NegationComplement | malachite-nz/src/integer/arithmetic/eq_mod_power_of_two.rs:15-25 | the per-limb negation (zeros, wrapping_neg, then complements) of the low n limbs adds with them to B^n, or to 0 when they are 0 |
| EqModPowerOfTwo.NegPosGreater | malachite-nz/src/integer/arithmetic/eq_mod_power_of_two.rs:6-44 | true exactly when x + y ≡ 0 mod 2^pow |
| EqModPowerOfTwo.TooLongNeverEquivalent | malachite-nz/src/integer/arithmetic/eq_mod_power_of_two.rs:10-11 | when pow exceeds 32 times the longer length the answer is false |
| EqModPowerOfTwo.MismatchNotEquivalent | malachite-nz/src/integer/arithmetic/eq_mod_power_of_two.rs:26-28 | a full limb that differs from the negated limb rules the congruence out |
| EqModPowerOfTwo.FullLimbsEquivalent | malachite-nz/src/integer/arithmetic/eq_mod_power_of_two.rs:30-31 | when pow is a multiple of 32 and every limb matched, the congruence holds |
| EqModPowerOfTwo.PartialLimbDecides | malachite-nz/src/integer/arithmetic/eq_mod_power_of_two.rs:32-41 | for a partial last limb, the comparison of its low bits decides the congruence |
| EqModPowerOfTwo.NegPos | malachite-nz/src/integer/arithmetic/eq_mod_power_of_two.rs:76-82 | decides x + y ≡ 0 mod 2^pow, and is symmetric in its arguments |
| EqModPowerOfTwo.NaturalNegPos | malachite-nz/src/integer/arithmetic/eq_mod_power_of_two.rs:120-126 | decides x + y ≡ 0 mod 2^pow for every pairing of Small and Large |
| EqModPowerOfTwo.IntegerEqMod | malachite-nz/src/integer/arithmetic/eq_mod_power_of_two.rs:110-116 | decides x ≡ y mod 2^pow on signed values |
| EqModPowerOfTwo.SameSignDifference | malachite-nz/src/integer/arithmetic/eq_mod_power_of_two.rs:111-112 | with equal signs, the congruence is the congruence of the magnitudes |
| EqModPowerOfTwo.OppositeSignDifference | malachite-nz/src/integer/arithmetic/eq_mod_power_of_two.rs:113-114 | with opposite signs, it is the neg-pos congruence of the magnitudes |
| EqModPowerOfTwo.NegPosExamples | malachite-nz/src/integer/arithmetic/eq_mod_power_of_two.rs:63-74 | the four limb examples of the documentation |
| EqModPowerOfTwo.IntegerEqModExamples | malachite-nz/src/integer/arithmetic/eq_mod_power_of_two.rs:103-107 | 0 ≡ −256 mod 2^8; −13 ≡ 27 mod 2^3 but not mod 2^4 |
| Conversions.Wrap | malachite-base/src/num/conversion/from.rs:332-336 | `value as T` lands in T's range, is congruent to the value modulo 2^W, and keeps values already in range |
| Conversions.WrapUnique | malachite-base/src/num/conversion/from.rs:332-336 | the in-range value congruent modulo 2^W is unique, so it is the wrapped value |
| Conversions.CheckedFromLossy | malachite-base/src/num/conversion/from.rs:235-247 | Some(v) exactly when v is representable in the target |
| Conversions.LossyTestDecides | malachite-base/src/num/conversion/from.rs:235-247 | the source's test (same sign, and converting back recovers v) holds iff v is representable |
| Conversions.SaturatingFromLossy | malachite-base/src/num/conversion/from.rs:249-261 | MAX above the range, MIN below it, v inside it |
| Conversions.OverflowingFromLossy | malachite-base/src/num/conversion/from.rs:263-274 | the flag is set iff v is not representable; without overflow the value is v |
| Conversions.ConvertibleFromLossy | malachite-base/src/num/conversion/from.rs:276-284 | true iff v is representable |
| Conversions.CheckedFrom | malachite-base/src/num/conversion/from.rs:11-410 | for identity, lossless and lossy pairs: Some(v) iff v is representable |
| Conversions.WrappingFrom | malachite-base/src/num/conversion/from.rs:11-410 | a target value congruent to v modulo 2^W |
| Conversions.SaturatingFrom | malachite-base/src/num/conversion/from.rs:11-410 | clamps to the target's MAX/MIN, else v |
| Conversions.OverflowingFrom | malachite-base/src/num/conversion/from.rs:11-410 | the wrapped value, flagged iff v is not representable |
| Conversions.ConvertibleFrom | malachite-base/src/num/conversion/from.rs:11-410 | true iff v is representable |
| Conversions.ConversionsAgree | malachite-base/src/num/conversion/from.rs:263-284 | checked is the wrapped value when convertible; overflowing is (wrapping, ¬convertible); saturating equals wrapping when convertible |
| Conversions.SaturatingIsNearest | malachite-base/src/num/conversion/from.rs:249-261 | the saturated value is the representable value nearest to v |
| Conversions.LosslessAgreesWithLossy | malachite-base/src/num/conversion/from.rs:126-233 | when the target contains the source, lossless and lossy semantics coincide |
| Conversions.TableSound | malachite-base/src/num/conversion/from.rs:430-498 | every pair of primitive types gets a conversion family that is applicable at every pointer width |
| Conversions.TableComplete | malachite-base/src/num/conversion/from.rs:430-498 | every ordered pair of primitive types is covered |
| Conversions.LosslessPairsWiden | malachite-base/src/num/conversion/from.rs:414-419 | the proper-subset pairs of the table really widen |
| Conversions.LosslessExamples | malachite-base/src/num/conversion/from.rs:126-233 | identity and widening conversions return the value unchanged |
| Conversions.U16ToU8Example | malachite-base/src/num/conversion/from.rs:288-410 | u8 from 1000u16: None, 232, 255, (232, true), false |
| Conversions.I32ToU32Example | malachite-base/src/num/conversion/from.rs:288-410 | u32 from −5: None, 4294967291, 0, overflowed, false |
| Conversions.U32ToI32Example | malachite-base/src/num/conversion/from.rs:288-410 | i32 from 3000000000u32: None, −1294967296, i32::MAX, overflowed |
| Conversions.I16ToI8Example | malachite-base/src/num/conversion/from.rs:288-410 | i8 from −1000i16: None, 24, −128, overflowed |
| Conversions.U64ToU32Example | malachite-base/src/num/conversion/from.rs:288-410 | a representable value converts unchanged under every lossy function |
| ToString.DigitToByteLower | malachite-base/src/num/conversion/string/to_string.rs:28-34 | defined exactly for digits ≤ 35; the byte reads back as that digit and is never an upper-case letter |
| ToString.DigitToByteUpper | malachite-base/src/num/conversion/string/to_string.rs:56-62 | defined exactly for digits ≤ 35; the byte reads back as that digit and is never a lower-case letter |
| ToString.DigitsDesc | malachite-base/src/num/conversion/string/to_string.rs:89-89 | digits below the base, most significant first and nonzero, whose value is x; empty exactly for 0 |
| ToString.Display | malachite-base/src/num/conversion/string/to_string.rs:90-93 | one character per digit, reading back as that digit, in the requested case |
| ToString.ToStringBaseUnsigned | malachite-base/src/num/conversion/string/to_string.rs:84-108 | panics unless 2 ≤ base ≤ 36; the string is "0" exactly for 0, has no leading zero and uses one case |
| ToString.ToStringBaseSigned | malachite-base/src/num/conversion/string/to_string.rs:225-264 | panics unless 2 ≤ base ≤ 36; a negative value is '-' followed by the digits of its magnitude |
| ToString.FmtUnsigned | malachite-base/src/num/conversion/string/to_string.rs:64-82 | the alternate flag selects upper case, otherwise lower case |
| ToString.FmtSigned | malachite-base/src/num/conversion/string/to_string.rs:195-223 | the same case selection for signed values |
| ToString.UnsignedRoundTrip | malachite-base/src/num/conversion/string/to_string.rs:84-108 | parsing the string back in the same base yields x |
| ToString.SignedRoundTrip | malachite-base/src/num/conversion/string/to_string.rs:225-264 | parsing the signed string back yields x |
| ToString.FormattingInjective | malachite-base/src/num/conversion/string/to_string.rs:84-108 | distinct values format to distinct strings |
| ToString.DigitToByteExamples | malachite-base/src/num/conversion/string/to_string.rs:28-62 | 0 ↦ '0', 9 ↦ '9', 10 ↦ 'a'/'A', 35 ↦ 'z'/'Z', 100 ↦ None |
| ToString.HexExamples | malachite-base/src/num/conversion/string/to_string.rs:84-108 | 255 in base 16 is "ff" or "FF" |
| ToString.SignedExamples | malachite-base/src/num/conversion/string/to_string.rs:225-264 | −255 is "-ff", 0 is "0", base 37 panics |
| ToomSizes.PieceSize | malachite-nz/src/natural/arithmetic/mul/toom.rs:1117-1127 | n is the larger of ⌈xs/p⌉ and ⌈ys/q⌉, so p·n ≥ xs and q·n ≥ ys, with the source's two-branch formula |
| ToomSizes.Toom22Valid | malachite-nz/src/natural/arithmetic/mul/toom.rs:194-202 | valid exactly when the compute function's split and asserts succeed, i.e. ys ≤ xs ≤ 2·ys − 2 |
| ToomSizes.Toom22Split | malachite-nz/src/natural/arithmetic/mul/toom.rs:246-254 | xs = n + s, ys = n + t with 0 < t ≤ s and s ∈ {n, n − 1} |
| ToomSizes.Toom22ScratchSize | malachite-nz/src/natural/arithmetic/mul/toom.rs:124-126 | covers twice the operand plus the recursion depth for 32-bit sizes |
| ToomSizes.Toom22DepthBound | malachite-nz/src/natural/arithmetic/mul/toom.rs:124-126 | the Toom-22 recursion on m ≤ 2^k limbs is at most k deep |
| ToomSizes.Toom32Valid | malachite-nz/src/natural/arithmetic/mul/toom.rs:401-416 | valid exactly when the split and asserts succeed; implies xs < 3·ys |
| ToomSizes.Toom32Split | malachite-nz/src/natural/arithmetic/mul/toom.rs:463-479 | tiles the operands with 0 < s, t ≤ n, s + t ≥ n, ys + 2 ≤ xs and xs + 6 ≤ 3·ys |
| ToomSizes.Toom32ScratchSize | malachite-nz/src/natural/arithmetic/mul/toom.rs:377-384 | on valid sizes, 2n + 1 for the split's own n |
| ToomSizes.Toom33Valid | malachite-nz/src/natural/arithmetic/mul/toom.rs:764-772 | valid exactly when the split and asserts succeed; implies 2·xs < 3·ys |
| ToomSizes.Toom33Split | malachite-nz/src/natural/arithmetic/mul/toom.rs:819-827 | tiles xs into 3 and ys into 3 pieces with non-empty top pieces |
| ToomSizes.Toom33ScratchSize | malachite-nz/src/natural/arithmetic/mul/toom.rs:723-725 | covers 5/2 of the operand plus 10 limbs per recursion level |
| ToomSizes.Toom33DepthBound | malachite-nz/src/natural/arithmetic/mul/toom.rs:723-725 | 20 times the recursion depth is at most m + 64 |
| ToomSizes.Toom42Valid | malachite-nz/src/natural/arithmetic/mul/toom.rs:1033-1045 | valid exactly when the split and asserts succeed; implies xs < 4·ys |
| ToomSizes.Toom42Split | malachite-nz/src/natural/arithmetic/mul/toom.rs:1117-1127 | tiles xs into 4 and ys into 2 pieces, with ys < xs |
| ToomSizes.Toom42ScratchSize | malachite-nz/src/natural/arithmetic/mul/toom.rs:1055-1062 | on valid sizes, 6n + 3 for the split's own n |
| ToomSizes.Toom43Valid | malachite-nz/src/natural/arithmetic/mul/toom.rs:1255-1267 | valid exactly when the split and asserts succeed; implies xs < 2·ys |
| ToomSizes.Toom43Split | malachite-nz/src/natural/arithmetic/mul/toom.rs:1329-1343 | tiles xs into 4 and ys into 3 pieces with s + t ≥ 5 |
| ToomSizes.Toom43ScratchSize | malachite-nz/src/natural/arithmetic/mul/toom.rs:1277-1284 | on valid sizes, 6n + 4 |
| ToomSizes.Toom44Valid | malachite-nz/src/natural/arithmetic/mul/toom.rs:1480-1488 | valid exactly when the split and asserts succeed; implies 3·xs < 4·ys |
| ToomSizes.Toom44Split | malachite-nz/src/natural/arithmetic/mul/toom.rs:1567-1576 | tiles both operands into 4 pieces with s ≥ t |
| ToomSizes.Toom44ScratchRecurrence | malachite-nz/src/natural/arithmetic/mul/toom.rs:1498-1500 | the scratch size covers one level's 8n + 5 limbs plus the recursive call's scratch |
| ToomSizes.Toom52Valid | malachite-nz/src/natural/arithmetic/mul/toom.rs:1732-1744 | valid exactly when the split and asserts succeed (false for empty operands); implies xs < 5·ys |
| ToomSizes.Toom52Split | malachite-nz/src/natural/arithmetic/mul/toom.rs:1811-1826 | tiles xs into 5 and ys into 2 pieces with s + t ≥ 5 |
| ToomSizes.Toom52ScratchSize | malachite-nz/src/natural/arithmetic/mul/toom.rs:1754-1761 | on valid sizes, 6n + 4 |
| ToomSizes.Toom53Valid | malachite-nz/src/natural/arithmetic/mul/toom.rs:1956-1968 | valid exactly when the split and asserts succeed; implies 2·xs < 5·ys |
| ToomSizes.Toom53Split | malachite-nz/src/natural/arithmetic/mul/toom.rs:2033-2043 | tiles xs into 5 and ys into 3 pieces |
| ToomSizes.Toom53ScratchSize | malachite-nz/src/natural/arithmetic/mul/toom.rs:1978-1985 | on valid sizes, 10(n + 1) |
| ToomSizes.Toom54Valid | malachite-nz/src/natural/arithmetic/mul/toom.rs:2287-2299 | valid exactly when the split and asserts succeed; implies 3·xs < 5·ys |
| ToomSizes.Toom54Split | malachite-nz/src/natural/arithmetic/mul/toom.rs:2375-2392 | tiles xs into 5 and ys into 4 pieces with s + t ≥ n, s + t > 4, n > 2 |
| ToomSizes.Toom54ScratchSize | malachite-nz/src/natural/arithmetic/mul/toom.rs:2309-2317 | on valid sizes, 9n + 3 |
| ToomSizes.Toom62Valid | malachite-nz/src/natural/arithmetic/mul/toom.rs:2486-2498 | valid exactly when the split and asserts succeed; implies xs < 6·ys |
| ToomSizes.Toom62Split | malachite-nz/src/natural/arithmetic/mul/toom.rs:2563-2572 | tiles xs into 6 and ys into 2 pieces |
| ToomSizes.Toom62ScratchSize | malachite-nz/src/natural/arithmetic/mul/toom.rs:2508-2515 | on valid sizes, 10(n + 1) |
| ToomSizes.Toom63Valid | malachite-nz/src/natural/arithmetic/mul/toom.rs:2822-2834 | valid exactly when the split and asserts succeed; implies xs < 3·ys |
| ToomSizes.Toom63Split | malachite-nz/src/natural/arithmetic/mul/toom.rs:2909-2923 | tiles xs into 6 and ys into 3 pieces with s + t ≥ n, s + t > 4, n > 2 |
| ToomSizes.Toom63ScratchSize | malachite-nz/src/natural/arithmetic/mul/toom.rs:2844-2851 | on valid sizes, 9n + 3 |
| ToomHalf.HalfSplit | malachite-nz/src/natural/arithmetic/mul/toom.rs:3297-3327 | tiles the operands; half only when p and q differ in parity; recovery from an empty top piece drops one piece and the half flag |
| ToomHalf.Toom6hChoice | malachite-nz/src/natural/arithmetic/mul/toom.rs:3065-3140 | the chosen (p, q) uses 12 points, or 13 when half, with q ≥ 4 |
| ToomHalf.Toom6hRawSplit | malachite-nz/src/natural/arithmetic/mul/toom.rs:3065-3140 | tiles the operands with p + q = 10, or 11 when half |
| ToomHalf.Toom6hValid | malachite-nz/src/natural/arithmetic/mul/toom.rs:3065-3140 | validity implies 42 ≤ ys ≤ xs and 6·xs < 17·ys |
| ToomHalf.Toom6hSplit | malachite-nz/src/natural/arithmetic/mul/toom.rs:3243-3451 | the compute function's split succeeds iff the sizes are valid; it then tiles them, meets all its asserts and fits the scratch |
| ToomHalf.Toom6hScratchSuffices | malachite-nz/src/natural/arithmetic/mul/toom.rs:3215-3218 | the scratch-size conjunct 12n + 6 ≤ scratch is implied by the split's own asserts |
| ToomHalf.Toom8hChoice | malachite-nz/src/natural/arithmetic/mul/toom.rs:3464-3568 | the chosen (p, q) uses 16 points, or 17 when half, with 9 ≤ p ≤ 11 and q ≥ 5 |
| ToomHalf.Toom8hRawSplit | malachite-nz/src/natural/arithmetic/mul/toom.rs:3464-3568 | tiles the operands with p + q = 14, or 15 when half |
| ToomHalf.Toom8hValid | malachite-nz/src/natural/arithmetic/mul/toom.rs:3464-3568 | validity implies 86 ≤ ys ≤ xs and 4·xs ≤ 11·ys |
| ToomHalf.Toom8hSplit | malachite-nz/src/natural/arithmetic/mul/toom.rs:3677-3967 | every valid size splits; a split tiles the operands and meets all asserts; it also admits squaring scratch of exactly 15n + 5 |
| ToomHalf.Toom8hScratchSuffices | malachite-nz/src/natural/arithmetic/mul/toom.rs:3648-3651 | the scratch-size conjunct 15n + 6 ≤ scratch is implied by the split's own asserts |
| ToomDispatch.Toom22SameLengthRecursive | malachite-nz/src/natural/arithmetic/mul/toom.rs:144-156 | picks basecase or Toom-22, and the pick accepts the sizes |
| ToomDispatch.Toom22GreaterRecursive | malachite-nz/src/natural/arithmetic/mul/toom.rs:169-186 | basecase below the threshold; the general multiply only when 4·xs ≥ 5·ys and Toom-32 is invalid; the pick accepts the sizes |
| ToomDispatch.Toom33SameLengthRecursive | malachite-nz/src/natural/arithmetic/mul/toom.rs:739-754 | picks basecase, Toom-22 or Toom-33, and the pick accepts the sizes |
| ToomDispatch.Toom33SameLength | malachite-nz/src/natural/arithmetic/mul/toom.rs:764-772 | equal lengths of at least 6 are valid for Toom-33 |
| ToomDispatch.Toom44SameLength | malachite-nz/src/natural/arithmetic/mul/toom.rs:1480-1488 | equal lengths of at least 12 are valid for Toom-44 |
| ToomDispatch.Toom6hSameLength | malachite-nz/src/natural/arithmetic/mul/toom.rs:3065-3140 | equal lengths of at least 42 are valid for Toom-6.5 |
| ToomDispatch.Toom8hSameLength | malachite-nz/src/natural/arithmetic/mul/toom.rs:3464-3568 | equal lengths of at least 86 are valid for Toom-8.5 |
| ToomDispatch.Toom6hSameLengthRecursive | malachite-nz/src/natural/arithmetic/mul/toom.rs:3158-3177 | picks one of the Toom variants, and Toom-6.5 only at or above its threshold |
| ToomDispatch.Toom6hRecursionAccepts | malachite-nz/src/natural/arithmetic/mul/toom.rs:3158-3177 | for at least 2 limbs the pick accepts the sizes |
| ToomDispatch.Toom6hRecursionNeedsTwoLimbs | malachite-nz/src/natural/arithmetic/mul/toom.rs:3158-3177 | below 2 limbs the dispatcher picks Toom-22 on sizes Toom-22 rejects |
| ToomDispatch.Toom8hSameLengthRecursive | malachite-nz/src/natural/arithmetic/mul/toom.rs:3593-3614 | picks one of the Toom variants, and Toom-8.5 only at or above its threshold |
| ToomDispatch.Toom8hRecursionAccepts | malachite-nz/src/natural/arithmetic/mul/toom.rs:3593-3614 | for at least 2 limbs the pick accepts the sizes |
| ToomEval.EvalBounds | malachite-nz/src/natural/arithmetic/mul/toom.rs:917-922 | a polynomial with coefficients ≤ m, evaluated at k, lies between −NegWeight·m and PosWeight·m |
| ToomEval.TopLimbBound | malachite-nz/src/natural/arithmetic/mul/toom.rs:917-922 | the limb above the pieces' length of an evaluation is below its weight |
| ToomEval.Toom33EvaluationBounds | malachite-nz/src/natural/arithmetic/mul/toom.rs:917-922 | as1, bs1 ≤ 2; asm1, bsm1 ≤ 1; as2, bs2 ≤ 6 |
| ToomEval.Toom42EvaluationBounds | malachite-nz/src/natural/arithmetic/mul/toom.rs:1192-1196 | as1 ≤ 3, bs1 ≤ 1, asm1 ≤ 1, as2 ≤ 14, bs2 ≤ 2 |
| ToomEval.Toom43EvaluationBounds | malachite-nz/src/natural/arithmetic/mul/toom.rs:1410-1417 | the top limbs at 1, −1, 2 and −2 |
| ToomEval.Toom44EvaluationBounds | malachite-nz/src/natural/arithmetic/mul/toom.rs:1657-1658 | the evaluations at 1/2 (scaled) have top limb ≤ 14 |
| ToomEval.Toom52EvaluationBounds | malachite-nz/src/natural/arithmetic/mul/toom.rs:1901-1907 | the top limbs at 1, −1, 2 and −2 |
| ToomEval.Toom53EvaluationBounds | malachite-nz/src/natural/arithmetic/mul/toom.rs:2143-2152 | the top limbs at 1, −1, 2, −2 and 1/2 |
| ToomEval.Toom62EvaluationBounds | malachite-nz/src/natural/arithmetic/mul/toom.rs:2685-2693 | the top limbs at 1, −1, 2, −2 and 1/2 |
| Karatsuba.XNegative | malachite-nz/src/natural/arithmetic/mul/toom.rs:259-283 | the sign of x0 − x1 as the comparisons compute it |
| Karatsuba.YNegative | malachite-nz/src/natural/arithmetic/mul/toom.rs:285-301 | the sign of y0 − y1 as the comparisons compute it |
| Karatsuba.Toom22Mul | malachite-nz/src/natural/arithmetic/mul/toom.rs:238-367 | defined exactly on valid sizes, where the result is xs·ys and fits in xs_len + ys_len limbs |
| Karatsuba.Toom22Recovers | malachite-nz/src/natural/arithmetic/mul/toom.rs:306-367 | v0 + (v0 + vinf ∓ vm1)·B^n + vinf·B^2n is the product, with the sign of (x0−x1)(y0−y1) |
| Karatsuba.Recombine22Product | malachite-nz/src/natural/arithmetic/mul/toom.rs:348-354 | the recombination with the sign flag is x·y for any halves |
| Karatsuba.KaratsubaIdentity | malachite-nz/src/natural/arithmetic/mul/toom.rs:204-226 | the middle coefficient equals v0 + vinf − (x0−x1)(y0−y1) |
| Karatsuba.AbsSubN | malachite-nz/src/natural/arithmetic/mul/toom.rs:2779-2798 | fails exactly on operands of different lengths; otherwise out holds \|xs − ys\| in the same length and the flag is true exactly when xs < ys |
| Karatsuba.AbsSubFacts | malachite-nz/src/natural/arithmetic/mul/toom.rs:2779-2798 | above the highest differing limb the operands agree, and that limb decides the order |
| Karatsuba.TopLimbDecides | malachite-nz/src/natural/arithmetic/mul/toom.rs:2779-2798 | with distinct top limbs, the top limbs decide the comparison |
| Karatsuba.AbsSubAdd | malachite-nz/src/natural/arithmetic/mul/toom.rs:2810-2814 | succeeds exactly when the lengths agree and the sum fits, and then returns \|xs − ys\|, xs + ys and the sign of xs − ys |
| Interpolate8.CoupleHandling | malachite-nz/src/natural/arithmetic/mul/toom.rs:77-106 | success implies the size conditions and a result within len + offset limbs |
| Interpolate8.CoupleHandlingOfParts | malachite-nz/src/natural/arithmetic/mul/toom.rs:77-106 | from f(x) = E + O and f(−x) = E − O it yields (O >> xShift) + B^offset (E >> yShift) |
| Interpolate.Interpolate5 | malachite-nz/src/natural/arithmetic/mul/poly_interpolate.rs:27-201 | on success, the coefficients evaluate to the given values at 1, −1 and 2, with f(0) and the leading coefficient kept |
| Interpolate.Interpolate5Recovers | malachite-nz/src/natural/arithmetic/mul/poly_interpolate.rs:27-201 | given the evaluations of non-negative coefficients, it returns exactly those coefficients |
| Interpolate.Interpolate6 | malachite-nz/src/natural/arithmetic/mul/poly_interpolate.rs:228-418 | success implies n ≠ 0 and 0 < n_high ≤ 2n; the end coefficients are kept |
| Interpolate.Interpolate6Recovers | malachite-nz/src/natural/arithmetic/mul/poly_interpolate.rs:228-418 | given the evaluations at 0, ±1, ±2 and the leading coefficient, it returns the coefficients |
| Interpolate.Linear6Recovers | malachite-nz/src/natural/arithmetic/mul/poly_interpolate.rs:228-418 | every shift and division by 3 of the linear steps is exact on evaluations |
| Interpolate.Interpolate7 | malachite-nz/src/natural/arithmetic/mul/poly_interpolate.rs:443-609 | on success, 0 < n_high < 2n + 1; the coefficients meet the top-limb bounds and evaluate to the inputs at −2, 1, −1, 2 and 1/2 |
| Interpolate.Interpolate7Recovers | malachite-nz/src/natural/arithmetic/mul/poly_interpolate.rs:443-609 | given the evaluations of bounded non-negative coefficients, it returns exactly those coefficients |
| Interpolate.Interpolate7Block1 | malachite-nz/src/natural/arithmetic/mul/poly_interpolate.rs:496-520 | each halving and quartering is exact: the results times 2 or 4 are the differences |
| Interpolate.Interpolate7Block1Recovers | malachite-nz/src/natural/arithmetic/mul/poly_interpolate.rs:496-520 | on evaluations, the first block produces the stated linear combinations |
| Interpolate.Interpolate7Block2Recovers | malachite-nz/src/natural/arithmetic/mul/poly_interpolate.rs:522-532 | on the first block's output, the second block isolates c2 and c4 |
| Interpolate.Interpolate7Block3Recovers | malachite-nz/src/natural/arithmetic/mul/poly_interpolate.rs:534-544 | on the second block's output, the third block yields all seven coefficients |
| Interpolate8.ShlAndSubSameLength | malachite-nz/src/natural/arithmetic/mul/poly_interpolate.rs:612-621 | the low limbs become (x − (y << shift)) mod B^len; the returned limb is the shifted-out bits plus the borrow, at most 2^shift |
| Interpolate8.ShlAndSub | malachite-nz/src/natural/arithmetic/mul/poly_interpolate.rs:624-628 | succeeds exactly when x ≥ y >> shift (and the lengths fit), and then yields x − (y >> shift) |
| Interpolate8.RemoveEnds8 | malachite-nz/src/natural/arithmetic/mul/poly_interpolate.rs:675-681 | succeeds exactly when nothing borrows, and removes B^n (r8 >> yShift) + (r1 << xShift) |
| Interpolate8.Solve8 | malachite-nz/src/natural/arithmetic/mul/poly_interpolate.rs:689-695 | on success, the pair (a, b) solves r5 = r7 + 3b + 12a and r3 = r7 + 15b + 240a |
| Interpolate8.Solve8Recovers | malachite-nz/src/natural/arithmetic/mul/poly_interpolate.rs:689-695 | every such pair is found: the shift and the divisions by 45 and 3 are exact |
| Interpolate8.Interpolate8 | malachite-nz/src/natural/arithmetic/mul/poly_interpolate.rs:655-759 | success implies 1 ≤ n ≤ s+t ≤ 3n + 1, that r3 and r7 have 3n + 1 limbs, and a result below B^(7n+s+t), the limbs of `out` |
| Interpolate8.Interpolate8Sized | malachite-nz/src/natural/arithmetic/mul/poly_interpolate.rs:674-758 | after the length asserts, success implies 1 ≤ n, s+t ≤ 3n + 1 and a result below B^(7n+s+t) |
| Interpolate8.Interpolate8Solved | malachite-nz/src/natural/arithmetic/mul/poly_interpolate.rs:689-758 | the linear middle and the recomposition give a result below B^(7n+s+t) |
| Interpolate8.RemoveR7 | malachite-nz/src/natural/arithmetic/mul/poly_interpolate.rs:683-688 | succeeds exactly when s+t ≤ 3n + 1 and r1 fits under (r7 − B^n r8) mod B^(3n+1); the result is that difference, below B^(3n+1) |
| Interpolate8.Interpolate8Recovers | malachite-nz/src/natural/arithmetic/mul/poly_interpolate.rs:640-759 | given evaluations of eight coefficients whose f(B^n) fits the 7n + s + t limbs of `out`, the result is f(B^n) |
| Recomposition8.CarryInto | malachite-nz/src/natural/arithmetic/mul/poly_interpolate.rs:711-717 | two carries resolved into the next window: success exactly when lo + add − sub + m·hi stays in [0, m·top), and the windows then hold that value |
| Recomposition8.BorrowInto | malachite-nz/src/natural/arithmetic/mul/poly_interpolate.rs:720-722 | a borrow taken from the next window: success exactly when sub ≤ lo + m·hi, and the windows then hold lo + m·hi − sub |
| Recomposition8.RecomposeLow | malachite-nz/src/natural/arithmetic/mul/poly_interpolate.rs:710-722 | with P = B^n: success exactly when r5 mod P² ≤ ⌊r8/P⌋ + r7 and ⌊r8/P⌋ + r7 − (r5 mod P) < B·P³; out[..3n] and r7[2n..] then hold r8 + P·r7 − P·(r5 mod P²) |
| Recomposition8.AddLowWrap | malachite-nz/src/natural/arithmetic/mul/poly_interpolate.rs:724-727 | r5[2n..] + r3[..n] with the top limb wrapping: the result is the sum mod B·P, and the sum itself when it fits |
| Recomposition8.SubAbove | malachite-nz/src/natural/arithmetic/mul/poly_interpolate.rs:742-743 | subtracting r3 above its low window: success exactly when r3 − (r3 mod P) ≤ x, and the result is the difference |
| Recomposition8.RecomposeMiddle | malachite-nz/src/natural/arithmetic/mul/poly_interpolate.rs:724-743 | always below B·P³; when 2·r5 < B·P³, success exactly when r5 + P²(r3 mod P) + u − ⌊r5/P²⌋ − r3 lies in [0, B·P³), and the result is that value |
| Recomposition8.AddTop | malachite-nz/src/natural/arithmetic/mul/poly_interpolate.rs:750-758 | adding the top window to r1: the result stays below the s+t limbs of r1, and when the carry limb cannot wrap, success exactly when r1 + a fits, with result r1 + a |
| Recomposition8.RecomposeTop | malachite-nz/src/natural/arithmetic/mul/poly_interpolate.rs:745-758 | when 2·r3 < B·P³, success exactly when r1 + ⌊(r5 + P³⌊r3/P⌋)/P⁴⌋ fits in s+t limbs; r5[..4n] then holds the low part and r1 the sum |
| Recomposition8.RecomposeWindows | malachite-nz/src/natural/arithmetic/mul/poly_interpolate.rs:697-758 | a result fits in 7n + s + t limbs; when r5 and r3 are below half their limbs it equals r8 + P(r7 − r5) + P³(r5 − r3) + P⁵r3 + P⁷r1 |
| Recomposition8.Recompose8Limbs | malachite-nz/src/natural/arithmetic/mul/poly_interpolate.rs:697-758 | the same on the source's limb counts: a result is below B^(7n+s+t) and is the recomposition when r5, r3 < B^(3n+1)/2 |
| Recomposition8.Recompose8LimbsSucceeds | malachite-nz/src/natural/arithmetic/mul/poly_interpolate.rs:697-758 | with r3 ≤ r5 ≤ r7, r5 and r3 below half their limbs, r7 + ⌊r8/B^n⌋ within 3n + 1 limbs and a recomposition below B^(7n+s+t), every asserted carry holds and the result is the recomposition |
| Recomposition8.WindowsSucceed | malachite-nz/src/natural/arithmetic/mul/poly_interpolate.rs:710-758 | the window-level form of the previous row |
| Recomposition8.CarryCovers | malachite-nz/src/natural/arithmetic/mul/poly_interpolate.rs:710-722 | when r7 ≥ r5, the carry out of the low windows covers the high part of r5 |
| MulMod.NextSize | malachite-nz/src/natural/arithmetic/mul/mul_mod.rs:25-40 | n itself below 13; otherwise the least size ≥ n that is a multiple of 2, 4 or 8 by range; the FFT size above the FFT threshold |
| MulMod.NextSizeIdempotent | malachite-nz/src/natural/arithmetic/mul/mul_mod.rs:25-40 | away from the FFT sizes, a returned size is returned unchanged |
| MulMod.ScratchSize | malachite-nz/src/natural/arithmetic/mul/mul_mod.rs:43-58 | between n + 4 and 2n + 4; 2n + 4 when both operands exceed n/2; n + 4 when xs does not |
| MulMod.ScratchCoversRecursion | malachite-nz/src/natural/arithmetic/mul/mul_mod.rs:197-245 | after the folded operands, the scratch still holds the half-size call's scratch and the operands mod B^h + 1 |
| MulMod.FoldBnm1Spec | malachite-nz/src/natural/arithmetic/mul/mul_mod.rs:174-179 | adding the high half into the low half gives an n-limb value ≡ p mod B^n − 1, zero only for p = 0, and p itself when p fits |
| MulMod.Minus1BasecaseSpec | malachite-nz/src/natural/arithmetic/mul/mul_mod.rs:75-90 | panics exactly when n = 0; otherwise a value below B^n congruent to x·y mod B^n − 1, zero only for a zero operand |
| MulMod.Plus1BasecaseSpec | malachite-nz/src/natural/arithmetic/mul/mul_mod.rs:104-123 | succeeds exactly when n > 0, limb 2n + 1 of the product is 0 and limb 2n is not MAX; the result is below B^(n+1) and ≡ x·y mod B^n + 1 |
| MulMod.Plus1BasecaseNormalized | malachite-nz/src/natural/arithmetic/mul/mul_mod.rs:104-123 | on operands at most B^n the asserts hold and the result is the least residue of x·y mod B^n + 1 |
| MulMod.SubBnp1Spec | malachite-nz/src/natural/arithmetic/mul/mul_mod.rs:226-243 | lo − hi mod B^h + 1 in h + 1 limbs, zero exactly when lo = hi |
| MulMod.OperandBnp1Spec | malachite-nz/src/natural/arithmetic/mul/mul_mod.rs:220-245 | the operand reduced mod B^h + 1 is at most B^h, congruent to x, x itself when short, with anp limbs as the source counts them |
| MulMod.FoldProductSpec | malachite-nz/src/natural/arithmetic/mul/mul_mod.rs:296-309 | folding a product of h + e limbs gives a value ≤ B^h congruent to it mod B^h + 1 |
| MulMod.SchoolbookBnp1 | malachite-nz/src/natural/arithmetic/mul/mul_mod.rs:286-309 | the schoolbook branch's product folds to a value ≤ B^h ≡ a·y mod B^h + 1 |
| MulMod.ProductBnp1Spec | malachite-nz/src/natural/arithmetic/mul/mul_mod.rs:220-319 | xp is at most B^h, ≡ x·y mod B^h + 1, and zero for a zero operand, whether it comes from the FFT or the schoolbook branch |
| MulMod.HalfSumSpec | malachite-nz/src/natural/arithmetic/mul/mul_mod.rs:322-354 | (xm + xp)/2 mod B^h − 1: twice the result is congruent to the sum, zero stays zero and a carry never yields 0 |
| MulMod.HighHalfFullSpec | malachite-nz/src/natural/arithmetic/mul/mul_mod.rs:382-393 | the CRT recomposition in 2h limbs, as the integer the limb code builds, below B^2h |
| MulMod.HighHalfTruncatedSpec | malachite-nz/src/natural/arithmetic/mul/mul_mod.rs:358-381 | when the recomposed value fits the shorter output, the truncated path computes the same value |
| MulMod.HalveSpec | malachite-nz/src/natural/arithmetic/mul/mul_mod.rs:197-219 | the operand folded to h limbs is ≡ x mod B^h − 1 and zero only when x is |
| MulMod.DirectSpec | malachite-nz/src/natural/arithmetic/mul/mul_mod.rs:170-182 | the non-recursive branch always succeeds and meets the driver's contract |
| MulMod.DirectPlain | malachite-nz/src/natural/arithmetic/mul/mul_mod.rs:172-173 | when the product fits in n limbs it is the exact product |
| MulMod.DirectFold | malachite-nz/src/natural/arithmetic/mul/mul_mod.rs:174-179 | otherwise, with ys shorter than n, the folded product meets the contract |
| MulMod.DirectBasecase | malachite-nz/src/natural/arithmetic/mul/mul_mod.rs:180-181 | with both operands of n limbs, the basecase meets the contract |
| MulMod.RecombineSpec | malachite-nz/src/natural/arithmetic/mul/mul_mod.rs:322-393 | from xm ≡ p mod B^h − 1 and xp ≡ p mod B^h + 1 it rebuilds a value ≡ p mod B^2h − 1, zero only when p is, and p itself when p fits |
| MulMod.RecursiveStep | malachite-nz/src/natural/arithmetic/mul/mul_mod.rs:184-393 | given a half-size result meeting the contract, the recursive branch meets it at size n |
| MulMod.MulModBnm1 | malachite-nz/src/natural/arithmetic/mul/mul_mod.rs:157-395 | succeeds exactly when 0 < ys_len ≤ xs_len ≤ n and, on the recursive path, xs_len + ys_len > n/2; the result is below B^n, ≡ x·y mod B^n − 1, the exact product when it fits, and zero only for a zero operand |

## Left out

- Limb-level carry chains. Add, sub, shift, compare and exact-division primitives are used at the value level; their own code is not part of this model.
- Scratch buffers, output aliasing and buffer offsets. Only the sizes of scratch are modelled, not its layout.
- `usize` overflow in the size arithmetic. Lengths are unbounded naturals.
- The FFT. `_limbs_mul_fft`, `_limbs_mul_fft_best_k` and `mpn_fft_next_size` are not part of this model (fft.rs is not part of this model). `fftBestK` and `fftNextSize` are parameters, and the FFT product mod B^h + 1 is taken to be the least residue.
- MulMod.NextSize: above the FFT threshold it states only that the result is twice the FFT size of ⌈n/2⌉, because that size is an oracle.
- MulMod.NextSizeIdempotent: proved only for n ≤ 784, where no FFT size is involved.
- The squaring scratch sizes of Toom-6.5 and Toom-8.5 are parameters (`squareScratch`), because the squaring code is not part of this model.
- ToomHalf.Toom8hSplit: not an if-and-only-if with validity. The compute function asserts a scratch limit of 5(3n + 1) = 15n + 5, while the validity check demands 15n + 6. The split therefore also admits a squaring scratch of exactly 15n + 5.
- The value-level products of Toom-32 through Toom-8.5 (evaluate, multiply recursively, interpolate). Their splits, asserts, evaluation bounds and interpolations are modelled separately; only Toom-22 is modelled end to end.
- The threshold constants are taken at their values in the source (TOOM22 = 20, TOOM33 = 65, TOOM44 = 166, TOOM6H = 256, TOOM8H = 333, MULMOD_BNM1 = 13, MUL_FFT_MODF = 396). They are tuning values, not logic.
- The general (non-Toom) multiply, which the dispatchers fall back to. It is named only as a dispatch choice.
- Interpolate.Interpolate6: its own contract states only sizes and the kept end coefficients, because the source's right shifts round down on values that are not evaluations. The recovery of the coefficients is stated by Interpolate6Recovers.
- Interpolate8.Interpolate8: its own contract states only its size asserts and the bound on the result. The recovery of f(B^n) is stated by Interpolate8Recovers, for inputs that are evaluations.
- Recomposition8.RecomposeMiddle, Recomposition8.RecomposeTop, Recomposition8.Recompose8Limbs: the value is stated only when r5 and r3 are below half their 3n + 1 limbs. Above that, the `wrapping_add_assign` on r5[3n] or on r3[3n] may wrap, and the model reduces it mod B without stating the resulting value. The 8-point interpolation only hands over such values.
- Recomposition8.Recompose8LimbsSucceeds: a sufficient condition for success, not an if-and-only-if.
- Interpolate8.CoupleHandling: its own contract states only sizes. The value it produces is stated by CoupleHandlingOfParts for inputs that are f(x) and f(−x).
- ToString.FmtUnsigned, ToString.FmtSigned: the base range 2..=36 comes from the `BaseFmtWrapper` constructor, which is not modelled (the documented panic at to_string.rs:121-122 and 143-144).
- `to_digits_desc` is not part of this model. ToString.DigitsDesc is its own definition, with the documented meaning (digits most significant first, no leading zero).
- `Formatter` padding and width (`pad_integral`) in to_string.rs. The model produces the digit string only.
- `Natural::eq_mod_power_of_two` and `eq_mod_power_of_two_neg_u32` are not part of this model. EqModPowerOfTwo.NaturalEqMod and NegU32 are stated by their documented meaning.
- The i32 overloads of divisibility. The signed limb is taken to be i64, as with 64-bit limbs, where these overloads exist; with 32-bit limbs the signed limb and i32 coincide.
- Trailing-zero counting of 0 (MulMod.TrailingZeros requires h > 0). The source only calls it on h > 0.
- The "# Panics" lines of saturating_sub_u32.rs describe panics, but the code and the examples saturate. The model follows the code.
- Floating-point numerics of `Float` beyond its sign. The value of a finite float is carried but not interpreted.
