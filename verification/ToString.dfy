/**
 * Formatting primitive integers in bases 2 to 36: the digit-to-character
 * maps, `to_string_base` and `to_string_base_upper` for unsigned and signed
 * values, and the letter-case choice of the `Display` implementations.
 */
module ToString {
  import opened Limbs

  /** `b'0'`, `b'a'`, `b'A'`. */
  const Zero: nat := 48
  const LowerA: nat := 97
  const UpperA: nat := 65

  /** `digit_to_display_byte_lower`: 0-9 to '0'-'9', 10-35 to 'a'-'z', anything else `None`. */
  function DigitToByteLower(b: nat): (r: Option<nat>)
    requires b < 256
    ensures r.Some? <==> b <= 35
    ensures r.Some? ==> r.value < 256 && DigitValue(r.value as char) == Some(b)
    ensures r.Some? ==> !IsUpperLetter(r.value as char)
  {
    if b <= 9 then Some(b + Zero)
    else if b <= 35 then Some(b + LowerA - 10)
    else None
  }

  /** `digit_to_display_byte_upper`: 0-9 to '0'-'9', 10-35 to 'A'-'Z', anything else `None`. */
  function DigitToByteUpper(b: nat): (r: Option<nat>)
    requires b < 256
    ensures r.Some? <==> b <= 35
    ensures r.Some? ==> r.value < 256 && DigitValue(r.value as char) == Some(b)
    ensures r.Some? ==> !IsLowerLetter(r.value as char)
  {
    if b <= 9 then Some(b + Zero)
    else if b <= 35 then Some(b + UpperA - 10)
    else None
  }

  predicate IsLowerLetter(c: char) { 'a' <= c <= 'z' }
  predicate IsUpperLetter(c: char) { 'A' <= c <= 'Z' }

  /**
   * The value a character stands for as a digit, in either case: the
   * reading the display maps are meant to invert.
   */
  function DigitValue(c: char): Option<nat>
  {
    if '0' <= c <= '9' then Some(c as nat - '0' as nat)
    else if 'a' <= c <= 'z' then Some(c as nat - 'a' as nat + 10)
    else if 'A' <= c <= 'Z' then Some(c as nat - 'A' as nat + 10)
    else None
  }

  /** The number whose most-significant-first digits in `base` are ds. */
  function DigitsValue(ds: seq<nat>, base: nat): nat
  {
    if |ds| == 0 then 0 else DigitsValue(ds[..|ds| - 1], base) * base + ds[|ds| - 1]
  }

  predicate DigitsBelow(ds: seq<nat>, base: nat)
  {
    forall i :: 0 <= i < |ds| ==> ds[i] < base
  }

  /**
   * `to_digits_desc`, whose body is not part of this model: the digits of x
   * in `base`, most significant first, with no leading zero; zero has none.
   */
  function DigitsDesc(x: nat, base: nat): (ds: seq<nat>)
    requires 2 <= base
    ensures DigitsBelow(ds, base)
    ensures DigitsValue(ds, base) == x
    ensures x == 0 <==> |ds| == 0
    ensures |ds| > 0 ==> ds[0] != 0
    decreases x
  {
    if x == 0 then []
    else
      DivStep(x, base);
      DigitsSnoc(x, base, DigitsDesc(x / base, base))
  }

  /** The digits of a nonzero x: those of x / base followed by x % base. */
  function DigitsSnoc(x: nat, base: nat, prefix: seq<nat>): (ds: seq<nat>)
    requires 2 <= base && x > 0
    requires DigitsBelow(prefix, base) && DigitsValue(prefix, base) == x / base
    requires x / base == 0 <==> |prefix| == 0
    requires |prefix| > 0 ==> prefix[0] != 0
    ensures DigitsBelow(ds, base)
    ensures DigitsValue(ds, base) == x
    ensures |ds| > 0 && ds[0] != 0
  {
    DivStep(x, base);
    var ds := prefix + [x % base];
    assert ds[..|prefix|] == prefix;
    ds
  }

  /** One digit split off: x = (x / base) base + x % base, with a smaller quotient. */
  lemma DivStep(x: nat, base: nat)
    requires 2 <= base && x > 0
    ensures x == (x / base) * base + x % base && x % base < base
    ensures x / base < x && (x / base == 0 ==> x % base == x)
  {
    var q, r := x / base, x % base;
    assert x == q * base + r;
    assert q * (base - 2) >= 0;
    assert q * base == q * 2 + q * (base - 2);
  }

  /** Replaces every digit by its display character in the chosen case, unwrapping the map. */
  function Display(ds: seq<nat>, upper: bool): (s: string)
    requires DigitsBelow(ds, 36)
    ensures |s| == |ds|
    ensures forall i :: 0 <= i < |s| ==> DigitValue(s[i]) == Some(ds[i])
    ensures forall i :: 0 <= i < |s| ==> if upper then !IsLowerLetter(s[i]) else !IsUpperLetter(s[i])
  {
    if |ds| == 0 then []
    else
      var d := ds[|ds| - 1];
      var b := if upper then DigitToByteUpper(d).value else DigitToByteLower(d).value;
      var s := Display(ds[..|ds| - 1], upper) + [b as char];
      assert forall i :: 0 <= i < |s| - 1 ==> s[i] == Display(ds[..|ds| - 1], upper)[i];
      s
  }

  /**
   * `to_string_base_unsigned` (`upper` false) and
   * `to_string_base_upper_unsigned` (`upper` true): `None` is the panic on a
   * base outside 2..=36; zero is "0"; otherwise the digits of x.
   */
  function ToStringBaseUnsigned(x: nat, base: nat, upper: bool): (r: Option<string>)
    ensures r.None? <==> !(2 <= base <= 36)
    ensures r.Some? ==> |r.value| > 0 && (r.value == "0" <==> x == 0)
    ensures r.Some? && x != 0 ==> DigitValue(r.value[0]) != Some(0)
    ensures r.Some? ==> forall i :: 0 <= i < |r.value| ==> if upper then !IsLowerLetter(r.value[i]) else !IsUpperLetter(r.value[i])
  {
    if !(2 <= base <= 36) then None
    else if x == 0 then Some("0")
    else
      var s := Display(DigitsDesc(x, base), upper);
      assert DigitValue(s[0]) != Some(0) ==> s != "0";
      Some(s)
  }

  /**
   * `to_string_base_signed` and `to_string_base_upper_signed`: the digits of
   * `unsigned_abs`, with a '-' in front when x is negative, never two's
   * complement.
   */
  function ToStringBaseSigned(x: int, base: nat, upper: bool): (r: Option<string>)
    ensures r.None? <==> !(2 <= base <= 36)
    ensures r.Some? && x >= 0 ==> r == ToStringBaseUnsigned(x, base, upper)
    ensures r.Some? && x < 0 ==> r.value == ['-'] + ToStringBaseUnsigned(-x, base, upper).value
  {
    if !(2 <= base <= 36) then None
    else if x == 0 then Some("0")
    else
      var s := Display(DigitsDesc(if x < 0 then -x else x, base), upper);
      if x < 0 then Some(['-'] + s) else Some(s)
  }

  /**
   * The `Display` of `BaseFmtWrapper` for unsigned values (`fmt_unsigned`),
   * without the padding: the `#` flag selects uppercase letters. The base is
   * whatever the wrapper holds; the wrapper's construction is not part of
   * this model, so the base range is taken as given.
   */
  function FmtUnsigned(x: nat, base: nat, alternate: bool): (s: string)
    requires 2 <= base <= 36
    ensures s == ToStringBaseUnsigned(x, base, alternate).value
  {
    var digits := Display(DigitsDesc(x, base), alternate);
    if x == 0 then digits + "0" else digits
  }

  /** `fmt_signed` without a width: a '-' for negative values, then the unsigned display of `unsigned_abs`. */
  function FmtSigned(x: int, base: nat, alternate: bool): (s: string)
    requires 2 <= base <= 36
    ensures s == ToStringBaseSigned(x, base, alternate).value
  {
    var magnitude := FmtUnsigned(if x < 0 then -x else x, base, alternate);
    if x < 0 then ['-'] + magnitude else magnitude
  }

  /** Reading a string of digits back: `None` unless every character is a digit below `base`. */
  function ParseUnsigned(s: string, base: nat): Option<nat>
  {
    if |s| == 0 then None
    else if forall i :: 0 <= i < |s| ==> DigitValue(s[i]).Some? && DigitValue(s[i]).value < base then
      Some(CharsValue(s, base))
    else None
  }

  function CharsValue(s: string, base: nat): nat
    requires forall i :: 0 <= i < |s| ==> DigitValue(s[i]).Some?
  {
    if |s| == 0 then 0 else CharsValue(s[..|s| - 1], base) * base + DigitValue(s[|s| - 1]).value
  }

  /** Reading a possibly negative number back. */
  function ParseSigned(s: string, base: nat): Option<int>
  {
    if |s| > 0 && s[0] == '-' then
      match ParseUnsigned(s[1..], base)
      case Some(v) => Some(-(v as int))
      case None => None
    else
      match ParseUnsigned(s, base)
      case Some(v) => Some(v as int)
      case None => None
  }

  /** Characters that read as the digits ds have the value of ds. */
  lemma {:induction false} CharsValueOfDigits(s: string, ds: seq<nat>, base: nat)
    requires |s| == |ds| && forall i :: 0 <= i < |s| ==> DigitValue(s[i]) == Some(ds[i])
    ensures CharsValue(s, base) == DigitsValue(ds, base)
  {
    if |s| > 0 {
      CharsValueOfDigits(s[..|s| - 1], ds[..|ds| - 1], base);
    }
  }

  /** Formatting then reading gives back the number, in either case. */
  lemma UnsignedRoundTrip(x: nat, base: nat, upper: bool)
    requires 2 <= base <= 36
    ensures ParseUnsigned(ToStringBaseUnsigned(x, base, upper).value, base) == Some(x)
  {
    if x != 0 {
      var ds := DigitsDesc(x, base);
      var s := Display(ds, upper);
      CharsValueOfDigits(s, ds, base);
    } else {
      assert CharsValue("0", base) == CharsValue("", base) * base + 0;
    }
  }

  /** Formatting a signed value then reading gives back the value. */
  lemma SignedRoundTrip(x: int, base: nat, upper: bool)
    requires 2 <= base <= 36
    ensures ParseSigned(ToStringBaseSigned(x, base, upper).value, base) == Some(x)
  {
    var m: nat := if x < 0 then -x else x;
    UnsignedRoundTrip(m, base, upper);
    var u := ToStringBaseUnsigned(m, base, upper).value;
    assert DigitValue(u[0]).Some?;
    if x < 0 {
      assert (['-'] + u)[1..] == u;
    }
  }

  /** Distinct numbers format differently: the formatting is injective. */
  lemma FormattingInjective(x: nat, y: nat, base: nat, upper: bool)
    requires 2 <= base <= 36 && x != y
    ensures ToStringBaseUnsigned(x, base, upper) != ToStringBaseUnsigned(y, base, upper)
  {
    UnsignedRoundTrip(x, base, upper);
    UnsignedRoundTrip(y, base, upper);
  }

  /** The doc examples of the two digit maps. */
  lemma DigitToByteExamples()
    ensures DigitToByteLower(0) == Some(48) && DigitToByteLower(9) == Some(57)
    ensures DigitToByteLower(10) == Some(97) && DigitToByteLower(35) == Some(122)
    ensures DigitToByteLower(100) == None
    ensures DigitToByteUpper(0) == Some(48) && DigitToByteUpper(9) == Some(57)
    ensures DigitToByteUpper(10) == Some(65) && DigitToByteUpper(35) == Some(90)
    ensures DigitToByteUpper(100) == None
  {
  }

  /** 255 in base 16 is "ff", or "FF" in upper case. */
  lemma HexExamples()
    ensures ToStringBaseUnsigned(255, 16, false) == Some("ff")
    ensures ToStringBaseUnsigned(255, 16, true) == Some("FF")
  {
    FfDigits();
  }

  /** -255 in base 16 is "-ff"; zero is "0"; base 37 is refused. */
  lemma SignedExamples()
    ensures ToStringBaseSigned(-255, 16, false) == Some("-ff")
    ensures ToStringBaseSigned(0, 2, true) == Some("0")
    ensures ToStringBaseUnsigned(5, 37, false) == None
  {
    FfDigits();
    assert ToStringBaseUnsigned(255, 16, false) == Some("ff");
    assert ['-'] + "ff" == "-ff";
  }

  lemma FfDigits()
    ensures DigitsDesc(255, 16) == [15, 15]
    ensures Display([15, 15], false) == "ff" && Display([15, 15], true) == "FF"
  {
    DigitsOf255();
    DisplayFf(false);
    DisplayFf(true);
  }

  lemma DigitsOf255()
    ensures DigitsDesc(255, 16) == [15, 15]
  {
    assert DigitsDesc(0, 16) == [];
    assert DigitsDesc(15, 16) == DigitsSnoc(15, 16, []) == [] + [15];
    assert DigitsDesc(255, 16) == DigitsSnoc(255, 16, [15]) == [15] + [15];
  }

  lemma DisplayFf(upper: bool)
    ensures Display([15, 15], upper) == if upper then "FF" else "ff"
  {
    assert [15, 15][..1] == [15] && [15][..0] == [];
  }
}
