/**
 * `Sign for Float`: the sign of an arbitrary-precision float, given by the
 * sign flag of its Infinity, Zero or Finite representation; NaN has none.
 */
module FloatSign {
  import opened Limbs

  /** A float's shape. The precision of a Finite float plays no part in its sign and is not kept. */
  datatype Float =
    | NaN
    | Infinity(sign: bool)
    | Zero(sign: bool)
    | Finite(sign: bool, exponent: int, significand: nat)

  datatype Ordering = Less | Equal | Greater

  /** `Float::sign`; `None` is the panic on NaN. */
  function Sign(x: Float): (r: Option<Ordering>)
    ensures r.None? <==> x.NaN?
    ensures r.Some? ==> r.value != Equal
    ensures r.Some? ==> (r.value == Greater <==> x.sign)
  {
    match x
    case Infinity(sign) => if sign then Some(Greater) else Some(Less)
    case Zero(sign) => if sign then Some(Greater) else Some(Less)
    case Finite(sign, _, _) => if sign then Some(Greater) else Some(Less)
    case NaN => None
  }

  /** Flipping the sign flag of a non-NaN float flips the reported sign. */
  lemma SignFlip(x: Float)
    requires !x.NaN?
    ensures Sign(x.(sign := !x.sign)).value == (if Sign(x).value == Greater then Less else Greater)
  {
  }

  /** The documented examples: infinities, signed zeros and +-1 (1 = 1 * 2^0). */
  lemma SignExamples()
    ensures Sign(Infinity(true)) == Some(Greater)
    ensures Sign(Infinity(false)) == Some(Less)
    ensures Sign(Zero(true)) == Some(Greater)
    ensures Sign(Zero(false)) == Some(Less)
    ensures Sign(Finite(true, 0, 1)) == Some(Greater)
    ensures Sign(Finite(false, 0, 1)) == Some(Less)
    ensures Sign(NaN) == None
  {
  }
}
