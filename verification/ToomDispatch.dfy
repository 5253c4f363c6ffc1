/**
 * The recursive dispatchers of the Toom-Cook family: given operand lengths
 * they pick the schoolbook basecase, a Toom variant or the general multiply.
 * Each choice is shown to accept the lengths it is given.
 */
module ToomDispatch {
  import opened Limbs
  import opened ToomSizes
  import opened ToomHalf

  datatype Algorithm = Basecase | Toom22 | Toom32 | Toom33 | Toom44 | Toom6h | Toom8h | General

  const TuneProgramBuild := false
  const WantFatBinary := true

  const Toom22MaybeMulToom22 := TuneProgramBuild || WantFatBinary || MulToom33Threshold >= 2 * MulToom22Threshold
  const Toom33MaybeMulBasecase := TuneProgramBuild || WantFatBinary || MulToom33Threshold < 3 * MulToom22Threshold
  const Toom33MaybeMulToom33 := TuneProgramBuild || WantFatBinary || MulToom44Threshold >= 3 * MulToom33Threshold

  const Toom6hMaybeMulBasecase := TuneProgramBuild || MulToom6hThreshold < 6 * MulToom22Threshold
  const Toom6hMaybeMulToom22 := TuneProgramBuild || MulToom6hThreshold < 6 * MulToom33Threshold
  const Toom6hMaybeMulToom33 := TuneProgramBuild || MulToom6hThreshold < 6 * MulToom44Threshold

  const Toom8hMaybeMulBasecase := TuneProgramBuild || MulToom8hThreshold < 8 * MulToom22Threshold
  const Toom8hMaybeMulToom22 := TuneProgramBuild || MulToom8hThreshold < 8 * MulToom33Threshold
  const Toom8hMaybeMulToom33 := TuneProgramBuild || MulToom8hThreshold < 8 * MulToom44Threshold
  const Toom8hMaybeMulToom44 := TuneProgramBuild || MulToom8hThreshold < 8 * MulToom6hThreshold

  /**
   * The squaring scratch sizes are not part of this model; a Toom-6.5 size of
   * at least 2 m + 6 for m limbs, and a Toom-8.5 size of at least 15 m / 8 + 6,
   * is what the multiplication checks need from them.
   */
  ghost predicate SquareScratchCovers(squareScratch6: nat -> nat, squareScratch8: nat -> nat)
  {
    (forall m: nat :: 2 * m + 6 <= squareScratch6(m))
    && (forall m: nat :: 15 * m / 8 + 6 <= squareScratch8(m))
  }

  /** The algorithm's own size check accepts xs × ys (the basecase and general multiply need xs >= ys). */
  predicate Accepts(a: Algorithm, xs: nat, ys: nat, squareScratch6: nat -> nat, squareScratch8: nat -> nat)
  {
    match a
    case Basecase => ys <= xs
    case General => ys <= xs
    case Toom22 => Toom22Valid(xs, ys)
    case Toom32 => Toom32Valid(xs, ys)
    case Toom33 => Toom33Valid(xs, ys)
    case Toom44 => Toom44Valid(xs, ys)
    case Toom6h => Toom6hValid(xs, ys, squareScratch6)
    case Toom8h => Toom8hValid(xs, ys, squareScratch8)
  }

  /** `_limbs_mul_same_length_to_out_toom_22_recursive`: basecase below the Toom-22 threshold. */
  function Toom22SameLengthRecursive(n: nat): (r: Algorithm)
    ensures r == Basecase || r == Toom22
    ensures forall sq6, sq8 :: Accepts(r, n, n, sq6, sq8)
  {
    if !Toom22MaybeMulToom22 || n < MulToom22Threshold then Basecase else Toom22
  }

  /**
   * `_limbs_mul_greater_to_out_toom_22_recursive`: a Toom-22 step keeps s - t
   * fixed, so a recursion that became too unbalanced for Toom-22 goes to
   * Toom-32, and failing that to the general multiply.
   */
  function Toom22GreaterRecursive(xs: nat, ys: nat): (r: Algorithm)
    requires ys <= xs
    ensures r != Basecase ==> ys >= MulToom22Threshold
    ensures r == General ==> 4 * xs >= 5 * ys && !Toom32Valid(xs, ys)
    ensures forall sq6, sq8 :: Accepts(r, xs, ys, sq6, sq8)
  {
    if !Toom22MaybeMulToom22 || ys < MulToom22Threshold then Basecase
    else if 4 * xs < 5 * ys then Toom22
    else if Toom32Valid(xs, ys) then Toom32
    else General
  }

  /** `_limbs_mul_same_length_to_out_toom_33_recursive`: basecase, Toom-22 or Toom-33 by threshold. */
  function Toom33SameLengthRecursive(n: nat): (r: Algorithm)
    ensures r == Basecase || r == Toom22 || r == Toom33
    ensures forall sq6, sq8 :: Accepts(r, n, n, sq6, sq8)
  {
    if Toom33MaybeMulBasecase && n < MulToom22Threshold then Basecase
    else if !Toom33MaybeMulToom33 || n < MulToom33Threshold then Toom22
    else
      Toom33SameLength(n);
      Toom33
  }

  lemma Toom33SameLength(n: nat)
    requires n >= 6
    ensures Toom33Valid(n, n)
  {
  }

  lemma Toom44SameLength(n: nat)
    requires n >= 12
    ensures Toom44Valid(n, n)
  {
  }

  /**
   * Equal operands of at least 42 limbs pass every Toom-6.5 check but the
   * squaring one, which a covering squaring scratch size passes too.
   */
  lemma Toom6hSameLength(n: nat, squareScratch6: nat -> nat)
    requires n >= 42 && forall m: nat :: 2 * m + 6 <= squareScratch6(m)
    ensures Toom6hValid(n, n, squareScratch6)
  {
    var sp := Toom6hRawSplit(n, n);
    assert sp.n == 1 + (n - 1) / 6;
    assert SplitOk(sp);
    Toom6hScratchSuffices(n, n);
    assert 2 * (6 * sp.n) + 6 <= squareScratch6(6 * sp.n);
  }

  /** Equal operands of at least 86 limbs pass every Toom-8.5 check but the squaring one. */
  lemma Toom8hSameLength(n: nat, squareScratch8: nat -> nat)
    requires n >= 86 && forall m: nat :: 15 * m / 8 + 6 <= squareScratch8(m)
    ensures Toom8hValid(n, n, squareScratch8)
  {
    var sp := Toom8hRawSplit(n, n);
    assert sp.n == 1 + (n - 1) / 8;
    assert SplitOk(sp);
    Toom8hScratchSuffices(n, n);
    assert 15 * (8 * sp.n) / 8 + 6 <= squareScratch8(8 * sp.n);
  }

  /** `TOOM_6H_MAYBE_MUL_TOOM6H`: recursing into Toom-6.5 pays only below the FFT threshold. */
  function Toom6hMaybeMulToom6h(fftThreshold: nat): bool
  {
    TuneProgramBuild || fftThreshold >= 6 * MulToom6hThreshold
  }

  /**
   * `_limbs_mul_same_length_to_out_toom_6h_recursive`. The FFT threshold is
   * not part of this model and is a parameter. No basecase is reachable, so
   * lengths below the Toom-22 threshold go to Toom-22 too.
   */
  function Toom6hSameLengthRecursive(n: nat, fftThreshold: nat): (r: Algorithm)
    ensures r != Basecase && r != General && r != Toom32 && r != Toom8h
    ensures r == Toom6h ==> n >= MulToom6hThreshold
  {
    if Toom6hMaybeMulBasecase && n < MulToom22Threshold then Basecase
    else if Toom6hMaybeMulToom22 && n < MulToom33Threshold then Toom22
    else if Toom6hMaybeMulToom33 && n < MulToom44Threshold then Toom33
    else if !Toom6hMaybeMulToom6h(fftThreshold) || n < MulToom6hThreshold then Toom44
    else Toom6h
  }

  /** Every choice of the Toom-6.5 recursion accepts n × n once n >= 2. */
  lemma Toom6hRecursionAccepts(n: nat, fftThreshold: nat, squareScratch6: nat -> nat, squareScratch8: nat -> nat)
    requires n >= 2 && SquareScratchCovers(squareScratch6, squareScratch8)
    ensures Accepts(Toom6hSameLengthRecursive(n, fftThreshold), n, n, squareScratch6, squareScratch8)
  {
    match Toom6hSameLengthRecursive(n, fftThreshold)
    case Toom22 =>
    case Toom33 => Toom33SameLength(n);
    case Toom44 => Toom44SameLength(n);
    case Toom6h => Toom6hSameLength(n, squareScratch6);
  }

  /** `TOOM_8H_MAYBE_MUL_TOOM8H`: recursing into Toom-8.5 pays only below the FFT threshold. */
  function Toom8hMaybeMulToom8h(fftThreshold: nat): bool
  {
    TuneProgramBuild || fftThreshold >= 8 * MulToom8hThreshold
  }

  /**
   * `_limbs_mul_same_length_to_out_toom_8h_recursive`. The FFT threshold is
   * a parameter; no basecase is reachable.
   */
  function Toom8hSameLengthRecursive(n: nat, fftThreshold: nat): (r: Algorithm)
    ensures r != Basecase && r != General && r != Toom32
    ensures r == Toom8h ==> n >= MulToom8hThreshold
  {
    if Toom8hMaybeMulBasecase && n < MulToom22Threshold then Basecase
    else if Toom8hMaybeMulToom22 && n < MulToom33Threshold then Toom22
    else if Toom8hMaybeMulToom33 && n < MulToom44Threshold then Toom33
    else if Toom8hMaybeMulToom44 && n < MulToom6hThreshold then Toom44
    else if !Toom8hMaybeMulToom8h(fftThreshold) || n < MulToom8hThreshold then Toom6h
    else Toom8h
  }

  /** Every choice of the Toom-8.5 recursion accepts n × n once n >= 2. */
  lemma Toom8hRecursionAccepts(n: nat, fftThreshold: nat, squareScratch6: nat -> nat, squareScratch8: nat -> nat)
    requires n >= 2 && SquareScratchCovers(squareScratch6, squareScratch8)
    ensures Accepts(Toom8hSameLengthRecursive(n, fftThreshold), n, n, squareScratch6, squareScratch8)
  {
    match Toom8hSameLengthRecursive(n, fftThreshold)
    case Toom22 =>
    case Toom33 => Toom33SameLength(n);
    case Toom44 => Toom44SameLength(n);
    case Toom6h => Toom6hSameLength(n, squareScratch6);
    case Toom8h => Toom8hSameLength(n, squareScratch8);
  }

  /** Below two limbs the Toom-6.5 recursion's choice, Toom-22, rejects n × n. */
  lemma Toom6hRecursionNeedsTwoLimbs(n: nat, fftThreshold: nat)
    requires n < 2
    ensures Toom6hSameLengthRecursive(n, fftThreshold) == Toom22 && !Toom22Valid(n, n)
  {
  }
}
