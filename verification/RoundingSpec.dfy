/** Correct rounding as IEEE 754-2019 sections 4.3 and 7.4 state it: by comparing the exact real
    number with every finite value of the format. Nothing here mentions quanta, exponents or the
    oracle's method. */
module RoundingSpec {
  import opened Powers
  import opened Dyadics
  import opened Words
  import opened FpFormat

  function Abs(x: real): real { if x < 0.0 then -x else x }

  /** Where rounding to nearest overflows: half a unit in the last place above the largest finite
      value, `2^emax * (2 - 2^-p)`. */
  ghost function Threshold(fm: Fmt): real { Dyadic(2 * Pow2(P(fm)) - 1, Qmax(fm) - 1) }

  ghost predicate Overflows(fm: Fmt, x: real) { Abs(x) >= Threshold(fm) }

  ghost predicate IsLeastAbove(fm: Fmt, x: real, r: Bits)
  {
    && IsFin(fm, r) && x <= RealVal(fm, r)
    && forall b: Bits :: IsFin(fm, b) && x <= RealVal(fm, b) ==> RealVal(fm, r) <= RealVal(fm, b)
  }

  ghost predicate IsGreatestBelow(fm: Fmt, x: real, r: Bits)
  {
    && IsFin(fm, r) && RealVal(fm, r) <= x
    && forall b: Bits :: IsFin(fm, b) && RealVal(fm, b) <= x ==> RealVal(fm, b) <= RealVal(fm, r)
  }

  ghost predicate IsNearest(fm: Fmt, x: real, r: Bits)
  {
    && IsFin(fm, r)
    && forall b: Bits :: IsFin(fm, b) ==> Abs(RealVal(fm, r) - x) <= Abs(RealVal(fm, b) - x)
  }

  /** `b` is another value exactly as near to `x` as `r`. */
  ghost predicate TiesWith(fm: Fmt, x: real, r: Bits, b: Bits)
  {
    && IsFin(fm, r) && IsFin(fm, b)
    && RealVal(fm, r) != RealVal(fm, b)
    && Abs(RealVal(fm, r) - x) == Abs(RealVal(fm, b) - x)
  }

  ghost predicate IsInf(fm: Fmt, neg: bool, r: Bits)
  {
    |r| == W(fm) && Decode(fm, r) == Inf(neg)
  }

  /** Rounding to nearest, a tie going to the value with an even significand. */
  ghost predicate IsNearestEven(fm: Fmt, x: real, r: Bits)
  {
    IsNearest(fm, x, r) && forall b: Bits :: TiesWith(fm, x, r, b) ==> !r[0]
  }

  /** Rounding to nearest, a tie going to the value of larger magnitude. */
  ghost predicate IsNearestAway(fm: Fmt, x: real, r: Bits)
  {
    && IsNearest(fm, x, r)
    && forall b: Bits :: TiesWith(fm, x, r, b) ==> Abs(RealVal(fm, b)) < Abs(RealVal(fm, r))
  }

  /** `r` is the nonzero real `x` rounded to the format `fm` in the mode `rm`; a zero result keeps
      the sign of `x`. */
  ghost predicate IsRounding(fm: Fmt, rm: Rm, x: real, r: Bits)
  {
    && |r| == W(fm)
    && SignBit(r) == (x < 0.0)
    && match rm
       case Rtp => if x > Omega(fm) then IsInf(fm, false, r) else IsLeastAbove(fm, x, r)
       case Rtn => if x < -Omega(fm) then IsInf(fm, true, r) else IsGreatestBelow(fm, x, r)
       case Rtz => if x > 0.0 then IsGreatestBelow(fm, x, r) else IsLeastAbove(fm, x, r)
       case Rne => if Overflows(fm, x) then IsInf(fm, x < 0.0, r) else IsNearestEven(fm, x, r)
       case Rna => if Overflows(fm, x) then IsInf(fm, x < 0.0, r) else IsNearestAway(fm, x, r)
  }

  // ----- signs -----

  /** The encoding with the exponent and trailing significand of `a` and the sign bit `neg`. */
  function SetSign(a: Bits, neg: bool): (r: Bits)
    requires |a| > 0
    ensures |r| == |a|
  {
    a[|a| - 1 := neg]
  }

  function Negate(a: Bits): (r: Bits)
    requires |a| > 0
    ensures |r| == |a|
  {
    SetSign(a, !SignBit(a))
  }

  function NegVal(v: Val): Val
  {
    match v
    case Nan => Nan
    case Inf(s) => Inf(!s)
    case Zero(s) => Zero(!s)
    case Fin(s, m, e) => Fin(!s, m, e)
  }

  /** Changing the sign bit changes the sign of the value and nothing else. */
  lemma FieldsSetSign(fm: Fmt, a: Bits, neg: bool)
    requires |a| == W(fm)
    ensures Fields(fm, SetSign(a, neg)) == (neg, Fields(fm, a).1, Fields(fm, a).2)
  {
    var r := SetSign(a, neg);
    var w1 := W(fm) - 1;
    PackOfFields(fm, a);
    var (s, e, t) := Fields(fm, a);
    FieldsOfPack(fm, s, e, t);
    FieldsOfPack(fm, neg, e, t);
    UValTake(a, w1);
    UValTake(r, w1);
    ShlOrder(0, 0, w1);
    assert a[..w1] == r[..w1] && a[..w1 + 1] == a && r[..w1 + 1] == r;
    UValInjective(r, Pack(fm, neg, e, t));
  }

  lemma DecodeNegate(fm: Fmt, a: Bits)
    requires |a| == W(fm)
    ensures Decode(fm, Negate(a)) == NegVal(Decode(fm, a))
    ensures Negate(Negate(a)) == a
    ensures IsFin(fm, a) ==> RealVal(fm, Negate(a)) == -RealVal(fm, a)
    ensures Negate(a)[0] == a[0]
  {
    FieldsSetSign(fm, a, !SignBit(a));
    PackOfFields(fm, a);
    var v := Decode(fm, a);
    if v.Fin? { DyadicNeg(v.m, v.e); }
  }

  /** Rounding toward plus and toward minus infinity trade places under negation. */
  function Mirror(rm: Rm): Rm
  {
    match rm case Rtp => Rtn case Rtn => Rtp case _ => rm
  }

  lemma MirrorFin(fm: Fmt, b: Bits)
    requires |b| == W(fm)
    ensures IsFin(fm, b) <==> IsFin(fm, Negate(b))
    ensures IsFin(fm, b) ==> RealVal(fm, Negate(b)) == -RealVal(fm, b)
  {
    DecodeNegate(fm, b);
  }

  lemma MirrorLeast(fm: Fmt, x: real, r: Bits)
    requires |r| == W(fm)
    ensures IsLeastAbove(fm, x, r) ==> IsGreatestBelow(fm, -x, Negate(r))
    ensures IsGreatestBelow(fm, x, r) ==> IsLeastAbove(fm, -x, Negate(r))
  {
    MirrorFin(fm, r);
    forall b: Bits | IsFin(fm, b)
      ensures IsFin(fm, Negate(b)) && RealVal(fm, Negate(b)) == -RealVal(fm, b)
    {
      MirrorFin(fm, b);
    }
  }

  lemma MirrorNearest(fm: Fmt, x: real, r: Bits)
    requires IsNearest(fm, x, r)
    ensures IsNearest(fm, -x, Negate(r))
  {
    MirrorFin(fm, r);
    forall b: Bits | IsFin(fm, b)
      ensures Abs(RealVal(fm, Negate(r)) + x) <= Abs(RealVal(fm, b) + x)
    {
      MirrorFin(fm, b);
      assert Abs(RealVal(fm, r) - x) <= Abs(RealVal(fm, Negate(b)) - x);
    }
  }

  lemma MirrorTie(fm: Fmt, x: real, y: real, r: Bits, b: Bits)
    requires y == -x && |r| == W(fm) && TiesWith(fm, y, Negate(r), b)
    ensures TiesWith(fm, x, r, Negate(b)) && RealVal(fm, Negate(b)) == -RealVal(fm, b)
    ensures RealVal(fm, Negate(r)) == -RealVal(fm, r)
  {
    MirrorFin(fm, r);
    MirrorFin(fm, b);
  }

  lemma MirrorNearestEven(fm: Fmt, x: real, y: real, r: Bits)
    requires y == -x && IsNearestEven(fm, x, r)
    ensures IsNearestEven(fm, y, Negate(r))
  {
    MirrorNearest(fm, x, r);
    DecodeNegate(fm, r);
    forall b: Bits | TiesWith(fm, y, Negate(r), b) ensures !Negate(r)[0] {
      MirrorTie(fm, x, y, r, b);
    }
  }

  lemma MirrorNearestAway(fm: Fmt, x: real, y: real, r: Bits)
    requires y == -x && IsNearestAway(fm, x, r)
    ensures IsNearestAway(fm, y, Negate(r))
  {
    MirrorNearest(fm, x, r);
    forall b: Bits | TiesWith(fm, y, Negate(r), b)
      ensures Abs(RealVal(fm, b)) < Abs(RealVal(fm, Negate(r)))
    {
      MirrorTie(fm, x, y, r, b);
    }
  }

  /** Rounding mirrors under sign. */
  lemma RoundingMirrors(fm: Fmt, rm: Rm, x: real, r: Bits)
    requires x != 0.0 && IsRounding(fm, rm, x, r)
    ensures IsRounding(fm, Mirror(rm), -x, Negate(r))
  {
    DecodeNegate(fm, r);
    match rm {
      case Rtp | Rtn | Rtz => MirrorLeast(fm, x, r);
      case Rne => if !Overflows(fm, x) { MirrorNearestEven(fm, x, -x, r); }
      case Rna => if !Overflows(fm, x) { MirrorNearestAway(fm, x, -x, r); }
    }
  }
}
