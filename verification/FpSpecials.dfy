/** Operations on NaNs, infinities and zeros: when the result is NaN, and the sign and kind of the
    others (IEEE 754-2019 sections 6.1, 6.3 and 7.2). */
module FpSpecials {
  import opened Words
  import opened FpFormat
  import opened FpValues
  import opened FpOrder
  import opened RoundingSpec
  import opened FpRoundExact
  import opened FpArith
  import opened FpSqrtSquares
  import opened FpConvert
  import opened FpRem

  /** A rounded result is a number, with the sign of the exact one. */
  lemma RatioIsNumber(fm: Fmt, rm: Rm, neg: bool, num: nat, den: nat, exp: int)
    requires num > 0 && den > 0
    ensures var r := RoundRatio(fm, rm, neg, num, den, exp); !IsNan(fm, r) && SignBit(r) == neg
  {
    RatioFacts(num, den, exp);
    RoundRatioRounds(fm, rm, neg, num, den, exp);
  }

  lemma DyIsNumber(fm: Fmt, rm: Rm, d: Dy)
    requires d.m > 0
    ensures var r := DyRound(fm, rm, d); !IsNan(fm, r) && SignBit(r) == d.neg
  {
    RatioIsNumber(fm, rm, d.neg, d.m, 1, d.e);
  }

  lemma SpecialBits(fm: Fmt, neg: bool)
    ensures IsNan(fm, NanBits(fm))
    ensures !IsNan(fm, InfBits(fm, neg)) && SignBit(InfBits(fm, neg)) == neg
    ensures !IsNan(fm, ZeroBits(fm, neg)) && SignBit(ZeroBits(fm, neg)) == neg
  {
    DecodeSpecial(fm, neg);
    DecodeCanonical(fm, InfBits(fm, neg));
    DecodeCanonical(fm, ZeroBits(fm, neg));
  }

  /** The encodings of infinities and zeros are unique. */
  lemma SpecialIs(fm: Fmt, a: Bits)
    requires |a| == W(fm)
    ensures Decode(fm, a).Inf? ==> a == InfBits(fm, SignBit(a))
    ensures Decode(fm, a).Zero? ==> a == ZeroBits(fm, SignBit(a))
  {
    DecodeCanonical(fm, a);
    DecodeSpecial(fm, SignBit(a));
    if Decode(fm, a).Inf? { DecodeInjective(fm, a, InfBits(fm, SignBit(a))); }
    if Decode(fm, a).Zero? { DecodeInjective(fm, a, ZeroBits(fm, SignBit(a))); }
  }

  /** A sum is NaN exactly for a NaN operand or opposite infinities; otherwise an infinite operand
      is the result. */
  lemma AddSpecial(fm: Fmt, rm: Rm, a: Bits, b: Bits)
    requires |a| == |b| == W(fm)
    ensures var x, y, r := Decode(fm, a), Decode(fm, b), Add(fm, rm, a, b);
      && (IsNan(fm, r) <==> x.Nan? || y.Nan? || (x.Inf? && y.Inf? && x != y))
      && (IsNan(fm, r) ==> r == NanBits(fm))
      && (!IsNan(fm, r) && x.Inf? ==> r == a)
      && (!IsNan(fm, r) && y.Inf? ==> r == b)
  {
    SpecialIs(fm, a);
    SpecialIs(fm, b);
    DecodeCanonical(fm, a);
    DecodeCanonical(fm, b);
    SpecialBits(fm, SignBit(a));
    SpecialBits(fm, SignBit(b));
    if IsFin(fm, a) && IsFin(fm, b) { FiniteSum(fm, rm, a, b); }
  }

  lemma FiniteSum(fm: Fmt, rm: Rm, a: Bits, b: Bits)
    requires IsFin(fm, a) && IsFin(fm, b)
    ensures !IsNan(fm, Add(fm, rm, a, b))
  {
    SpecialBits(fm, SignBit(a));
    SpecialBits(fm, rm == Rtn);
    DecodeCanonical(fm, a);
    var d := DyAdd(DyOf(Decode(fm, a)), DyOf(Decode(fm, b)));
    if d.m > 0 { DyIsNumber(fm, rm, d); }
  }

  /** A difference is NaN exactly for a NaN operand or equal infinities; otherwise an infinite
      operand decides, the subtrahend with its sign changed. */
  lemma SubSpecial(fm: Fmt, rm: Rm, a: Bits, b: Bits)
    requires |a| == |b| == W(fm)
    ensures var x, y, r := Decode(fm, a), Decode(fm, b), Sub(fm, rm, a, b);
      && (IsNan(fm, r) <==> x.Nan? || y.Nan? || (x.Inf? && x == y))
      && (IsNan(fm, r) ==> r == NanBits(fm))
      && (!IsNan(fm, r) && x.Inf? ==> r == a)
      && (!IsNan(fm, r) && y.Inf? ==> r == InfBits(fm, !y.neg))
  {
    DecodeNegate(fm, b);
    AddSpecial(fm, rm, a, Negate(b));
    SpecialIs(fm, Negate(b));
    DecodeCanonical(fm, Negate(b));
  }

  predicate ZeroByInf(x: Val, y: Val) { (x.Zero? && y.Inf?) || (x.Inf? && y.Zero?) }

  /** A product is NaN exactly for a NaN operand or zero times infinity; otherwise its sign is the
      exclusive or of the operands' signs, an infinite operand makes it infinite and a zero one
      zero. */
  lemma MulSpecial(fm: Fmt, rm: Rm, a: Bits, b: Bits)
    requires |a| == |b| == W(fm)
    ensures var x, y, r := Decode(fm, a), Decode(fm, b), Mul(fm, rm, a, b);
      && (IsNan(fm, r) <==> x.Nan? || y.Nan? || ZeroByInf(x, y))
      && (IsNan(fm, r) ==> r == NanBits(fm))
      && (!IsNan(fm, r) ==> SignBit(r) == (SignBit(a) != SignBit(b)))
      && (!IsNan(fm, r) && (x.Inf? || y.Inf?) ==> Decode(fm, r).Inf?)
      && (!IsNan(fm, r) && (x.Zero? || y.Zero?) ==> Decode(fm, r).Zero?)
  {
    var x, y, s := Decode(fm, a), Decode(fm, b), SignBit(a) != SignBit(b);
    SpecialBits(fm, s);
    DecodeSpecial(fm, s);
    DecodeCanonical(fm, a);
    DecodeCanonical(fm, b);
    if x.Fin? && y.Fin? { FiniteProduct(fm, rm, a, b); }
  }

  lemma FiniteProduct(fm: Fmt, rm: Rm, a: Bits, b: Bits)
    requires |a| == |b| == W(fm) && Decode(fm, a).Fin? && Decode(fm, b).Fin?
    ensures var r := Mul(fm, rm, a, b); !IsNan(fm, r) && SignBit(r) == (SignBit(a) != SignBit(b))
  {
    var x, y, s := Decode(fm, a), Decode(fm, b), SignBit(a) != SignBit(b);
    DecodeCanonical(fm, a);
    DecodeCanonical(fm, b);
    ProductPositive(x, y, s);
    DyIsNumber(fm, rm, Product(x, y, s));
  }

  /** A quotient is NaN exactly for a NaN operand, zero by zero or infinity by infinity; otherwise
      its sign is the exclusive or of the signs, and division by zero gives infinity. */
  lemma DivSpecial(fm: Fmt, rm: Rm, a: Bits, b: Bits)
    requires |a| == |b| == W(fm)
    ensures var x, y, r := Decode(fm, a), Decode(fm, b), Div(fm, rm, a, b);
      && (IsNan(fm, r) <==> x.Nan? || y.Nan? || (x.Zero? && y.Zero?) || (x.Inf? && y.Inf?))
      && (IsNan(fm, r) ==> r == NanBits(fm))
      && (!IsNan(fm, r) ==> SignBit(r) == (SignBit(a) != SignBit(b)))
      && (!IsNan(fm, r) && (x.Inf? || y.Zero?) ==> Decode(fm, r).Inf?)
      && (!IsNan(fm, r) && (x.Zero? || y.Inf?) ==> Decode(fm, r).Zero?)
  {
    var x, y, s := Decode(fm, a), Decode(fm, b), SignBit(a) != SignBit(b);
    SpecialBits(fm, s);
    DecodeSpecial(fm, s);
    DecodeCanonical(fm, a);
    DecodeCanonical(fm, b);
    if x.Fin? && y.Fin? { FiniteQuotient(fm, rm, a, b); }
  }

  lemma FiniteQuotient(fm: Fmt, rm: Rm, a: Bits, b: Bits)
    requires |a| == |b| == W(fm) && Decode(fm, a).Fin? && Decode(fm, b).Fin?
    ensures var r := Div(fm, rm, a, b); !IsNan(fm, r) && SignBit(r) == (SignBit(a) != SignBit(b))
  {
    var x, y := Decode(fm, a), Decode(fm, b);
    DivIsRatio(fm, rm, a, b);
    RatioIsNumber(fm, rm, SignBit(a) != SignBit(b), x.m, y.m, x.e - y.e);
  }

  /** A fused multiply-add is NaN exactly for a NaN operand, zero times infinity (whatever is
      added), or an infinite product and the opposite infinity; otherwise an infinite product or
      addend decides. */
  lemma FmaSpecial(fm: Fmt, rm: Rm, a: Bits, b: Bits, c: Bits)
    requires |a| == |b| == |c| == W(fm)
    ensures var x, y, z, r := Decode(fm, a), Decode(fm, b), Decode(fm, c), Fma(fm, rm, a, b, c);
      var sp, infinite := SignBit(a) != SignBit(b), x.Inf? || y.Inf?;
      && (IsNan(fm, r) <==>
          x.Nan? || y.Nan? || z.Nan? || ZeroByInf(x, y) || (infinite && z == Inf(!sp)))
      && (IsNan(fm, r) ==> r == NanBits(fm))
      && (!IsNan(fm, r) && infinite ==> r == InfBits(fm, sp))
      && (!IsNan(fm, r) && z.Inf? ==> r == c)
  {
    var x, y, z := Decode(fm, a), Decode(fm, b), Decode(fm, c);
    var sp := SignBit(a) != SignBit(b);
    SpecialIs(fm, c);
    DecodeCanonical(fm, c);
    SpecialBits(fm, sp);
    if IsFin(fm, a) && IsFin(fm, b) && IsFin(fm, c) { FiniteFma(fm, rm, a, b, c); }
  }

  lemma FiniteFma(fm: Fmt, rm: Rm, a: Bits, b: Bits, c: Bits)
    requires IsFin(fm, a) && IsFin(fm, b) && IsFin(fm, c)
    ensures !IsNan(fm, Fma(fm, rm, a, b, c))
  {
    var sp := SignBit(a) != SignBit(b);
    SpecialBits(fm, sp);
    SpecialBits(fm, rm == Rtn);
    var d := DyAdd(Product(Decode(fm, a), Decode(fm, b), sp), DyOf(Decode(fm, c)));
    if d.m > 0 { DyIsNumber(fm, rm, d); }
  }

  /** A root is NaN exactly for a NaN or a negative nonzero operand and has the operand's sign
      otherwise; zeros and plus infinity are their own roots. */
  lemma SqrtSpecial(fm: Fmt, rm: Rm, a: Bits)
    requires |a| == W(fm)
    ensures var x, r := Decode(fm, a), Sqrt(fm, rm, a);
      && (IsNan(fm, r) <==> x.Nan? || (SignBit(a) && !x.Zero?))
      && (if IsNan(fm, r) then r == NanBits(fm) else SignBit(r) == SignBit(a))
      && (!IsNan(fm, r) && !x.Fin? ==> r == a)
  {
    DecodeCanonical(fm, a);
    SpecialIs(fm, a);
    SpecialBits(fm, SignBit(a));
    if Decode(fm, a).Fin? && !SignBit(a) { RootIsNumber(fm, rm, a); }
  }

  lemma RootIsNumber(fm: Fmt, rm: Rm, a: Bits)
    requires |a| == W(fm) && Decode(fm, a).Fin? && !SignBit(a)
    ensures var r := Sqrt(fm, rm, a); !IsNan(fm, r) && !SignBit(r)
  {
    SqrtBySquares(fm, rm, a);
  }

  /** A remainder is NaN exactly for a NaN operand, an infinite dividend or a zero divisor; by an
      infinity it is the dividend. */
  lemma RemSpecial(fm: Fmt, a: Bits, b: Bits)
    requires |a| == |b| == W(fm)
    ensures var x, y, r := Decode(fm, a), Decode(fm, b), FpRemainder(fm, a, b);
      && (IsNan(fm, r) <==> x.Nan? || y.Nan? || x.Inf? || y.Zero?)
      && (IsNan(fm, r) ==> r == NanBits(fm))
      && (!IsNan(fm, r) && y.Inf? ==> r == a)
  {
    SpecialBits(fm, SignBit(a));
    var x, y := Decode(fm, a), Decode(fm, b);
    if IsFin(fm, a) && y.Fin? { RemainderExact(fm, a, b); }
  }

  /** Conversion between formats makes a NaN, the canonical one, of NaNs only; it keeps every other
      sign, and infinities and zeros entirely. */
  lemma ToFpSpecial(src: Fmt, dst: Fmt, rm: Rm, a: Bits)
    requires |a| == W(src)
    ensures var x, r := Decode(src, a), ToFp(src, dst, rm, a);
      && (IsNan(dst, r) <==> x.Nan?)
      && (if IsNan(dst, r) then r == NanBits(dst) else SignBit(r) == SignBit(a))
      && (!x.Fin? ==> Decode(dst, r) == x)
  {
    DecodeCanonical(src, a);
    DecodeSpecial(dst, SignBit(a));
    SpecialBits(dst, SignBit(a));
    var v := Decode(src, a);
    if v.Fin? { RatioIsNumber(dst, rm, v.neg, v.m, 1, v.e); }
  }

  /** Rounding to an integral value does the same. */
  lemma RoundToIntegralSpecial(fm: Fmt, rm: Rm, a: Bits)
    requires |a| == W(fm)
    ensures var x, r := Decode(fm, a), RoundToIntegral(fm, rm, a);
      && (IsNan(fm, r) <==> x.Nan?)
      && (if IsNan(fm, r) then r == NanBits(fm) else SignBit(r) == SignBit(a))
      && (!x.Nan? && !x.Fin? ==> r == a)
  {
    SpecialIs(fm, a);
    SpecialBits(fm, SignBit(a));
    DecodeCanonical(fm, a);
    var v := Decode(fm, a);
    if v.Fin? {
      var m := Integral(rm, v.neg, v.m, v.e);
      if m > 0 { RatioIsNumber(fm, rm, v.neg, m, 1, 0); }
    }
  }
}
