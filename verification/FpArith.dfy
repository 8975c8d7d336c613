/** Addition, subtraction, multiplication, division, fused multiply-add and square root: each
    computes its exact result and rounds it once. */
module FpArith {
  import opened Powers
  import opened Dyadics
  import opened Words
  import opened Nats
  import opened FpFormat
  import opened FpValues
  import opened RoundingSpec
  import opened FpRoundExact
  import opened FpLaws

  // ----- exact signed dyadic values -----

  /** A dyadic rational as a sign, a natural and a scale. */
  datatype Dy = Dy(neg: bool, m: nat, e: int)

  ghost function DyReal(d: Dy): real { Dyadic(WithSign(d.neg, d.m), d.e) }

  function DyOf(v: Val): Dy
    requires Finite(v)
  {
    if v.Zero? then Dy(v.neg, 0, 0) else Dy(v.neg, v.m, v.e)
  }

  /** The exact sum. */
  function DyAdd(a: Dy, b: Dy): Dy
  {
    if a.m == 0 then b
    else if b.m == 0 then a
    else
      var e := Min(a.e, b.e);
      var x, y := Shl(a.m, a.e - e), Shl(b.m, b.e - e);
      if a.neg == b.neg then Dy(a.neg, x + y, e)
      else if x >= y then Dy(a.neg, x - y, e)
      else Dy(b.neg, y - x, e)
  }

  lemma DyAddExact(a: Dy, b: Dy)
    ensures DyReal(DyAdd(a, b)) == DyReal(a) + DyReal(b)
  {
    DyadicNeg(0, a.e);
    DyadicNeg(0, b.e);
    if a.m != 0 && b.m != 0 {
      var e := Min(a.e, b.e);
      var x, y := Shl(a.m, a.e - e), Shl(b.m, b.e - e);
      DyadicShl(a.m, a.e - e, e);
      DyadicShl(b.m, b.e - e, e);
      DyadicNeg(a.m, a.e);
      DyadicNeg(b.m, b.e);
      DyadicNeg(x, e);
      DyadicNeg(y, e);
      DyadicAdd(WithSign(a.neg, x), WithSign(b.neg, y), e);
    }
  }

  lemma DyOfReal(fm: Fmt, a: Bits)
    requires IsFin(fm, a)
    ensures DyReal(DyOf(Decode(fm, a))) == RealVal(fm, a)
    ensures DyOf(Decode(fm, a)).m == 0 <==> Decode(fm, a).Zero?
  {
    DyadicNeg(0, 0);
    DecodeCanonical(fm, a);
  }

  lemma DyZero(d: Dy)
    ensures DyReal(d) == 0.0 <==> d.m == 0
    ensures d.m > 0 ==> DyReal(d) == (if d.neg then -Dyadic(d.m, d.e) else Dyadic(d.m, d.e))
    ensures d.m > 0 ==> Dyadic(d.m, d.e) > 0.0
  {
    DyadicNeg(d.m, d.e);
    if d.m > 0 { DyadicPositive(d.m, d.e); }
  }

  /** Rounds a nonzero value. */
  function DyRound(fm: Fmt, rm: Rm, d: Dy): (r: Bits)
    requires d.m > 0
    ensures |r| == W(fm)
  {
    RoundRatio(fm, rm, d.neg, d.m, 1, d.e)
  }

  lemma DyRoundRounds(fm: Fmt, rm: Rm, d: Dy)
    requires d.m > 0
    ensures DyReal(d) != 0.0 && IsRounding(fm, rm, DyReal(d), DyRound(fm, rm, d))
  {
    DyZero(d);
    RatioFacts(d.m, 1, d.e);
    RoundRatioRounds(fm, rm, d.neg, d.m, 1, d.e);
  }

  // ----- the operations -----

  function Add(fm: Fmt, rm: Rm, a: Bits, b: Bits): (r: Bits)
    requires |a| == |b| == W(fm)
    ensures |r| == W(fm)
  {
    var x, y := Decode(fm, a), Decode(fm, b);
    if x.Nan? || y.Nan? then NanBits(fm)
    else if x.Inf? && y.Inf? && x.neg != y.neg then NanBits(fm)
    else if x.Inf? then InfBits(fm, x.neg)
    else if y.Inf? then InfBits(fm, y.neg)
    else if x.Zero? && y.Zero? && x.neg == y.neg then ZeroBits(fm, x.neg)
    else
      var r := DyAdd(DyOf(x), DyOf(y));
      if r.m == 0 then ZeroRule(fm, rm) else DyRound(fm, rm, r)
  }

  function Sub(fm: Fmt, rm: Rm, a: Bits, b: Bits): (r: Bits)
    requires |a| == |b| == W(fm)
    ensures |r| == W(fm)
  {
    Add(fm, rm, a, Negate(b))
  }

  function Mul(fm: Fmt, rm: Rm, a: Bits, b: Bits): (r: Bits)
    requires |a| == |b| == W(fm)
    ensures |r| == W(fm)
  {
    var x, y := Decode(fm, a), Decode(fm, b);
    var s := SignBit(a) != SignBit(b);
    if x.Nan? || y.Nan? then NanBits(fm)
    else if (x.Zero? && y.Inf?) || (x.Inf? && y.Zero?) then NanBits(fm)
    else if x.Inf? || y.Inf? then InfBits(fm, s)
    else if x.Zero? || y.Zero? then ZeroBits(fm, s)
    else
      FinPositive(fm, a);
      FinPositive(fm, b);
      ProductPositive(x, y, s);
      DyRound(fm, rm, Product(x, y, s))
  }

  function Div(fm: Fmt, rm: Rm, a: Bits, b: Bits): (r: Bits)
    requires |a| == |b| == W(fm)
    ensures |r| == W(fm)
  {
    var x, y := Decode(fm, a), Decode(fm, b);
    var s := SignBit(a) != SignBit(b);
    if x.Nan? || y.Nan? then NanBits(fm)
    else if (x.Zero? && y.Zero?) || (x.Inf? && y.Inf?) then NanBits(fm)
    else if x.Inf? then InfBits(fm, s)
    else if y.Inf? then ZeroBits(fm, s)
    else if x.Fin? && y.Zero? then InfBits(fm, s)
    else if x.Zero? && y.Fin? then ZeroBits(fm, s)
    else
      FinPositive(fm, a);
      FinPositive(fm, b);
      RoundRatio(fm, rm, s, x.m, y.m, x.e - y.e)
  }

  /** The exact product of two finite values. */
  function Product(x: Val, y: Val, sp: bool): Dy
    requires Finite(x) && Finite(y)
  {
    if x.Fin? && y.Fin? then Dy(sp, x.m * y.m, x.e + y.e) else Dy(sp, 0, 0)
  }

  /** Fused multiply-add: product and sum are exact, and only the sum is rounded. */
  function Fma(fm: Fmt, rm: Rm, a: Bits, b: Bits, c: Bits): (r: Bits)
    requires |a| == |b| == |c| == W(fm)
    ensures |r| == W(fm)
  {
    var x, y, z := Decode(fm, a), Decode(fm, b), Decode(fm, c);
    var sp := SignBit(a) != SignBit(b);
    if x.Nan? || y.Nan? || z.Nan? then NanBits(fm)
    else if (x.Zero? && y.Inf?) || (x.Inf? && y.Zero?) then NanBits(fm)
    else if x.Inf? || y.Inf? then
      if z.Inf? && z.neg != sp then NanBits(fm) else InfBits(fm, sp)
    else if z.Inf? then c
    else
      var product := Product(x, y, sp);
      var r := DyAdd(product, DyOf(z));
      if r.m != 0 then DyRound(fm, rm, r)
      else if z.Zero? && product.m == 0 && z.neg == sp then ZeroBits(fm, sp)
      else ZeroRule(fm, rm)
  }

  function Sqrt(fm: Fmt, rm: Rm, a: Bits): (r: Bits)
    requires |a| == W(fm)
    ensures |r| == W(fm)
  {
    var x := Decode(fm, a);
    match x
    case Nan => NanBits(fm)
    case Zero(s) => ZeroBits(fm, s)
    case Inf(s) => if s then NanBits(fm) else InfBits(fm, false)
    case Fin(s, m, e) =>
      if s then NanBits(fm)
      else
        FinPositive(fm, a);
        RoundSqrt(fm, rm, m, e)
  }

  lemma FinPositive(fm: Fmt, a: Bits)
    requires |a| == W(fm)
    ensures Decode(fm, a).Fin? ==> Decode(fm, a).m > 0
  {
    DecodeCanonical(fm, a);
  }

  // ----- each operation rounds its exact result once -----

  /** The sign of an exact zero sum: the common sign of two zeros, otherwise the mode's choice. */
  lemma AddRounds(fm: Fmt, rm: Rm, a: Bits, b: Bits)
    requires IsFin(fm, a) && IsFin(fm, b)
    ensures var x, y, r := Decode(fm, a), Decode(fm, b), Add(fm, rm, a, b);
      var sum := RealVal(fm, a) + RealVal(fm, b);
      if sum != 0.0 then IsRounding(fm, rm, sum, r)
      else r == ZeroBits(fm, if x.Zero? && y.Zero? && x.neg == y.neg then x.neg else rm == Rtn)
  {
    var x, y := Decode(fm, a), Decode(fm, b);
    DyOfReal(fm, a);
    DyOfReal(fm, b);
    DyAddExact(DyOf(x), DyOf(y));
    var r := DyAdd(DyOf(x), DyOf(y));
    DyZero(r);
    if r.m > 0 { AddNonzero(fm, rm, a, b, r, RealVal(fm, a) + RealVal(fm, b)); }
  }

  lemma AddNonzero(fm: Fmt, rm: Rm, a: Bits, b: Bits, d: Dy, exact: real)
    requires IsFin(fm, a) && IsFin(fm, b)
    requires d == DyAdd(DyOf(Decode(fm, a)), DyOf(Decode(fm, b))) && d.m > 0 && exact == DyReal(d)
    ensures IsRounding(fm, rm, exact, Add(fm, rm, a, b))
  {
    DyRoundRounds(fm, rm, d);
  }

  /** Subtraction rounds the exact difference once; the sign of an exact zero is that of two zeros
      of opposite sign, otherwise the mode's choice. */
  lemma SubRounds(fm: Fmt, rm: Rm, a: Bits, b: Bits)
    requires IsFin(fm, a) && IsFin(fm, b)
    ensures var x, y, r := Decode(fm, a), Decode(fm, b), Sub(fm, rm, a, b);
      var difference := RealVal(fm, a) - RealVal(fm, b);
      if difference != 0.0 then IsRounding(fm, rm, difference, r)
      else r == ZeroBits(fm, if x.Zero? && y.Zero? && x.neg != y.neg then x.neg else rm == Rtn)
  {
    DecodeNegate(fm, b);
    AddRounds(fm, rm, a, Negate(b));
  }

  /** The product of two finite values, as one dyadic. */
  lemma MulReal(x: Val, y: Val, rx: real, ry: real, xy: real)
    requires Finite(x) && Finite(y)
    requires rx == RealOf(x) && ry == RealOf(y) && xy == rx * ry
    ensures DyReal(Product(x, y, x.neg != y.neg)) == xy
  {
    if x.Fin? && y.Fin? {
      DyadicMul(WithSign(x.neg, x.m), x.e, WithSign(y.neg, y.m), y.e);
      SignedProduct(x.neg, x.m, y.neg, y.m);
    } else {
      DyadicNeg(0, 0);
      if x.Zero? { ZeroTimes(ry); } else { ZeroTimes(rx); }
    }
  }

  lemma ZeroTimes(x: real)
    ensures 0.0 * x == 0.0 == x * 0.0
  {
  }

  lemma SignedProduct(s: bool, m: int, t: bool, n: int)
    ensures WithSign(s, m) * WithSign(t, n) == WithSign(s != t, m * n)
  {
  }

  lemma ProductPositive(x: Val, y: Val, sp: bool)
    requires Finite(x) && Finite(y) && (x.Fin? ==> x.m > 0) && (y.Fin? ==> y.m > 0)
    ensures Product(x, y, sp).m == 0 <==> x.Zero? || y.Zero?
  {
    if x.Fin? && y.Fin? { MulLe(1, x.m, y.m); }
  }

  /** The exact product of finite operands, rounded once; a zero has the sign of the product. */
  lemma MulRounds(fm: Fmt, rm: Rm, a: Bits, b: Bits, x: real)
    requires IsFin(fm, a) && IsFin(fm, b)
    requires x == RealVal(fm, a) * RealVal(fm, b)
    ensures x == 0.0 <==> Decode(fm, a).Zero? || Decode(fm, b).Zero?
    ensures var r := Mul(fm, rm, a, b);
      if x != 0.0 then IsRounding(fm, rm, x, r) else r == ZeroBits(fm, SignBit(a) != SignBit(b))
  {
    if Decode(fm, a).Fin? && Decode(fm, b).Fin? {
      ProductIs(fm, a, b, x);
      MulRoundsProduct(fm, rm, a, b, x);
    } else {
      ZeroTimes(RealVal(fm, a));
      ZeroTimes(RealVal(fm, b));
    }
  }

  lemma MulRoundsProduct(fm: Fmt, rm: Rm, a: Bits, b: Bits, x: real)
    requires |a| == |b| == W(fm) && Decode(fm, a).Fin? && Decode(fm, b).Fin?
    requires x == DyReal(Product(Decode(fm, a), Decode(fm, b), SignBit(a) != SignBit(b)))
    ensures x != 0.0 && IsRounding(fm, rm, x, Mul(fm, rm, a, b))
  {
    var u, v := Decode(fm, a), Decode(fm, b);
    DecodeCanonical(fm, a);
    DecodeCanonical(fm, b);
    ProductPositive(u, v, u.neg != v.neg);
    DyRoundRounds(fm, rm, Product(u, v, u.neg != v.neg));
  }

  /** The quotient of finite operands, characterized by its product with the divisor and rounded
      once; a zero has the sign of the quotient. */
  lemma DivRounds(fm: Fmt, rm: Rm, a: Bits, b: Bits, x: real)
    requires IsFin(fm, a) && IsFin(fm, b) && !Decode(fm, b).Zero?
    requires x * RealVal(fm, b) == RealVal(fm, a)
    ensures x == 0.0 <==> Decode(fm, a).Zero?
    ensures var r := Div(fm, rm, a, b);
      if x != 0.0 then IsRounding(fm, rm, x, r) else r == ZeroBits(fm, SignBit(a) != SignBit(b))
  {
    var u, v := Decode(fm, a), Decode(fm, b);
    DecodeCanonical(fm, a);
    DecodeCanonical(fm, b);
    if u.Fin? {
      QuotientReal(u, v, x, RealVal(fm, b), RealVal(fm, a));
      DivRoundsQuotient(fm, rm, a, b, x);
    } else {
      DyadicPositive(v.m, v.e);
      DyadicNeg(v.m, v.e);
      ZeroFactor(x, RealVal(fm, b));
    }
  }

  lemma ZeroFactor(x: real, y: real)
    requires x * y == 0.0 && y != 0.0
    ensures x == 0.0
  {
  }

  lemma DivRoundsQuotient(fm: Fmt, rm: Rm, a: Bits, b: Bits, x: real)
    requires |a| == |b| == W(fm) && Decode(fm, a).Fin? && Decode(fm, b).Fin?
    requires var u, v := Decode(fm, a), Decode(fm, b);
      v.m > 0 && x == SignedRatio(u.neg != v.neg, u.m, v.m, u.e - v.e)
    ensures x != 0.0 && IsRounding(fm, rm, x, Div(fm, rm, a, b))
  {
    var u, v := Decode(fm, a), Decode(fm, b);
    DivIsRatio(fm, rm, a, b);
    DecodeCanonical(fm, a);
    DecodeCanonical(fm, b);
    SignedRatioRounds(fm, rm, u.neg != v.neg, u.m, v.m, u.e - v.e);
  }

  /** The last branch of `Div`. */
  lemma DivIsRatio(fm: Fmt, rm: Rm, a: Bits, b: Bits)
    requires |a| == |b| == W(fm) && Decode(fm, a).Fin? && Decode(fm, b).Fin?
    ensures var u, v := Decode(fm, a), Decode(fm, b);
      && u.m > 0 && v.m > 0
      && Div(fm, rm, a, b) == RoundRatio(fm, rm, SignBit(a) != SignBit(b), u.m, v.m, u.e - v.e)
  {
    FinPositive(fm, a);
    FinPositive(fm, b);
  }

  lemma SignedRatioRounds(fm: Fmt, rm: Rm, neg: bool, num: nat, den: nat, exp: int)
    requires num > 0 && den > 0
    ensures var x := SignedRatio(neg, num, den, exp);
      x != 0.0 && IsRounding(fm, rm, x, RoundRatio(fm, rm, neg, num, den, exp))
  {
    RatioFacts(num, den, exp);
    RoundRatioRounds(fm, rm, neg, num, den, exp);
  }

  ghost function SignedRatio(neg: bool, num: nat, den: nat, exp: int): real
    requires den > 0
  {
    if neg then -Ratio(num, den, exp) else Ratio(num, den, exp)
  }

  lemma QuotientReal(u: Val, v: Val, x: real, rv: real, ru: real)
    requires u.Fin? && v.Fin? && u.m > 0 && v.m > 0
    requires rv == RealOf(v) && ru == RealOf(u) && x * rv == ru
    ensures x == SignedRatio(u.neg != v.neg, u.m, v.m, u.e - v.e)
  {
    DyadicPositive(v.m, v.e);
    DyadicNeg(v.m, v.e);
    DyadicNeg(u.m, u.e);
    RatioTimes(u.m, v.m, u.e - v.e, v.e);
    SameQuotient(x, Ratio(u.m, v.m, u.e - v.e), Dyadic(v.m, v.e), Dyadic(u.m, u.e), u.neg, v.neg, rv, ru);
  }

  lemma RatioTimes(num: nat, den: nat, exp: int, k: int)
    requires den > 0
    ensures Ratio(num, den, exp) * Dyadic(den, k) == Dyadic(num, exp + k)
  {
    DyadicMul(1, k, den, 0);
    DyadicMul(num, exp, 1, k);
    CancelFactor(Dyadic(num, exp), den as real, Dyadic(1, k));
  }

  lemma CancelFactor(n: real, d: real, f: real)
    requires d != 0.0
    ensures (n / d) * (f * d) == n * f
  {
    var q := n / d;
    assert q * d == n;
    assert q * (f * d) == (q * d) * f;
  }

  lemma SameQuotient(x: real, q: real, d: real, n: real, s: bool, t: bool, rv: real, ru: real)
    requires d > 0.0 && q * d == n
    requires rv == (if t then -d else d) && ru == (if s then -n else n) && x * rv == ru
    ensures x == if s != t then -q else q
  {
    var y := if s != t then -q else q;
    assert y * d == if s != t then -n else n;
    assert x * d == y * d;
    if x < y { RMulLt(x, y, d); }
    if y < x { RMulLt(y, x, d); }
  }

  lemma FmaRounds(fm: Fmt, rm: Rm, a: Bits, b: Bits, c: Bits, ab: real)
    requires IsFin(fm, a) && IsFin(fm, b) && IsFin(fm, c)
    requires ab == RealVal(fm, a) * RealVal(fm, b)
    ensures var x, y, z, r := Decode(fm, a), Decode(fm, b), Decode(fm, c), Fma(fm, rm, a, b, c);
      var sp, exact := SignBit(a) != SignBit(b), ab + RealVal(fm, c);
      if exact != 0.0 then IsRounding(fm, rm, exact, r)
      else r == ZeroBits(fm, if (x.Zero? || y.Zero?) && z.Zero? && z.neg == sp then sp else rm == Rtn)
  {
    ProductIs(fm, a, b, ab);
    FmaRoundsProduct(fm, rm, a, b, c, ab);
  }

  lemma ProductIs(fm: Fmt, a: Bits, b: Bits, ab: real)
    requires IsFin(fm, a) && IsFin(fm, b) && ab == RealVal(fm, a) * RealVal(fm, b)
    ensures ab == DyReal(Product(Decode(fm, a), Decode(fm, b), SignBit(a) != SignBit(b)))
  {
    DecodeCanonical(fm, a);
    DecodeCanonical(fm, b);
    MulReal(Decode(fm, a), Decode(fm, b), RealVal(fm, a), RealVal(fm, b), ab);
  }

  lemma FmaRoundsProduct(fm: Fmt, rm: Rm, a: Bits, b: Bits, c: Bits, ab: real)
    requires IsFin(fm, a) && IsFin(fm, b) && IsFin(fm, c)
    requires ab == DyReal(Product(Decode(fm, a), Decode(fm, b), SignBit(a) != SignBit(b)))
    ensures var x, y, z, r := Decode(fm, a), Decode(fm, b), Decode(fm, c), Fma(fm, rm, a, b, c);
      var sp, exact := SignBit(a) != SignBit(b), ab + RealVal(fm, c);
      if exact != 0.0 then IsRounding(fm, rm, exact, r)
      else r == ZeroBits(fm, if (x.Zero? || y.Zero?) && z.Zero? && z.neg == sp then sp else rm == Rtn)
  {
    var x, y, z := Decode(fm, a), Decode(fm, b), Decode(fm, c);
    var sp := SignBit(a) != SignBit(b);
    var d := DyAdd(Product(x, y, sp), DyOf(z));
    DyOfReal(fm, c);
    DyAddExact(Product(x, y, sp), DyOf(z));
    DyZero(d);
    if d.m > 0 { FmaNonzero(fm, rm, a, b, c, d, ab + RealVal(fm, c)); } else { FmaZeroSum(fm, rm, a, b, c, d); }
  }

  lemma FmaNonzero(fm: Fmt, rm: Rm, a: Bits, b: Bits, c: Bits, d: Dy, exact: real)
    requires IsFin(fm, a) && IsFin(fm, b) && IsFin(fm, c)
    requires d == DyAdd(Product(Decode(fm, a), Decode(fm, b), SignBit(a) != SignBit(b)), DyOf(Decode(fm, c)))
    requires d.m > 0 && exact == DyReal(d)
    ensures IsRounding(fm, rm, exact, Fma(fm, rm, a, b, c))
  {
    DyRoundRounds(fm, rm, d);
  }

  lemma FmaZeroSum(fm: Fmt, rm: Rm, a: Bits, b: Bits, c: Bits, d: Dy)
    requires IsFin(fm, a) && IsFin(fm, b) && IsFin(fm, c)
    requires d == DyAdd(Product(Decode(fm, a), Decode(fm, b), SignBit(a) != SignBit(b)), DyOf(Decode(fm, c)))
    requires d.m == 0
    ensures var x, y, z := Decode(fm, a), Decode(fm, b), Decode(fm, c);
      var sp := SignBit(a) != SignBit(b);
      Fma(fm, rm, a, b, c) ==
        ZeroBits(fm, if (x.Zero? || y.Zero?) && z.Zero? && z.neg == sp then sp else rm == Rtn)
  {
    DecodeCanonical(fm, a);
    DecodeCanonical(fm, b);
    ProductPositive(Decode(fm, a), Decode(fm, b), SignBit(a) != SignBit(b));
  }

  /** For every positive operand and its real square root. */
  lemma SqrtRounds(fm: Fmt, rm: Rm, a: Bits, s: real)
    requires |a| == W(fm) && Decode(fm, a).Fin? && !SignBit(a)
    requires s > 0.0 && s * s == RealVal(fm, a)
    ensures IsRounding(fm, rm, s, Sqrt(fm, rm, a))
    ensures Sqrt(fm, Rne, a) == Sqrt(fm, Rna, a)
  {
    DecodeCanonical(fm, a);
    var x := Decode(fm, a);
    RoundSqrtRounds(fm, rm, x.m, x.e, s);
    SqrtNearestModesAgree(fm, x.m, x.e);
  }

  // ----- identities, bit for bit -----

  lemma AddCommutes(fm: Fmt, rm: Rm, a: Bits, b: Bits)
    requires |a| == |b| == W(fm)
    ensures Add(fm, rm, a, b) == Add(fm, rm, b, a)
  {
    if IsFin(fm, a) && IsFin(fm, b) {
      AddRounds(fm, rm, a, b);
      AddRounds(fm, rm, b, a);
      var x := RealVal(fm, a) + RealVal(fm, b);
      if x != 0.0 { RoundingUnique(fm, rm, x, Add(fm, rm, a, b), Add(fm, rm, b, a)); }
    }
  }

  /** The encoding of one. */
  function One(fm: Fmt): (r: Bits)
    ensures |r| == W(fm)
  {
    QuantumRange(fm);
    Pack(fm, false, Emax(fm), 0)
  }

  lemma OneIsOne(fm: Fmt)
    ensures IsFin(fm, One(fm)) && Decode(fm, One(fm)).Fin? && !SignBit(One(fm))
    ensures RealVal(fm, One(fm)) == 1.0
  {
    QuantumRange(fm);
    Pow2Mono(1, fm.eb - 1);
    FieldsOfPack(fm, false, Emax(fm), 0);
    DecodeCanonical(fm, One(fm));
    DyadicPow2(P(fm) - 1, 1 - P(fm));
  }

  /** Multiplying by one and adding is adding, for every pair of operands. */
  lemma FmaOneIsAdd(fm: Fmt, rm: Rm, a: Bits, c: Bits)
    requires |a| == |c| == W(fm)
    ensures Fma(fm, rm, a, One(fm), c) == Add(fm, rm, a, c)
  {
    OneIsOne(fm);
    DecodeCanonical(fm, a);
    DecodeCanonical(fm, c);
    if IsFin(fm, a) && IsFin(fm, c) {
      FmaRounds(fm, rm, a, One(fm), c, RealVal(fm, a));
      AddRounds(fm, rm, a, c);
      var x := RealVal(fm, a) + RealVal(fm, c);
      if x != 0.0 {
        RoundingUnique(fm, rm, x, Fma(fm, rm, a, One(fm), c), Add(fm, rm, a, c));
      }
    } else if Decode(fm, c).Inf? && !Decode(fm, a).Inf? {
      DecodeSpecial(fm, SignBit(c));
      DecodeInjective(fm, c, InfBits(fm, SignBit(c)));
    }
  }

  /** Adding either zero to a nonzero product leaves the product. */
  lemma FmaZeroIsMul(fm: Fmt, rm: Rm, a: Bits, b: Bits, neg: bool)
    requires |a| == |b| == W(fm) && Decode(fm, a).Fin? && Decode(fm, b).Fin?
    ensures Fma(fm, rm, a, b, ZeroBits(fm, neg)) == Mul(fm, rm, a, b)
  {
    DecodeSpecial(fm, neg);
    var x := RealVal(fm, a) * RealVal(fm, b);
    MulRounds(fm, rm, a, b, x);
    FmaRounds(fm, rm, a, b, ZeroBits(fm, neg), x);
    RoundingUnique(fm, rm, x, Fma(fm, rm, a, b, ZeroBits(fm, neg)), Mul(fm, rm, a, b));
  }

  // ----- exact subtraction -----

  /** Rounding a value the encoder accepts returns exactly that value. */
  lemma RoundingOfEncodable(fm: Fmt, rm: Rm, neg: bool, c: nat, q: int, x: real, r: Bits)
    requires EncodeOk(fm, c, q) && x == (if neg then -Dyadic(c, q) else Dyadic(c, q))
    requires IsRounding(fm, rm, x, r)
    ensures IsFin(fm, r) && RealVal(fm, r) == x && x != 0.0 && r == Encode(fm, neg, c, q)
  {
    var a := Encode(fm, neg, c, q);
    DecodeEncode(fm, neg, c, q);
    DyadicNeg(Decode(fm, a).m, Decode(fm, a).e);
    DyadicPositive(c, q);
    RoundingOfValue(fm, rm, a);
    RoundingUnique(fm, rm, x, a, r);
  }

  /** When the larger of two magnitudes is at most twice the smaller, their difference is a
      multiple of the smaller's quantum that fits the precision. */
  lemma DifferenceEncodable(fm: Fmt, m: nat, e: int, n: nat, f: int) returns (c: nat)
    requires Canonical(fm, m, e) && Canonical(fm, n, f)
    requires Dyadic(n, f) < Dyadic(m, e) <= 2.0 * Dyadic(n, f)
    ensures EncodeOk(fm, c, f) && Dyadic(c, f) == Dyadic(m, e) - Dyadic(n, f)
  {
    if e < f { CanonicalLess(fm, m, e, n, f); }
    var i := Shl(m, e - f);
    DyadicShl(m, e - f, f);
    DyadicOrder(n, i, f);
    DyadicDouble(n, f);
    DyadicOrder(2 * n, i, f);
    c := i - n;
    DyadicAdd(c, n, f);
    OmegaIsLargest(fm, n, f);
    DyadicOrder(c, n, f);
    SmallEncodable(fm, c, f);
  }

  /** Subtraction of operands within a factor of two of each other is exact in every mode. */
  lemma Sterbenz(fm: Fmt, rm: Rm, a: Bits, b: Bits)
    requires IsFin(fm, a) && IsFin(fm, b)
    requires RealVal(fm, b) <= 2.0 * RealVal(fm, a) && RealVal(fm, a) <= 2.0 * RealVal(fm, b)
    ensures var r := Sub(fm, rm, a, b);
      IsFin(fm, r) && RealVal(fm, r) == RealVal(fm, a) - RealVal(fm, b)
  {
    var x, y, r := RealVal(fm, a), RealVal(fm, b), Sub(fm, rm, a, b);
    DecodeNegate(fm, b);
    AddRounds(fm, rm, a, Negate(b));
    DecodeSpecial(fm, true);
    DecodeSpecial(fm, false);
    if x != y {
      FinRange(fm, a);
      FinRange(fm, b);
      DecodeCanonical(fm, a);
      DecodeCanonical(fm, b);
      var u, v := Decode(fm, a), Decode(fm, b);
      if y < x {
        var c := DifferenceEncodable(fm, u.m, u.e, v.m, v.e);
        RoundingOfEncodable(fm, rm, false, c, v.e, x - y, r);
      } else {
        var c := DifferenceEncodable(fm, v.m, v.e, u.m, u.e);
        RoundingOfEncodable(fm, rm, true, c, u.e, x - y, r);
      }
    }
  }
}
