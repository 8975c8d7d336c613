/** Rounding to integers, conversions to and from integers, and conversions between formats. */
module FpConvert {
  import opened Powers
  import opened Dyadics
  import opened Words
  import opened Nats
  import opened FpFormat
  import opened FpValues
  import opened FpOrder
  import opened RoundingSpec
  import opened FpRound
  import opened FpRoundExact
  import opened FpLaws
  import opened FpArith

  // ----- rounding a real number to an integer -----

  function Ceiling(x: real): int { -((-x).Floor) }

  /** The integer a mode takes for the real `x`: floor, ceiling, truncation, or nearest with ties
      to even or away from zero. */
  function RoundInt(rm: Rm, x: real): int
  {
    var lo := x.Floor;
    var f := x - lo as real;
    match rm
    case Rtn => lo
    case Rtp => Ceiling(x)
    case Rtz => if x < 0.0 then Ceiling(x) else lo
    case Rne => if f < 0.5 || (f == 0.5 && lo % 2 == 0) then lo else lo + 1
    case Rna => if f < 0.5 || (f == 0.5 && x < 0.0) then lo else lo + 1
  }

  lemma FloorIs(x: real, n: int)
    requires n as real <= x < (n + 1) as real
    ensures x.Floor == n
  {
  }

  lemma CeilingIs(x: real, n: int)
    requires (n - 1) as real < x <= n as real
    ensures Ceiling(x) == n
  {
    FloorIs(-x, -n);
  }

  lemma RoundIntMonotone(rm: Rm, x: real, y: real)
    requires x <= y
    ensures RoundInt(rm, x) <= RoundInt(rm, y)
  {
  }

  lemma RoundIntOfInt(rm: Rm, n: int)
    ensures RoundInt(rm, n as real) == n
  {
    FloorIs(n as real, n);
    CeilingIs(n as real, n);
  }

  // ----- the oracle's integer rounding -----

  /** The integer the mode takes for a dyadic, without its sign: shifted out exactly, or the quotient
      by `2^-e` raised by one when the remainder and the mode say so. */
  function Integral(rm: Rm, neg: bool, m: nat, e: int): nat
  {
    if e >= 0 then Shl(m, e)
    else
      var d := Pow2(-e);
      Chosen(rm, neg, Quot(m, d), Classify(Rem(m, d), d))
  }

  /** Locating a magnitude at the quantum 1 gives its floor and its fraction. */
  lemma LocatedFloor(x: real, k: nat, f: Frac)
    requires Located(x, k, f, 0)
    ensures x.Floor == k
    ensures match f
      case FZero => x == k as real
      case FBelow => k as real < x < k as real + 0.5
      case FHalf => x == k as real + 0.5
      case FAbove => k as real + 0.5 < x < k as real + 1.0
  {
    Midpoint(k, 0);
    DyadicDouble(k, -1);
    DyadicAdd(2 * k, 1, -1);
    FloorIs(x, k);
  }

  lemma ChosenIsRoundInt(rm: Rm, neg: bool, x: real, k: nat, f: Frac)
    requires Located(x, k, f, 0)
    ensures WithSign(neg, Chosen(rm, neg, k, f)) == RoundInt(rm, if neg then -x else x)
  {
    LocatedFloor(x, k, f);
    if f.FZero? {
      RoundIntOfInt(rm, WithSign(neg, k));
    } else {
      var n: int := k;
      FloorIs(-x, -n - 1);
      CeilingIs(x, n + 1);
      CeilingIs(-x, -n);
    }
  }

  lemma IntegralIsRoundInt(rm: Rm, neg: bool, m: nat, e: int)
    requires m > 0
    ensures WithSign(neg, Integral(rm, neg, m, e)) ==
      RoundInt(rm, if neg then -Dyadic(m, e) else Dyadic(m, e))
  {
    if e >= 0 {
      DyadicShl(m, e, 0);
      RoundIntOfInt(rm, WithSign(neg, Shl(m, e)));
    } else {
      FractionLocated(m, e);
      var d := Pow2(-e);
      ChosenIsRoundInt(rm, neg, Dyadic(m, e), Quot(m, d), Classify(Rem(m, d), d));
    }
  }

  lemma FractionLocated(m: nat, e: int)
    requires m > 0 && e < 0
    ensures var d := Pow2(-e); Located(Dyadic(m, e), Quot(m, d), Classify(Rem(m, d), d), 0)
  {
    RatioFacts(m, 1, e);
    RatioLocated(m, 1, e, 0);
    ShlOne(-e);
  }

  /** The oracle's integer for a finite operand. */
  function IntegerOf(fm: Fmt, rm: Rm, a: Bits): int
    requires IsFin(fm, a)
  {
    match Decode(fm, a)
    case Fin(neg, m, e) => WithSign(neg, Integral(rm, neg, m, e))
    case _ => 0
  }

  lemma IntegerOfIs(fm: Fmt, rm: Rm, a: Bits)
    requires IsFin(fm, a)
    ensures IntegerOf(fm, rm, a) == RoundInt(rm, RealVal(fm, a))
  {
    DecodeCanonical(fm, a);
    var v := Decode(fm, a);
    if v.Fin? {
      IntegralIsRoundInt(rm, v.neg, v.m, v.e);
      DyadicNeg(v.m, v.e);
    } else {
      RoundIntOfInt(rm, 0);
    }
  }

  // ----- roundToIntegral -----

  function RoundToIntegral(fm: Fmt, rm: Rm, a: Bits): (r: Bits)
    requires |a| == W(fm)
    ensures |r| == W(fm)
  {
    match Decode(fm, a)
    case Nan => NanBits(fm)
    case Inf(_) => a
    case Zero(_) => a
    case Fin(neg, m, e) =>
      var k := Integral(rm, neg, m, e);
      if k == 0 then ZeroBits(fm, neg) else RoundRatio(fm, rm, neg, k, 1, 0)
  }

  /** The integer of a canonical value fits the precision, or is the value itself. */
  lemma IntegralEncodable(fm: Fmt, rm: Rm, neg: bool, m: nat, e: int)
    requires Canonical(fm, m, e)
    ensures var k := Integral(rm, neg, m, e);
      k > 0 && Dyadic(k, 0) <= Omega(fm) ==> EncodeOk(fm, k, 0)
  {
    var k := Integral(rm, neg, m, e);
    QuantumRange(fm);
    if e >= 0 {
      DyadicShl(m, e, 0);
      if k > 0 { SameValueEncodable(fm, m, e, k, 0); }
    } else {
      QuotSmall(m, Pow2(-e));
      if k > 0 && Dyadic(k, 0) <= Omega(fm) { SmallEncodable(fm, k, 0); }
    }
  }

  lemma QuotSmall(m: nat, d: nat)
    requires m > 0 && d >= 2
    ensures Quot(m, d) + 1 <= m || (m == 1 && Quot(m, d) == 0)
    ensures Quot(m, d) < m
  {
    QuotRem(m, d);
    MulLe(2, d, Quot(m, d));
    MulComm(d, Quot(m, d));
  }

  /** The result is the mode's integer, rounded to the format if need be; a zero result has the
      sign of the operand. */
  lemma RoundToIntegralRounds(fm: Fmt, rm: Rm, a: Bits)
    requires IsFin(fm, a)
    ensures var r, n := RoundToIntegral(fm, rm, a), RoundInt(rm, RealVal(fm, a));
      if n != 0 then IsRounding(fm, rm, n as real, r) else r == ZeroBits(fm, SignBit(a))
  {
    IntegerOfIs(fm, rm, a);
    RoundToIntegralOf(fm, rm, a, IntegerOf(fm, rm, a));
  }

  lemma RoundToIntegralOf(fm: Fmt, rm: Rm, a: Bits, n: int)
    requires IsFin(fm, a) && n == IntegerOf(fm, rm, a)
    ensures var r := RoundToIntegral(fm, rm, a);
      if n != 0 then IsRounding(fm, rm, n as real, r) else r == ZeroBits(fm, SignBit(a))
  {
    DecodeCanonical(fm, a);
    var v := Decode(fm, a);
    if n != 0 {
      IntegerRounds(fm, rm, v.neg, Integral(rm, v.neg, v.m, v.e));
    } else if v.Zero? {
      DecodeSpecial(fm, SignBit(a));
      DecodeInjective(fm, a, ZeroBits(fm, SignBit(a)));
    }
  }

  /** It is exactly the integer whenever the format can hold it. */
  lemma RoundToIntegralExact(fm: Fmt, rm: Rm, a: Bits)
    requires IsFin(fm, a) && Abs(RoundInt(rm, RealVal(fm, a)) as real) <= Omega(fm)
    ensures var r := RoundToIntegral(fm, rm, a);
      IsFin(fm, r) && RealVal(fm, r) == RoundInt(rm, RealVal(fm, a)) as real
  {
    IntegerOfIs(fm, rm, a);
    RoundToIntegralOfExact(fm, rm, a, IntegerOf(fm, rm, a));
  }

  lemma RoundToIntegralOfExact(fm: Fmt, rm: Rm, a: Bits, n: int)
    requires IsFin(fm, a) && n == IntegerOf(fm, rm, a) && Abs(n as real) <= Omega(fm)
    ensures var r := RoundToIntegral(fm, rm, a); IsFin(fm, r) && RealVal(fm, r) == n as real
  {
    DecodeCanonical(fm, a);
    var v := Decode(fm, a);
    DecodeSpecial(fm, v.neg);
    if n != 0 {
      IntegralEncodable(fm, rm, v.neg, v.m, v.e);
      IntegerRounds(fm, rm, v.neg, Integral(rm, v.neg, v.m, v.e));
    }
  }

  /** Rounding a nonzero integer gives the integer itself when the format can encode it. */
  lemma IntegerRounds(fm: Fmt, rm: Rm, neg: bool, k: nat)
    requires k > 0
    ensures var n, r := WithSign(neg, k) as real, RoundRatio(fm, rm, neg, k, 1, 0);
      && SignBit(r) == neg
      && IsRounding(fm, rm, n, r)
      && (EncodeOk(fm, k, 0) ==> IsFin(fm, r) && RealVal(fm, r) == n)
      && Abs(n) == Dyadic(k, 0)
  {
    RatioFacts(k, 1, 0);
    RoundRatioRounds(fm, rm, neg, k, 1, 0);
    if EncodeOk(fm, k, 0) {
      RoundingOfEncodable(fm, rm, neg, k, 0, WithSign(neg, k) as real, RoundRatio(fm, rm, neg, k, 1, 0));
    }
  }

  // ----- conversions from integers -----

  function FromInt(fm: Fmt, rm: Rm, neg: bool, k: nat): (r: Bits)
    ensures |r| == W(fm)
  {
    if k == 0 then ZeroBits(fm, false) else RoundRatio(fm, rm, neg, k, 1, 0)
  }

  /** From two's complement of any width. */
  function FromSint(fm: Fmt, rm: Rm, x: Bits): (r: Bits)
    requires |x| > 0
    ensures |r| == W(fm)
  {
    UValBound(x);
    var v := UVal(x);
    if TestBit(v, |x| - 1) then FromInt(fm, rm, true, Pow2(|x|) - v) else FromInt(fm, rm, false, v)
  }

  function FromUint(fm: Fmt, rm: Rm, x: Bits): (r: Bits)
    requires |x| > 0
    ensures |r| == W(fm)
  {
    FromInt(fm, rm, false, UVal(x))
  }

  lemma FromIntRounds(fm: Fmt, rm: Rm, n: int)
    ensures var r := FromInt(fm, rm, n < 0, Magnitude(n));
      if n == 0 then r == ZeroBits(fm, false) else IsRounding(fm, rm, n as real, r)
  {
    if n != 0 { IntegerRounds(fm, rm, n < 0, Magnitude(n)); }
  }

  /** Sign and magnitude of a two's-complement number, as the conversion finds them. */
  lemma FromSintIs(fm: Fmt, rm: Rm, x: Bits)
    requires |x| > 0
    ensures FromSint(fm, rm, x) == FromInt(fm, rm, SVal(x) < 0, Magnitude(SVal(x)))
  {
    UValBound(x);
    BitAt(x, |x| - 1);
  }

  /** A converted integer is correctly rounded; zero gives `+0`. */
  lemma FromSintRounds(fm: Fmt, rm: Rm, x: Bits)
    requires |x| > 0
    ensures var n, r := SVal(x), FromSint(fm, rm, x);
      if n == 0 then r == ZeroBits(fm, false) else IsRounding(fm, rm, n as real, r)
  {
    FromSintIs(fm, rm, x);
    FromIntRounds(fm, rm, SVal(x));
  }

  lemma FromUintRounds(fm: Fmt, rm: Rm, x: Bits)
    requires |x| > 0
    ensures var n, r := UVal(x), FromUint(fm, rm, x);
      if n == 0 then r == ZeroBits(fm, false) else IsRounding(fm, rm, n as real, r)
  {
    FromIntRounds(fm, rm, UVal(x));
  }

  // ----- conversions to integers -----

  function Clamp(n: int, lo: int, hi: int): int
    requires lo <= hi
  {
    if n < lo then lo else if n > hi then hi else n
  }

  function SMin(w: nat): int requires w > 0 { -(Pow2(w - 1) as int) }

  function SMax(w: nat): int requires w > 0 { Pow2(w - 1) - 1 }

  /** The two's-complement encoding of `-k` at `w` bits. */
  function NegateMod(w: nat, k: nat): nat
    requires k <= Pow2(w)
  {
    if k == 0 then 0 else Pow2(w) - k
  }

  /** `(-1)^neg * k`, saturated at `w` bits, as the unsigned number that encodes it. */
  function SaturateInt(w: nat, neg: bool, k: nat): nat
    requires w > 0
  {
    if neg then NegateMod(w, Min(k, Pow2(w - 1))) else Min(k, Pow2(w - 1) - 1)
  }

  /** The saturated integer as the unsigned number that encodes it. */
  function SaturateSigned(fm: Fmt, rm: Rm, a: Bits, w: nat): nat
    requires |a| == W(fm) && w > 0
  {
    var max, minMag := Pow2(w - 1) - 1, Pow2(w - 1);
    match Decode(fm, a)
    case Nan => 0
    case Zero(_) => 0
    case Inf(neg) => if neg then NegateMod(w, minMag) else max
    case Fin(neg, m, e) => SaturateInt(w, neg, Integral(rm, neg, m, e))
  }

  function SaturateUnsigned(fm: Fmt, rm: Rm, a: Bits, w: nat): nat
    requires |a| == W(fm)
  {
    var max := Pow2(w) - 1;
    match Decode(fm, a)
    case Nan => 0
    case Zero(_) => 0
    case Inf(neg) => if neg then 0 else max
    case Fin(neg, m, e) => if neg then 0 else Min(Integral(rm, false, m, e), max)
  }

  /** To a `w`-bit two's-complement integer, saturating. */
  function ToSint(fm: Fmt, rm: Rm, a: Bits, w: nat): (r: Bits)
    requires |a| == W(fm) && w > 0
    ensures |r| == w
  {
    OfVal(w, SaturateSigned(fm, rm, a, w))
  }

  /** To a `w`-bit unsigned integer, saturating. */
  function ToUint(fm: Fmt, rm: Rm, a: Bits, w: nat): (r: Bits)
    requires |a| == W(fm) && w > 0
    ensures |r| == w
  {
    OfVal(w, SaturateUnsigned(fm, rm, a, w))
  }

  /** The two's-complement encoding of an integer in range. */
  function Encoded(w: nat, n: int): int { if n < 0 then Pow2(w) + n else n }

  lemma SValOfMod(w: nat, n: int, v: nat)
    requires w > 0 && SMin(w) <= n <= SMax(w) && v == Encoded(w, n)
    ensures SVal(OfVal(w, v)) == n
  {
    UValOfVal(w, v);
    LowBitsSmall(v, w);
    MsbIs(OfVal(w, v));
  }

  lemma UValOfMod(w: nat, v: nat)
    requires v < Pow2(w)
    ensures UVal(OfVal(w, v)) == v
  {
    UValOfVal(w, v);
    LowBitsSmall(v, w);
  }

  /** The integer a finite value becomes before encoding. */
  lemma SaturateSignedIs(fm: Fmt, rm: Rm, a: Bits, w: nat, n: int)
    requires IsFin(fm, a) && w > 0 && n == IntegerOf(fm, rm, a)
    ensures SaturateSigned(fm, rm, a, w) == Encoded(w, Clamp(n, SMin(w), SMax(w)))
  {
    var v := Decode(fm, a);
    if v.Fin? { SaturateIntIs(w, v.neg, Integral(rm, v.neg, v.m, v.e)); }
  }

  lemma SaturateIntIs(w: nat, neg: bool, k: nat)
    requires w > 0
    ensures SaturateInt(w, neg, k) == Encoded(w, Clamp(WithSign(neg, k), SMin(w), SMax(w)))
  {
    if neg {
      assert Clamp(WithSign(neg, k), SMin(w), SMax(w)) == 0 - Min(k, Pow2(w - 1));
    }
  }

  lemma SaturateUnsignedIs(fm: Fmt, rm: Rm, a: Bits, w: nat, n: int)
    requires IsFin(fm, a) && w > 0 && n == IntegerOf(fm, rm, a)
    ensures SaturateUnsigned(fm, rm, a, w) == Clamp(n, 0, Pow2(w) - 1)
  {
  }

  /** Conversion of a finite value to an integer clamps the mode's integer into the target range. */
  lemma ToIntClamps(fm: Fmt, rm: Rm, a: Bits, w: nat, n: int)
    requires IsFin(fm, a) && w > 0 && n == RoundInt(rm, RealVal(fm, a))
    ensures SVal(ToSint(fm, rm, a, w)) == Clamp(n, SMin(w), SMax(w))
    ensures UVal(ToUint(fm, rm, a, w)) == Clamp(n, 0, Pow2(w) - 1)
  {
    IntegerOfIs(fm, rm, a);
    ToIntClampsOf(fm, rm, a, w, n);
  }

  lemma ToIntClampsOf(fm: Fmt, rm: Rm, a: Bits, w: nat, n: int)
    requires IsFin(fm, a) && w > 0 && n == IntegerOf(fm, rm, a)
    ensures SVal(ToSint(fm, rm, a, w)) == Clamp(n, SMin(w), SMax(w))
    ensures UVal(ToUint(fm, rm, a, w)) == Clamp(n, 0, Pow2(w) - 1)
  {
    SaturateSignedIs(fm, rm, a, w, n);
    SaturateUnsignedIs(fm, rm, a, w, n);
    SValOfMod(w, Clamp(n, SMin(w), SMax(w)), SaturateSigned(fm, rm, a, w));
    UValOfMod(w, SaturateUnsigned(fm, rm, a, w));
  }

  /** Infinities go to the ends of the range and NaN to zero. */
  lemma ToIntSpecial(fm: Fmt, rm: Rm, a: Bits, w: nat)
    requires |a| == W(fm) && !IsFin(fm, a) && w > 0
    ensures var v, s, u := Decode(fm, a), SVal(ToSint(fm, rm, a, w)), UVal(ToUint(fm, rm, a, w));
      && (v.Nan? ==> s == 0 && u == 0)
      && (v.Inf? ==> s == (if v.neg then SMin(w) else SMax(w)) && u == if v.neg then 0 else Pow2(w) - 1)
  {
    var v := Decode(fm, a);
    SValOfMod(w, if v.Nan? then 0 else if v.neg then SMin(w) else SMax(w), SaturateSigned(fm, rm, a, w));
    UValOfMod(w, SaturateUnsigned(fm, rm, a, w));
  }

  /** Conversion to integers is monotone in the encoding order, infinities included. */
  lemma ToIntMonotone(fm: Fmt, rm: Rm, a: Bits, b: Bits, w: nat)
    requires |a| == |b| == W(fm) && w > 0 && !IsNan(fm, a) && !IsNan(fm, b)
    requires Key(fm, a) <= Key(fm, b)
    ensures SVal(ToSint(fm, rm, a, w)) <= SVal(ToSint(fm, rm, b, w))
    ensures UVal(ToUint(fm, rm, a, w)) <= UVal(ToUint(fm, rm, b, w))
  {
    CodeKinds(fm, a);
    CodeKinds(fm, b);
    if IsFin(fm, a) && IsFin(fm, b) {
      FiniteMonotone(fm, rm, a, b, w);
    } else {
      ToIntInRange(fm, rm, a, w);
      ToIntInRange(fm, rm, b, w);
      if !IsFin(fm, a) { ToIntSpecial(fm, rm, a, w); }
      if !IsFin(fm, b) { ToIntSpecial(fm, rm, b, w); }
    }
  }

  lemma ToIntInRange(fm: Fmt, rm: Rm, a: Bits, w: nat)
    requires |a| == W(fm) && w > 0
    ensures SMin(w) <= SVal(ToSint(fm, rm, a, w)) <= SMax(w)
    ensures 0 <= UVal(ToUint(fm, rm, a, w)) <= Pow2(w) - 1
  {
    MsbIs(ToSint(fm, rm, a, w));
    UValBound(ToUint(fm, rm, a, w));
  }

  lemma FiniteMonotone(fm: Fmt, rm: Rm, a: Bits, b: Bits, w: nat)
    requires IsFin(fm, a) && IsFin(fm, b) && w > 0 && Key(fm, a) <= Key(fm, b)
    ensures SVal(ToSint(fm, rm, a, w)) <= SVal(ToSint(fm, rm, b, w))
    ensures UVal(ToUint(fm, rm, a, w)) <= UVal(ToUint(fm, rm, b, w))
  {
    IntegerOfMonotone(fm, rm, a, b);
    ToIntClampsOf(fm, rm, a, w, IntegerOf(fm, rm, a));
    ToIntClampsOf(fm, rm, b, w, IntegerOf(fm, rm, b));
  }

  lemma IntegerOfMonotone(fm: Fmt, rm: Rm, a: Bits, b: Bits)
    requires IsFin(fm, a) && IsFin(fm, b) && Key(fm, a) <= Key(fm, b)
    ensures IntegerOf(fm, rm, a) <= IntegerOf(fm, rm, b)
  {
    KeyOrder(fm, a, b);
    if Key(fm, a) == Key(fm, b) { KeyInjective(fm, a, b); }
    IntegerOfIs(fm, rm, a);
    IntegerOfIs(fm, rm, b);
    RoundIntMonotone(rm, RealVal(fm, a), RealVal(fm, b));
  }

  // ----- conversions between formats -----

  function ToFp(src: Fmt, dst: Fmt, rm: Rm, a: Bits): (r: Bits)
    requires |a| == W(src)
    ensures |r| == W(dst)
  {
    DecodeCanonical(src, a);
    match Decode(src, a)
    case Nan => NanBits(dst)
    case Inf(s) => InfBits(dst, s)
    case Zero(s) => ZeroBits(dst, s)
    case Fin(neg, m, e) => RoundRatio(dst, rm, neg, m, 1, e)
  }

  lemma ToFpRounds(src: Fmt, dst: Fmt, rm: Rm, a: Bits)
    requires |a| == W(src) && Decode(src, a).Fin?
    ensures RealVal(src, a) != 0.0 && IsRounding(dst, rm, RealVal(src, a), ToFp(src, dst, rm, a))
  {
    DecodeCanonical(src, a);
    var v := Decode(src, a);
    DyadicNeg(v.m, v.e);
    RatioFacts(v.m, 1, v.e);
    RoundRatioRounds(dst, rm, v.neg, v.m, 1, v.e);
  }

  /** A format with at least as many exponent and significand bits holds every value. */
  lemma WiderHolds(src: Fmt, dst: Fmt, m: nat, e: int)
    requires src.eb <= dst.eb && src.sb <= dst.sb && Canonical(src, m, e)
    ensures EncodeOk(dst, m, e)
  {
    Pow2Mono(src.eb - 1, dst.eb - 1);
    BitLenAtMost(m, P(src));
    OmegaIsLargest(src, m, e);
    BelowOmega(src, m, e);
  }

  /** Widening and converting back is the identity on every non-NaN, in any pair of modes. */
  lemma WidenAndBack(src: Fmt, dst: Fmt, rm: Rm, rm': Rm, a: Bits)
    requires src.eb <= dst.eb && src.sb <= dst.sb
    requires |a| == W(src) && !IsNan(src, a)
    ensures ToFp(dst, src, rm', ToFp(src, dst, rm, a)) == a
  {
    DecodeCanonical(src, a);
    var v, r := Decode(src, a), ToFp(src, dst, rm, a);
    if v.Fin? {
      WidenExact(src, dst, rm, a);
      FinRange(src, a);
      FinRange(dst, r);
      ToFpRounds(dst, src, rm', r);
      RoundingOfValue(src, rm', a);
      RoundingUnique(src, rm', RealVal(src, a), a, ToFp(dst, src, rm', r));
    } else {
      DecodeSpecial(src, SignBit(a));
      DecodeSpecial(dst, SignBit(a));
      DecodeInjective(src, a, ToFp(dst, src, rm', r));
    }
  }

  /** Widening keeps the value. */
  lemma WidenExact(src: Fmt, dst: Fmt, rm: Rm, a: Bits)
    requires src.eb <= dst.eb && src.sb <= dst.sb
    requires |a| == W(src) && Decode(src, a).Fin?
    ensures var r := ToFp(src, dst, rm, a); IsFin(dst, r) && RealVal(dst, r) == RealVal(src, a)
  {
    DecodeCanonical(src, a);
    var v := Decode(src, a);
    WiderHolds(src, dst, v.m, v.e);
    DyadicNeg(v.m, v.e);
    ToFpRounds(src, dst, rm, a);
    RoundingOfEncodable(dst, rm, v.neg, v.m, v.e, RealVal(src, a), ToFp(src, dst, rm, a));
  }
}
