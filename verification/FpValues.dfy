/** The finite values of a format: canonical significands, the sign-magnitude order of the
    encodings, and the encoder as the inverse of the decoder. */
module FpValues {
  import opened Powers
  import opened Dyadics
  import opened Words
  import opened Nats
  import opened FpFormat

  /** The significand and exponent the decoder gives a nonzero finite value. */
  predicate Canonical(fm: Fmt, m: nat, e: int)
  {
    && 0 < m < Pow2(P(fm))
    && Qmin(fm) <= e <= Qmax(fm)
    && (Pow2(P(fm) - 1) <= m || e == Qmin(fm))
  }

  lemma QuantumRange(fm: Fmt)
    ensures ESpecial(fm) == 2 * Emax(fm) + 1
    ensures Qmax(fm) - Qmin(fm) == 2 * Emax(fm) - 1
    ensures Qmax(fm) >= Qmin(fm) + 1
    ensures Pow2(P(fm)) == 2 * Pow2(P(fm) - 1)
    ensures Pow2(P(fm) - 1) == 2 * Pow2(P(fm) - 2)
    ensures Qmin(fm) < 0
  {
    Pow2Mono(1, fm.eb - 1);
  }

  lemma DecodeCanonical(fm: Fmt, a: Bits)
    requires |a| == W(fm)
    ensures !Decode(fm, a).Nan? ==> Decode(fm, a).neg == SignBit(a)
    ensures Decode(fm, a).Fin? ==> Canonical(fm, Decode(fm, a).m, Decode(fm, a).e)
  {
    PackOfFields(fm, a);
    QuantumRange(fm);
    BitLenAtMost(Fields(fm, a).2, P(fm) - 1);
  }

  /** The decoder loses nothing but NaN payloads. */
  lemma DecodeInjective(fm: Fmt, a: Bits, b: Bits)
    requires |a| == |b| == W(fm)
    requires Decode(fm, a) == Decode(fm, b) && !Decode(fm, a).Nan?
    ensures a == b
  {
    PackOfFields(fm, a);
    PackOfFields(fm, b);
    var (s, e, t) := Fields(fm, a);
    var (s', e', t') := Fields(fm, b);
    BitLenAtMost(t, P(fm) - 1);
    BitLenAtMost(t', P(fm) - 1);
    QuantumRange(fm);
    assert (s, e, t) == (s', e', t');
  }

  /** The value in terms of the bits, as the standard gives it (IEEE 754-2019 section 3.4): sign `s`,
      exponent field `e` and trailing significand `t`, a leading bit that is clear only for `e == 0`, and
      a bias of `2^(eb-1) - 1`. */
  lemma InterchangeValue(fm: Fmt, a: Bits, s: bool, e: nat, t: nat, scale: real, significand: real, x: real)
    requires |a| == W(fm) && s == a[W(fm) - 1]
    requires e == UVal(a[P(fm) - 1..W(fm) - 1]) && t == UVal(a[..P(fm) - 1])
    requires scale == Dyadic(1, Max(e, 1) - (Pow2(fm.eb - 1) - 1))
    requires significand == (if e == 0 then 0.0 else 1.0) + Dyadic(t, 1 - P(fm)) && x == scale * significand
    ensures e == Pow2(fm.eb) - 1 ==> Decode(fm, a) == if t == 0 then Inf(s) else Nan
    ensures e == 0 && t == 0 ==> Decode(fm, a) == Zero(s)
    ensures e != Pow2(fm.eb) - 1 ==> IsFin(fm, a) && RealVal(fm, a) == if s then -x else x
  {
    FieldSlices(fm, a);
    if e != Pow2(fm.eb) - 1 {
      var m, q := if e == 0 then t else Pow2(P(fm) - 1) + t, Max(e, 1) - (Pow2(fm.eb - 1) - 1);
      FiniteFields(fm, a, m, q - P(fm) + 1);
      ScaledSignificand(q, P(fm), m, e == 0, t, scale, significand, x);
    }
  }

  lemma FiniteFields(fm: Fmt, a: Bits, m: nat, q: int)
    requires |a| == W(fm)
    requires var (_, e, t) := Fields(fm, a);
      && e != ESpecial(fm) && m == (if e == 0 then t else Pow2(P(fm) - 1) + t)
      && q == Max(e, 1) - Emax(fm) - P(fm) + 1
    ensures IsFin(fm, a) && RealVal(fm, a) == if Fields(fm, a).0 then -Dyadic(m, q) else Dyadic(m, q)
  {
    QuantumRange(fm);
    DyadicNeg(m, q);
  }

  lemma ScaledSignificand(q: int, p: nat, m: nat, subnormal: bool, t: nat, scale: real, significand: real, x: real)
    requires p > 0 && m == if subnormal then t else Pow2(p - 1) + t
    requires scale == Dyadic(1, q) && significand == (if subnormal then 0.0 else 1.0) + Dyadic(t, 1 - p)
    requires x == scale * significand
    ensures x == Dyadic(m, q - p + 1)
  {
    DyadicPow2(p - 1, 1 - p);
    DyadicAdd(Pow2(p - 1), t, 1 - p);
    assert significand == Dyadic(m, 1 - p);
    DyadicMul(1, q, m, 1 - p);
  }

  // ----- the special encodings -----

  lemma DecodeSpecial(fm: Fmt, neg: bool)
    ensures Decode(fm, NanBits(fm)) == Nan
    ensures Decode(fm, InfBits(fm, neg)) == Inf(neg)
    ensures Decode(fm, ZeroBits(fm, neg)) == Zero(neg)
  {
    QuantumRange(fm);
    BitLenAtMost(Pow2(P(fm) - 2), P(fm) - 1);
    FieldsOfPack(fm, false, ESpecial(fm), Pow2(P(fm) - 2));
    FieldsOfPack(fm, neg, ESpecial(fm), 0);
    FieldsOfPack(fm, neg, 0, 0);
  }

  lemma DecodeMaxFinite(fm: Fmt, neg: bool)
    ensures Decode(fm, MaxFinite(fm, neg)) == Fin(neg, Pow2(P(fm)) - 1, Qmax(fm))
  {
    QuantumRange(fm);
    BitLenAtMost(Pow2(P(fm) - 1) - 1, P(fm) - 1);
    FieldsOfPack(fm, neg, ESpecial(fm) - 1, Pow2(P(fm) - 1) - 1);
  }

  // ----- the order of canonical values -----

  /** A larger quantum exponent means a larger value. */
  lemma CanonicalLess(fm: Fmt, m: nat, e: int, m': nat, e': int)
    requires Canonical(fm, m, e) && Canonical(fm, m', e') && e < e'
    ensures Dyadic(m, e) < Dyadic(m', e')
  {
    BitLenAtMost(m, P(fm));
    BitLenAtMost(m', P(fm) - 1);
    TopBelow(m, e, m', e');
  }

  lemma CanonicalUnique(fm: Fmt, m: nat, e: int, m': nat, e': int)
    requires Canonical(fm, m, e) && Canonical(fm, m', e')
    requires Dyadic(m, e) == Dyadic(m', e')
    ensures m == m' && e == e'
  {
    if e < e' { CanonicalLess(fm, m, e, m', e'); }
    if e' < e { CanonicalLess(fm, m', e', m, e); }
    DyadicOrder(m, m', e);
  }

  // ----- magnitude codes: the encoding without its sign bit -----

  /** Biased exponent and trailing significand read as one number. */
  function Code(fm: Fmt, a: Bits): nat
    requires |a| == W(fm)
  {
    var (s, e, t) := Fields(fm, a);
    t + Shl(e, P(fm) - 1)
  }

  /** The sign-magnitude order of encodings, `-0` just below `+0`. */
  function Key(fm: Fmt, a: Bits): int
    requires |a| == W(fm)
  {
    if SignBit(a) then -1 - (Code(fm, a) as int) else Code(fm, a)
  }

  /** The code is the encoding read as an unsigned number, less the sign bit. */
  lemma CodeIsMagnitude(fm: Fmt, a: Bits)
    requires |a| == W(fm)
    ensures UVal(a) == Code(fm, a) + Top(SignBit(a), Pow2(W(fm) - 1))
  {
    PackOfFields(fm, a);
    var (s, e, t) := Fields(fm, a);
    FieldsOfPack(fm, s, e, t);
  }

  /** Sign and code determine the encoding. */
  lemma KeyInjective(fm: Fmt, a: Bits, b: Bits)
    requires |a| == |b| == W(fm) && Key(fm, a) == Key(fm, b)
    ensures a == b
  {
    CodeIsMagnitude(fm, a);
    CodeIsMagnitude(fm, b);
    UValInjective(a, b);
  }

  /** The code of a finite value in terms of its canonical significand and exponent. */
  lemma CodeOfValue(fm: Fmt, a: Bits)
    requires |a| == W(fm)
    ensures var v := Decode(fm, a);
      match v
      case Nan => Code(fm, a) > Shl(ESpecial(fm), P(fm) - 1)
      case Inf(_) => Code(fm, a) == Shl(ESpecial(fm), P(fm) - 1)
      case Zero(_) => Code(fm, a) == 0
      case Fin(_, m, e) => Code(fm, a) == Shl(e - Qmin(fm), P(fm) - 1) + m
  {
    var (s, e, t) := Fields(fm, a);
    ShlAdd(e - 1, 1, P(fm) - 1);
    ShlOrder(e, 0, P(fm) - 1);
  }

  /** Magnitudes of finite values are ordered as their codes. */
  lemma CodeOrder(fm: Fmt, m: nat, e: int, m': nat, e': int)
    requires Canonical(fm, m, e) && Canonical(fm, m', e')
    ensures Dyadic(m, e) < Dyadic(m', e') <==>
      Shl(e - Qmin(fm), P(fm) - 1) + m < Shl(e' - Qmin(fm), P(fm) - 1) + m'
  {
    var i, i', k := e - Qmin(fm), e' - Qmin(fm), P(fm) - 1;
    QuantumRange(fm);
    if e < e' {
      CanonicalLess(fm, m, e, m', e');
      ShlOrder(i, i', k);
    } else if e' < e {
      CanonicalLess(fm, m', e', m, e);
      ShlOrder(i', i, k);
    } else {
      DyadicOrder(m, m', e);
    }
  }

  /** The largest finite magnitude. */
  lemma OmegaIsLargest(fm: Fmt, m: nat, e: int)
    requires Canonical(fm, m, e)
    ensures Dyadic(m, e) <= Omega(fm)
    ensures Canonical(fm, Pow2(P(fm)) - 1, Qmax(fm))
  {
    QuantumRange(fm);
    if e < Qmax(fm) {
      CanonicalLess(fm, m, e, Pow2(P(fm)) - 1, Qmax(fm));
    } else {
      DyadicOrder(m, Pow2(P(fm)) - 1, e);
    }
  }

  // ----- the encoder inverts the decoder -----

  lemma DecodeEncode(fm: Fmt, neg: bool, c: nat, q: int)
    requires EncodeOk(fm, c, q)
    ensures var v := Decode(fm, Encode(fm, neg, c, q));
      v.Fin? && v.neg == neg && Dyadic(v.m, v.e) == Dyadic(c, q)
  {
    var e := BitLen(c) - 1 + q;
    if e >= Emin(fm) { DecodeEncodeNormal(fm, neg, c, q, e); } else { DecodeEncodeSubnormal(fm, neg, c, q, e); }
  }

  lemma DecodeEncodeNormal(fm: Fmt, neg: bool, c: nat, q: int, e: int)
    requires EncodeOk(fm, c, q) && e == BitLen(c) - 1 + q >= Emin(fm)
    ensures var v := Decode(fm, Encode(fm, neg, c, q));
      v.Fin? && v.neg == neg && Dyadic(v.m, v.e) == Dyadic(c, q)
  {
    EncodeFits(fm, c, q);
    var k := q - (e - P(fm) + 1);
    var sig := ShiftExact(c, k);
    ShiftExactFacts(c, k, e - P(fm) + 1, q);
    EncodeNormalIs(fm, neg, c, q, e, sig);
    DecodeNormal(fm, neg, e + Emax(fm), sig - Pow2(P(fm) - 1), sig, e - P(fm) + 1);
  }

  lemma EncodeNormalIs(fm: Fmt, neg: bool, c: nat, q: int, e: int, sig: nat)
    requires EncodeOk(fm, c, q) && e == BitLen(c) - 1 + q >= Emin(fm)
    requires sig == ShiftExact(c, q - (e - P(fm) + 1))
    requires 0 < e + Emax(fm) < ESpecial(fm)
    requires Pow2(P(fm) - 1) <= sig && BitLen(sig - Pow2(P(fm) - 1)) < P(fm)
    ensures Encode(fm, neg, c, q) == Pack(fm, neg, e + Emax(fm), sig - Pow2(P(fm) - 1))
  {
  }

  lemma DecodeEncodeSubnormal(fm: Fmt, neg: bool, c: nat, q: int, e: int)
    requires EncodeOk(fm, c, q) && e == BitLen(c) - 1 + q < Emin(fm)
    ensures var v := Decode(fm, Encode(fm, neg, c, q));
      v.Fin? && v.neg == neg && Dyadic(v.m, v.e) == Dyadic(c, q)
  {
    EncodeFits(fm, c, q);
    ShiftExactFacts(c, q - Qmin(fm), Qmin(fm), q);
    DecodeSubnormal(fm, neg, ShiftExact(c, q - Qmin(fm)));
  }

  lemma DecodeNormal(fm: Fmt, neg: bool, biased: nat, t: nat, sig: nat, q: int)
    requires 0 < biased < ESpecial(fm) && BitLen(t) < P(fm)
    requires sig == Pow2(P(fm) - 1) + t && q == biased - Emax(fm) - P(fm) + 1
    ensures Decode(fm, Pack(fm, neg, biased, t)) == Fin(neg, sig, q)
  {
    FieldsOfPack(fm, neg, biased, t);
    ValOfNormal(fm, Fields(fm, Pack(fm, neg, biased, t)));
  }

  lemma ValOfNormal(fm: Fmt, f: (bool, nat, nat))
    requires 0 < f.1 < ESpecial(fm)
    ensures ValOf(fm, f) == Fin(f.0, Pow2(P(fm) - 1) + f.2, f.1 - Emax(fm) - P(fm) + 1)
  {
  }

  lemma DecodeSubnormal(fm: Fmt, neg: bool, m: nat)
    requires m > 0 && BitLen(m) < P(fm)
    ensures Decode(fm, Pack(fm, neg, 0, m)) == Fin(neg, m, Qmin(fm))
  {
    QuantumRange(fm);
    FieldsOfPack(fm, neg, 0, m);
  }

  /** The assertions hold of every value with a canonical significand... */
  lemma CanonicalEncodable(fm: Fmt, m: nat, e: int)
    requires Canonical(fm, m, e)
    ensures EncodeOk(fm, m, e)
  {
    QuantumRange(fm);
    BitLenAtMost(m, P(fm));
    BitLenAtMost(m, P(fm) - 1);
    BitLenBounds(m);
  }

  /** ... and whenever the significand fits, the quantum is not below the smallest and the value
      not above the largest. */
  lemma SmallEncodable(fm: Fmt, c: nat, q: int)
    requires 0 < c < Pow2(P(fm)) && Qmin(fm) <= q && Dyadic(c, q) <= Omega(fm)
    ensures EncodeOk(fm, c, q)
  {
    BitLenAtMost(c, P(fm));
    BelowOmega(fm, c, q);
  }

  /** A value not above the largest finite one has its top bit at most at `Emax`. */
  lemma BelowOmega(fm: Fmt, c: nat, q: int)
    requires c > 0 && Dyadic(c, q) <= Omega(fm)
    ensures BitLen(c) - 1 + q <= Emax(fm)
  {
    QuantumRange(fm);
    var n := Pow2(P(fm)) - 1;
    BitLenIs(n, P(fm) - 1);
    if BitLen(c) + q > P(fm) + Qmax(fm) { TopBelow(n, Qmax(fm), c, q); }
  }

  /** Encoding a decoded value gives back the encoding. */
  lemma EncodeDecode(fm: Fmt, a: Bits)
    requires |a| == W(fm) && Decode(fm, a).Fin?
    ensures var v := Decode(fm, a);
      EncodeOk(fm, v.m, v.e) && Encode(fm, v.neg, v.m, v.e) == a
  {
    var v := Decode(fm, a);
    DecodeCanonical(fm, a);
    CanonicalEncodable(fm, v.m, v.e);
    DecodeEncode(fm, v.neg, v.m, v.e);
    var a' := Encode(fm, v.neg, v.m, v.e);
    DecodeCanonical(fm, a');
    CanonicalUnique(fm, v.m, v.e, Decode(fm, a').m, Decode(fm, a').e);
    DecodeInjective(fm, a, a');
  }

  /** The encoder's assertions hold exactly of the nonzero magnitudes the format represents. */
  lemma EncodableIffRepresentable(fm: Fmt, c: nat, q: int)
    requires c > 0
    ensures EncodeOk(fm, c, q) <==> exists a: Bits :: IsFin(fm, a) && RealVal(fm, a) == Dyadic(c, q)
  {
    if EncodeOk(fm, c, q) {
      DecodeEncode(fm, false, c, q);
      var a := Encode(fm, false, c, q);
      assert IsFin(fm, a) && RealVal(fm, a) == Dyadic(c, q);
    }
    if a: Bits :| IsFin(fm, a) && RealVal(fm, a) == Dyadic(c, q) { RepresentedEncodable(fm, a, c, q); }
  }

  lemma RepresentedEncodable(fm: Fmt, a: Bits, c: nat, q: int)
    requires c > 0 && IsFin(fm, a) && RealVal(fm, a) == Dyadic(c, q)
    ensures EncodeOk(fm, c, q)
  {
    DyadicPositive(c, q);
    DecodeCanonical(fm, a);
    var v := Decode(fm, a);
    DyadicPositive(v.m, v.e);
    DyadicNeg(v.m, v.e);
    SameValueEncodable(fm, v.m, v.e, c, q);
  }

  /** Whether the assertions hold depends on the value alone. */
  lemma SameValueEncodable(fm: Fmt, m: nat, e: int, c: nat, q: int)
    requires Canonical(fm, m, e) && c > 0 && Dyadic(m, e) == Dyadic(c, q)
    ensures EncodeOk(fm, c, q)
  {
    OmegaIsLargest(fm, m, e);
    BelowOmega(fm, c, q);
    BitLenAtMost(m, P(fm));
    if q < e {
      DyadicCompare(m, e, c, q, q);
      BitLenShl(m, e - q);
      MultipleOfPow(m, e - q, BitLen(c) - P(fm));
      MultipleOfPow(m, e - q, Qmin(fm) - q);
    } else {
      DyadicCompare(m, e, c, q, e);
      BitLenShl(c, q - e);
    }
  }

  lemma MultipleOfPow(m: nat, j: nat, k: int)
    requires k <= j
    ensures 0 < k ==> LowBits(Shl(m, j), k) == 0
  {
    if 0 < k {
      ShlShl(m, j - k, k);
      CutUnique(Shl(m, j), Shl(m, j - k), 0, k);
    }
  }
}
