/** Extended encodings with an explicit integer bit, as the x87 stores them, against the encodings
    of the same format without it. The x87's format is (15, 64); the proofs hold for every one. */
module FpX87 {
  import opened Powers
  import opened Words
  import opened Nats
  import opened FpFormat
  import opened FpValues

  /** The format of x87 values. */
  const X87: Fmt := Format(15, 64)

  /** The positions in the 80-bit encoding: fraction 62-0, integer bit 63, exponent 78-64, sign
      bit 79; and the special exponent. */
  lemma X87Layout()
    ensures P(X87) - 1 == 63 && P(X87) == 64 && W(X87) == 79 && Width(X87) == 80
    ensures ESpecial(X87) == 32767 && Emax(X87) == 16383
  {
    assert Pow2(15) == 32768 && Pow2(14) == 16384;
  }

  function Width(fm: Fmt): nat { W(fm) + 1 }

  datatype Extended = Extended(sign: bool, exponent: nat, integer: bool, fraction: nat)
  {
    predicate PseudoDenormal(fm: Fmt) { exponent == 0 && integer }

    predicate Unnormal(fm: Fmt) { 0 < exponent < ESpecial(fm) && !integer }

    predicate PseudoInfinity(fm: Fmt) { exponent == ESpecial(fm) && !integer && fraction == 0 }

    predicate PseudoNan(fm: Fmt) { exponent == ESpecial(fm) && !integer && fraction != 0 }

    /** The significand with its integer bit. */
    function Significand(fm: Fmt): nat { fraction + Shl(Bit(integer), P(fm) - 1) }
  }

  /** The encodings later processors no longer produce. */
  predicate Obsolete(fm: Fmt, x: Extended)
  {
    x.PseudoDenormal(fm) || x.Unnormal(fm) || x.PseudoInfinity(fm) || x.PseudoNan(fm)
  }

  function Split(fm: Fmt, x: Bits): Extended
    requires |x| == Width(fm)
  {
    var v := UVal(x);
    Extended(TestBit(v, W(fm)), LowBits(Shr(v, P(fm)), fm.eb), TestBit(v, P(fm) - 1), LowBits(v, P(fm) - 1))
  }

  function Load(fm: Fmt, x: Bits): (a: Bits)
    requires |x| == Width(fm)
    ensures |a| == W(fm)
  {
    SplitValid(fm, x);
    Pow2Mono(1, fm.eb);
    var f := Split(fm, x);
    if f.exponent == 0 then Pack(fm, f.sign, if f.integer then 1 else 0, f.fraction)
    else if f.exponent == ESpecial(fm) && f.integer then Pack(fm, f.sign, ESpecial(fm), f.fraction)
    else if f.exponent == ESpecial(fm) then NanBits(fm)
    else if f.integer then Pack(fm, f.sign, f.exponent, f.fraction)
    else NanBits(fm)
  }

  function Stored(fm: Fmt, s: bool, e: nat, t: nat): nat
  {
    t + Shl(e, P(fm)) + (if e != 0 then Pow2(P(fm) - 1) else 0) + Top(s, Pow2(W(fm)))
  }

  function Store(fm: Fmt, a: Bits): (x: Bits)
    requires |a| == W(fm)
    ensures |x| == Width(fm)
  {
    var (s, e, t) := Fields(fm, a);
    OfVal(Width(fm), Stored(fm, s, e, t))
  }

  // ----- splitting and joining are inverse -----

  /** The number made of a sign `s`, exponent `e`, integer bit `i` and fraction `f`. */
  function Joined(k: nat, j: nat, s: nat, e: nat, i: nat, f: nat): nat
  {
    f + Shl(2 * (Shl(s, j) + e) + i, k)
  }

  lemma JoinedIs(k: nat, j: nat, s: nat, e: nat, i: nat, f: nat)
    ensures Joined(k, j, s, e, i, f) == f + Shl(i, k) + Shl(e, k + 1) + Shl(s, k + 1 + j)
  {
    var top := Shl(s, j) + e;
    ShlAdd(2 * top, i, k);
    ShlDouble(top, k);
    ShlAdd(Shl(s, j), e, k + 1);
    ShlShl(s, j, k + 1);
  }

  lemma JoinedFields(k: nat, j: nat, s: nat, e: nat, i: nat, f: nat)
    requires s < 2 && e < Pow2(j) && i < 2 && f < Pow2(k)
    ensures var v := Joined(k, j, s, e, i, f);
      && Shr(v, k + 1 + j) == s && LowBits(Shr(v, k + 1), j) == e && Shr(v, k) % 2 == i
      && LowBits(v, k) == f
      && v < Pow2(k + 1 + j + 1)
  {
    var top := Shl(s, j) + e;
    var v := Joined(k, j, s, e, i, f);
    CutUnique(v, 2 * top + i, f, k);
    ShrShr(v, k, 1);
    CutUnique(2 * top + i, top, i, 1);
    CutUnique(top, s, e, j);
    ShrShr(v, k + 1, j);
    TopBit(v, k + 1 + j);
  }

  lemma JoinOfFields(k: nat, j: nat, v: nat)
    requires v < Pow2(k + 1 + j + 1)
    ensures Joined(k, j, Shr(v, k + 1 + j), LowBits(Shr(v, k + 1), j), Shr(v, k) % 2, LowBits(v, k)) == v
    ensures Shr(v, k + 1 + j) < 2
  {
    ShrLow(v, k);
    ShrShr(v, k, 1);
    assert Shr(v, k + 1) == Shr(v, k) / 2;
    ShrLow(Shr(v, k + 1), j);
    ShrShr(v, k + 1, j);
    TopBit(v, k + 1 + j);
  }

  lemma SplitValid(fm: Fmt, x: Bits)
    requires |x| == Width(fm)
    ensures var f := Split(fm, x);
      && f.exponent <= ESpecial(fm) && f.fraction < Pow2(P(fm) - 1) && BitLen(f.fraction) < P(fm)
      && UVal(x) == Joined(P(fm) - 1, fm.eb, Bit(f.sign), f.exponent, Bit(f.integer), f.fraction)
  {
    var v := UVal(x);
    UValBound(x);
    JoinOfFields(P(fm) - 1, fm.eb, v);
    ShrLow(v, P(fm) - 1);
    ShrLow(Shr(v, P(fm)), fm.eb);
    BitLenAtMost(LowBits(v, P(fm) - 1), P(fm) - 1);
  }

  /** The fields of an extended encoding determine it. */
  lemma SplitInjective(fm: Fmt, x: Bits, y: Bits)
    requires |x| == |y| == Width(fm) && Split(fm, x) == Split(fm, y)
    ensures x == y
  {
    SplitValid(fm, x);
    SplitValid(fm, y);
    UValInjective(x, y);
  }

  lemma StoredIs(fm: Fmt, s: bool, e: nat, t: nat)
    ensures Stored(fm, s, e, t) == Joined(P(fm) - 1, fm.eb, Bit(s), e, Bit(e != 0), t)
  {
    JoinedIs(P(fm) - 1, fm.eb, Bit(s), e, Bit(e != 0), t);
    ShlOrder(0, 0, P(fm) - 1);
    ShlOrder(0, 0, W(fm));
  }

  lemma StoredValue(fm: Fmt, a: Bits)
    requires |a| == W(fm)
    ensures var (s, e, t) := Fields(fm, a);
      && UVal(Store(fm, a)) == Joined(P(fm) - 1, fm.eb, Bit(s), e, Bit(e != 0), t)
      && e <= ESpecial(fm) && t < Pow2(P(fm) - 1)
  {
    var (s, e, t) := Fields(fm, a);
    PackOfFields(fm, a);
    BitLenAtMost(t, P(fm) - 1);
    StoredIs(fm, s, e, t);
    JoinedFields(P(fm) - 1, fm.eb, Bit(s), e, Bit(e != 0), t);
    UValOfVal(Width(fm), Stored(fm, s, e, t));
    LowBitsSmall(Stored(fm, s, e, t), Width(fm));
  }

  /** Storing keeps sign, exponent and trailing significand and makes the integer bit explicit. */
  lemma SplitStore(fm: Fmt, a: Bits)
    requires |a| == W(fm)
    ensures var (s, e, t) := Fields(fm, a); Split(fm, Store(fm, a)) == Extended(s, e, e != 0, t)
  {
    var (s, e, t) := Fields(fm, a);
    StoredValue(fm, a);
    JoinedFields(P(fm) - 1, fm.eb, Bit(s), e, Bit(e != 0), t);
  }

  /** Loading keeps the fields of an encoding that is not obsolete. */
  lemma LoadFields(fm: Fmt, x: Bits)
    requires |x| == Width(fm) && !Obsolete(fm, Split(fm, x))
    ensures var f := Split(fm, x); Fields(fm, Load(fm, x)) == (f.sign, f.exponent, f.fraction)
  {
    SplitValid(fm, x);
    var f := Split(fm, x);
    FieldsOfPack(fm, f.sign, f.exponent, f.fraction);
  }

  // ----- round trips -----

  /** Loading what was stored gives back every encoding, NaN payloads included. */
  lemma LoadStore(fm: Fmt, a: Bits)
    requires |a| == W(fm)
    ensures Load(fm, Store(fm, a)) == a
  {
    SplitStore(fm, a);
    PackOfFields(fm, a);
    LoadFields(fm, Store(fm, a));
    PackOfFields(fm, Load(fm, Store(fm, a)));
  }

  /** Storing what was loaded gives back exactly the encodings that are not obsolete. */
  lemma StoreLoad(fm: Fmt, x: Bits)
    requires |x| == Width(fm)
    ensures Store(fm, Load(fm, x)) == x <==> !Obsolete(fm, Split(fm, x))
  {
    SplitValid(fm, x);
    SplitStore(fm, Load(fm, x));
    if !Obsolete(fm, Split(fm, x)) {
      LoadFields(fm, x);
      SplitInjective(fm, x, Store(fm, Load(fm, x)));
    }
  }

  // ----- values -----

  /** A loaded number keeps its value, the significand with its integer bit at the exponent
      `max(e, 1)`, pseudo-denormals included; the other obsolete encodings become NaN. */
  lemma LoadValue(fm: Fmt, x: Bits)
    requires |x| == Width(fm)
    ensures var f, v := Split(fm, x), Decode(fm, Load(fm, x));
      if f.Unnormal(fm) || f.PseudoInfinity(fm) || f.PseudoNan(fm) then Load(fm, x) == NanBits(fm)
      else if f.exponent == ESpecial(fm) then v == if f.fraction == 0 then Inf(f.sign) else Nan
      else if f.Significand(fm) == 0 then v == Zero(f.sign)
      else v == Fin(f.sign, f.Significand(fm), Max(f.exponent, 1) - Emax(fm) - (P(fm) - 1))
  {
    SplitValid(fm, x);
    var f := Split(fm, x);
    DecodeSpecial(fm, false);
    QuantumRange(fm);
    ShlOrder(0, 0, P(fm) - 1);
    if f.PseudoDenormal(fm) {
      FieldsOfPack(fm, f.sign, 1, f.fraction);
    } else if !Obsolete(fm, f) {
      LoadFields(fm, x);
    }
  }
}
