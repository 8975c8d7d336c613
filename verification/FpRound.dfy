/** The oracle's rounding function: the fraction against one half, the choice of `M` or `M + 1`,
    overflow and encoding; and the quotient and square-root front ends that compute `M`. */
module FpRound {
  import opened Powers
  import opened Dyadics
  import opened Words
  import opened Nats
  import opened FpFormat
  import opened FpValues
  import opened RoundingSpec

  /** The fraction `f` located against one half. */
  datatype Frac = FZero | FBelow | FHalf | FAbove

  /** Locates `r / d`, for `r < d`. */
  function Classify(r: nat, d: nat): Frac
  {
    if r == 0 then FZero
    else if 2 * r < d then FBelow
    else if 2 * r == d then FHalf
    else FAbove
  }

  /** Whether the mode takes `m + 1` for a value of sign `neg` and magnitude `m + f`. */
  predicate RoundUp(rm: Rm, neg: bool, m: nat, f: Frac)
  {
    match rm
    case Rne => f == FAbove || (f == FHalf && m % 2 == 1)
    case Rna => f == FAbove || f == FHalf
    case Rtz => false
    case Rtp => f != FZero && !neg
    case Rtn => f != FZero && neg
  }

  function Chosen(rm: Rm, neg: bool, m: nat, f: Frac): nat
  {
    if RoundUp(rm, neg, m, f) then m + 1 else m
  }

  /** What the callers of `Finish` have arranged: the significand fits, and is full unless the
      quantum is the smallest. */
  predicate QuantumOk(fm: Fmt, m: nat, q: int)
  {
    m < Pow2(P(fm)) && Qmin(fm) <= q && (Pow2(P(fm) - 1) <= m || q == Qmin(fm))
  }

  function Overflowed(fm: Fmt, rm: Rm, neg: bool): (r: Bits)
    ensures |r| == W(fm)
  {
    match rm
    case Rne | Rna => InfBits(fm, neg)
    case Rtz => MaxFinite(fm, neg)
    case Rtp => if neg then MaxFinite(fm, true) else InfBits(fm, false)
    case Rtn => if neg then InfBits(fm, true) else MaxFinite(fm, false)
  }

  predicate AboveOmega(fm: Fmt, c: nat, q: int)
    requires c > 0
  {
    Pow2Mono(1, P(fm));
    CmpScaled(c, q, Pow2(P(fm)) - 1, Qmax(fm)) == Greater
  }

  /** The last step of every rounding: pick the significand, then overflow or encode it. */
  function Finish(fm: Fmt, rm: Rm, neg: bool, m: nat, f: Frac, q: int): (r: Bits)
    requires QuantumOk(fm, m, q)
    ensures |r| == W(fm)
  {
    var c := Chosen(rm, neg, m, f);
    if c == 0 then ZeroBits(fm, neg)
    else if AboveOmega(fm, c, q) then Overflowed(fm, rm, neg)
    else
      FinishEncodable(fm, c, q);
      Encode(fm, neg, c, q)
  }

  lemma AboveOmegaMeans(fm: Fmt, c: nat, q: int)
    requires c > 0
    ensures AboveOmega(fm, c, q) <==> Dyadic(c, q) > Omega(fm)
  {
    Pow2Mono(1, P(fm));
    CmpScaledExact(c, q, Pow2(P(fm)) - 1, Qmax(fm));
  }

  /** `2^p * 2^q` has the canonical form `2^(p-1) * 2^(q+1)`. */
  lemma CarryCanonical(fm: Fmt, q: int)
    requires Qmin(fm) <= q && Dyadic(Pow2(P(fm)), q) <= Omega(fm)
    ensures Canonical(fm, Pow2(P(fm) - 1), q + 1)
    ensures Dyadic(Pow2(P(fm) - 1), q + 1) == Dyadic(Pow2(P(fm)), q)
  {
    QuantumRange(fm);
    DyadicDouble(Pow2(P(fm) - 1), q);
    BelowOmega(fm, Pow2(P(fm)), q);
    BitLenIs(Pow2(P(fm)), P(fm));
  }

  /** The rounded significand always encodes, even when `m + 1` carries into the next binade. */
  lemma FinishEncodable(fm: Fmt, c: nat, q: int)
    requires 0 < c <= Pow2(P(fm)) && Qmin(fm) <= q && !AboveOmega(fm, c, q)
    ensures EncodeOk(fm, c, q)
  {
    AboveOmegaMeans(fm, c, q);
    if c < Pow2(P(fm)) {
      SmallEncodable(fm, c, q);
    } else {
      CarryCanonical(fm, q);
      SameValueEncodable(fm, Pow2(P(fm) - 1), q + 1, c, q);
    }
  }

  // ----- where the exact value lies -----

  /** The real `x` is `(m + f) * 2^q`, with `f` located as `f` says. */
  ghost predicate Located(x: real, m: nat, f: Frac, q: int)
  {
    var lo, mid, hi := Dyadic(m, q), Dyadic(2 * m + 1, q - 1), Dyadic(m + 1, q);
    match f
    case FZero => x == lo
    case FBelow => lo < x < mid
    case FHalf => x == mid
    case FAbove => mid < x < hi
  }

  lemma Midpoint(m: nat, q: int)
    ensures Dyadic(m, q) < Dyadic(2 * m + 1, q - 1) < Dyadic(m + 1, q)
    ensures Dyadic(2 * m + 1, q - 1) - Dyadic(m, q) == Dyadic(m + 1, q) - Dyadic(2 * m + 1, q - 1)
    ensures 0.0 <= Dyadic(m, q)
  {
    DyadicDouble(m, q - 1);
    DyadicDouble(m + 1, q - 1);
    DyadicOrder(2 * m, 2 * m + 1, q - 1);
    DyadicOrder(2 * m + 1, 2 * m + 2, q - 1);
    DyadicAdd(2 * m, 1, q - 1);
    DyadicAdd(2 * m + 1, 1, q - 1);
    DyadicNeg(0, q);
    DyadicOrder(0, m, q);
  }

  /** No finite value lies strictly between `m * 2^q` and `(m + 1) * 2^q`. */
  lemma Gap(fm: Fmt, m: nat, q: int, n: nat, e: int)
    requires QuantumOk(fm, m, q) && Canonical(fm, n, e)
    ensures Dyadic(n, e) <= Dyadic(m, q) || Dyadic(m + 1, q) <= Dyadic(n, e)
  {
    if e >= q {
      DyadicShl(n, e - q, q);
      DyadicOrder(Shl(n, e - q), m, q);
      DyadicOrder(m + 1, Shl(n, e - q), q);
    } else {
      BitLenAtMost(n, P(fm));
      BitLenAtMost(m, P(fm) - 1);
      TopBelow(n, e, m, q);
    }
  }

  /** The gap in terms of encodings of any sign. */
  lemma GapAt(fm: Fmt, m: nat, q: int, b: Bits)
    requires QuantumOk(fm, m, q) && IsFin(fm, b)
    ensures RealVal(fm, b) <= Dyadic(m, q) || Dyadic(m + 1, q) <= RealVal(fm, b)
    ensures RealVal(fm, b) <= Omega(fm)
    ensures SignBit(b) ==> RealVal(fm, b) <= 0.0
    ensures !SignBit(b) ==> RealVal(fm, b) >= 0.0
  {
    DecodeCanonical(fm, b);
    Midpoint(m, q);
    OmegaPositive(fm);
    var v := Decode(fm, b);
    if v.Fin? {
      DyadicPositive(v.m, v.e);
      DyadicNeg(v.m, v.e);
      Gap(fm, m, q, v.m, v.e);
      OmegaIsLargest(fm, v.m, v.e);
    }
  }

  lemma OmegaPositive(fm: Fmt)
    ensures 0.0 < Omega(fm) < Threshold(fm)
  {
    QuantumRange(fm);
    DyadicPositive(Pow2(P(fm)) - 1, Qmax(fm));
    Midpoint(Pow2(P(fm)) - 1, Qmax(fm));
  }

  /** The interval `[m * 2^q, (m + 1) * 2^q)` lies below the largest finite value, starts at it, or
      lies beyond it. */
  lemma OmegaCases(fm: Fmt, m: nat, q: int)
    requires QuantumOk(fm, m, q)
    ensures
      || Dyadic(m + 1, q) <= Omega(fm)
      || (q == Qmax(fm) && m == Pow2(P(fm)) - 1)
      || (Dyadic(m, q) > Threshold(fm) && m > 0)
  {
    QuantumRange(fm);
    var p, n := P(fm), Pow2(P(fm)) - 1;
    if q == Qmax(fm) {
      DyadicOrder(m + 1, n, q);
    } else if q < Qmax(fm) {
      DyadicPow2(p, q);
      DyadicOrder(m + 1, Pow2(p), q);
      DyadicPow2(p - 1, Qmax(fm));
      DyadicOrder(Pow2(p - 1), n, Qmax(fm));
      DyadicPowMono(p + q, p - 1 + Qmax(fm));
    } else {
      DyadicPow2(p - 1, q);
      DyadicOrder(Pow2(p - 1), m, q);
      DyadicPow2(p + 1, Qmax(fm) - 1);
      DyadicOrder(2 * n + 1, Pow2(p + 1), Qmax(fm) - 1);
      DyadicPowMono(p + Qmax(fm), p - 1 + q);
    }
  }

  /** The middle case in reals; its significand is odd. */
  lemma OmegaInterval(fm: Fmt, m: nat, q: int)
    requires QuantumOk(fm, m, q)
    ensures
      || Dyadic(m + 1, q) <= Omega(fm)
      || (Dyadic(m, q) == Omega(fm) && Dyadic(2 * m + 1, q - 1) == Threshold(fm) && m % 2 == 1)
      || Dyadic(m, q) > Threshold(fm)
  {
    OmegaCases(fm, m, q);
    if q == Qmax(fm) && m == Pow2(P(fm)) - 1 {
      assert 2 * m + 1 == 2 * Pow2(P(fm)) - 1;
      OddTop(m, P(fm));
    }
  }

  lemma OddTop(m: nat, p: nat)
    requires p > 0 && m == Pow2(p) - 1
    ensures m % 2 == 1
  {
    assert m == 2 * Pow2(p - 1) - 1;
  }

  // ----- what Finish returns -----

  /** When the chosen significand does not overflow, the result has exactly its value. */
  lemma FinishValue(fm: Fmt, rm: Rm, neg: bool, m: nat, f: Frac, q: int)
    requires QuantumOk(fm, m, q)
    requires Dyadic(Chosen(rm, neg, m, f), q) <= Omega(fm)
    ensures var r, c := Finish(fm, rm, neg, m, f, q), Chosen(rm, neg, m, f);
      && IsFin(fm, r) && SignBit(r) == neg
      && RealVal(fm, r) == (if neg then -Dyadic(c, q) else Dyadic(c, q))
  {
    var r, c := Finish(fm, rm, neg, m, f, q), Chosen(rm, neg, m, f);
    DecodeCanonical(fm, r);
    if c == 0 {
      DecodeSpecial(fm, neg);
      DyadicNeg(0, q);
    } else {
      AboveOmegaMeans(fm, c, q);
      FinishEncodable(fm, c, q);
      DecodeEncode(fm, neg, c, q);
      var v := Decode(fm, r);
      DyadicNeg(v.m, v.e);
    }
  }

  /** Otherwise the mode decides between infinity and the largest finite value. */
  lemma FinishOverflow(fm: Fmt, rm: Rm, neg: bool, m: nat, f: Frac, q: int)
    requires QuantumOk(fm, m, q)
    requires Dyadic(Chosen(rm, neg, m, f), q) > Omega(fm)
    ensures Finish(fm, rm, neg, m, f, q) == Overflowed(fm, rm, neg)
  {
    OmegaPositive(fm);
    DyadicNeg(0, q);
    AboveOmegaMeans(fm, Chosen(rm, neg, m, f), q);
  }

  lemma OverflowedIs(fm: Fmt, neg: bool)
    ensures IsInf(fm, neg, InfBits(fm, neg)) && SignBit(InfBits(fm, neg)) == neg
    ensures IsFin(fm, MaxFinite(fm, neg)) && SignBit(MaxFinite(fm, neg)) == neg
    ensures RealVal(fm, MaxFinite(fm, neg)) == if neg then -Omega(fm) else Omega(fm)
  {
    DecodeSpecial(fm, neg);
    DecodeMaxFinite(fm, neg);
    DecodeCanonical(fm, InfBits(fm, neg));
    DecodeCanonical(fm, MaxFinite(fm, neg));
    DyadicNeg(Pow2(P(fm)) - 1, Qmax(fm));
  }

  // ----- Finish rounds correctly: positive values -----

  lemma FinishDown(fm: Fmt, rm: Rm, x: real, m: nat, f: Frac, q: int)
    requires rm.Rtz? || rm.Rtn?
    requires QuantumOk(fm, m, q) && Located(x, m, f, q) && x > 0.0
    ensures IsRounding(fm, rm, x, Finish(fm, rm, false, m, f, q))
  {
    var r := Finish(fm, rm, false, m, f, q);
    Midpoint(m, q);
    OmegaPositive(fm);
    if Dyadic(m, q) <= Omega(fm) {
      FinishValue(fm, rm, false, m, f, q);
    } else {
      FinishOverflow(fm, rm, false, m, f, q);
      OverflowedIs(fm, false);
    }
    forall b: Bits | IsFin(fm, b) && RealVal(fm, b) <= x ensures RealVal(fm, b) <= RealVal(fm, r) {
      GapAt(fm, m, q, b);
    }
    assert IsGreatestBelow(fm, x, r);
  }

  lemma FinishUp(fm: Fmt, x: real, m: nat, f: Frac, q: int)
    requires QuantumOk(fm, m, q) && Located(x, m, f, q) && x > 0.0
    ensures IsRounding(fm, Rtp, x, Finish(fm, Rtp, false, m, f, q))
  {
    var r, c := Finish(fm, Rtp, false, m, f, q), Chosen(Rtp, false, m, f);
    Midpoint(m, q);
    OmegaCases(fm, m, q);
    OmegaPositive(fm);
    if Dyadic(c, q) <= Omega(fm) {
      FinishValue(fm, Rtp, false, m, f, q);
      forall b: Bits | IsFin(fm, b) && x <= RealVal(fm, b) ensures RealVal(fm, r) <= RealVal(fm, b) {
        GapAt(fm, m, q, b);
      }
      assert IsLeastAbove(fm, x, r);
    } else {
      FinishOverflow(fm, Rtp, false, m, f, q);
      OverflowedIs(fm, false);
    }
  }

  /** To nearest, `m + 1` is chosen above the midpoint and `m` below it; overflow happens exactly
      from the threshold on. */
  lemma NearOverflow(fm: Fmt, rm: Rm, x: real, m: nat, f: Frac, q: int)
    requires rm.Rne? || rm.Rna?
    requires QuantumOk(fm, m, q) && Located(x, m, f, q)
    ensures Dyadic(Chosen(rm, false, m, f), q) > Omega(fm) <==> x >= Threshold(fm)
  {
    Midpoint(m, q);
    OmegaInterval(fm, m, q);
    OmegaPositive(fm);
    NearChoice(rm, m, f, Dyadic(m, q), Dyadic(2 * m + 1, q - 1), Dyadic(m + 1, q), x, Omega(fm), Threshold(fm));
  }

  /** The same with the two candidates, their midpoint and the two bounds given as reals. */
  lemma NearChoice(rm: Rm, m: nat, f: Frac, lo: real, mid: real, hi: real, x: real, max: real, limit: real)
    requires rm.Rne? || rm.Rna?
    requires lo < mid < hi && max < limit
    requires if f.FZero? then x == lo else if f.FBelow? then lo < x < mid else if f.FHalf? then x == mid
      else mid < x < hi
    requires hi <= max || (lo == max && mid == limit && m % 2 == 1) || lo > limit
    ensures (if Chosen(rm, false, m, f) == m then lo else hi) > max <==> x >= limit
  {
  }

  lemma FinishNearest(fm: Fmt, rm: Rm, x: real, m: nat, f: Frac, q: int, b: Bits)
    requires rm.Rne? || rm.Rna?
    requires QuantumOk(fm, m, q) && Located(x, m, f, q)
    requires Dyadic(Chosen(rm, false, m, f), q) <= Omega(fm) && IsFin(fm, b)
    ensures var r := Finish(fm, rm, false, m, f, q);
      && IsFin(fm, r)
      && Abs(RealVal(fm, r) - x) <= Abs(RealVal(fm, b) - x)
      && (TiesWith(fm, x, r, b) ==>
            f == FHalf && (RealVal(fm, b) == Dyadic(m, q) || RealVal(fm, b) == Dyadic(m + 1, q)))
  {
    FinishValue(fm, rm, false, m, f, q);
    Midpoint(m, q);
    GapAt(fm, m, q, b);
  }

  /** The low bit of a finite encoding is the parity of its significand. */
  lemma LowBit(fm: Fmt, a: Bits)
    requires IsFin(fm, a)
    ensures a[0] <==> Decode(fm, a).Fin? && Decode(fm, a).m % 2 == 1
  {
    var v := Decode(fm, a);
    CodeOfValue(fm, a);
    CodeParity(fm, a);
    QuantumRange(fm);
    DecodeCanonical(fm, a);
    if v.Fin? { ShlDouble(v.e - Qmin(fm), P(fm) - 2); }
  }

  lemma CodeParity(fm: Fmt, a: Bits)
    requires |a| == W(fm)
    ensures a[0] <==> Code(fm, a) % 2 == 1
  {
    CodeIsMagnitude(fm, a);
    HalfOf(a);
    SameParity(UVal(a), Code(fm, a), SignBit(a), Pow2(W(fm) - 1), Pow2(W(fm) - 2));
  }

  lemma SameParity(u: nat, c: nat, neg: bool, h: nat, k: nat)
    requires u == c + Top(neg, h) && h == 2 * k
    ensures u % 2 == c % 2
  {
  }

  lemma LowBitOf(fm: Fmt, a: Bits, m: nat, e: int)
    requires IsFin(fm, a) && RealVal(fm, a) == Dyadic(m, e) && (m == 0 || Canonical(fm, m, e))
    ensures a[0] <==> m % 2 == 1
  {
    DecodeCanonical(fm, a);
    LowBit(fm, a);
    var v := Decode(fm, a);
    DyadicNeg(0, e);
    if m > 0 { DyadicPositive(m, e); }
    if v.Fin? {
      DyadicPositive(v.m, v.e);
      DyadicNeg(v.m, v.e);
      if m > 0 { CanonicalUnique(fm, v.m, v.e, m, e); }
    }
  }

  /** On a tie the even neighbour is chosen. */
  lemma FinishEven(fm: Fmt, x: real, m: nat, q: int)
    requires QuantumOk(fm, m, q)
    requires Dyadic(Chosen(Rne, false, m, FHalf), q) <= Omega(fm)
    ensures !Finish(fm, Rne, false, m, FHalf, q)[0]
  {
    var r, c := Finish(fm, Rne, false, m, FHalf, q), Chosen(Rne, false, m, FHalf);
    FinishValue(fm, Rne, false, m, FHalf, q);
    QuantumRange(fm);
    if c == Pow2(P(fm)) {
      CarryCanonical(fm, q);
      LowBitOf(fm, r, Pow2(P(fm) - 1), q + 1);
    } else {
      if c > 0 { QuantumCanonical(fm, c, q); }
      LowBitOf(fm, r, c, q);
    }
  }

  lemma QuantumCanonical(fm: Fmt, c: nat, q: int)
    requires QuantumOk(fm, c, q) && c > 0 && Dyadic(c, q) <= Omega(fm)
    ensures Canonical(fm, c, q)
  {
    QuantumRange(fm);
    BelowOmega(fm, c, q);
    BitLenAtMost(c, P(fm) - 1);
  }

  lemma FinishNear(fm: Fmt, rm: Rm, x: real, m: nat, f: Frac, q: int)
    requires rm.Rne? || rm.Rna?
    requires QuantumOk(fm, m, q) && Located(x, m, f, q) && x > 0.0
    ensures IsRounding(fm, rm, x, Finish(fm, rm, false, m, f, q))
  {
    var r, c := Finish(fm, rm, false, m, f, q), Chosen(rm, false, m, f);
    NearOverflow(fm, rm, x, m, f, q);
    if Dyadic(c, q) > Omega(fm) {
      FinishOverflow(fm, rm, false, m, f, q);
      OverflowedIs(fm, false);
    } else {
      FinishValue(fm, rm, false, m, f, q);
      Midpoint(m, q);
      forall b: Bits | IsFin(fm, b) ensures Abs(RealVal(fm, r) - x) <= Abs(RealVal(fm, b) - x) {
        FinishNearest(fm, rm, x, m, f, q, b);
      }
      forall b: Bits | TiesWith(fm, x, r, b)
        ensures if rm.Rne? then !r[0] else Abs(RealVal(fm, b)) < Abs(RealVal(fm, r))
      {
        FinishNearest(fm, rm, x, m, f, q, b);
        if rm.Rne? { FinishEven(fm, x, m, q); }
      }
    }
  }

  // ----- negative values by mirroring -----

  /** The algorithm mirrors under sign. */
  lemma FinishMirrors(fm: Fmt, rm: Rm, m: nat, f: Frac, q: int)
    requires QuantumOk(fm, m, q)
    ensures Finish(fm, rm, true, m, f, q) == Negate(Finish(fm, Mirror(rm), false, m, f, q))
  {
    var c := Chosen(rm, true, m, f);
    if c == 0 {
      ZeroMirrors(fm);
    } else if AboveOmega(fm, c, q) {
      OverflowMirrors(fm);
    } else {
      FinishEncodable(fm, c, q);
      EncodeMirrors(fm, c, q);
    }
  }

  lemma ZeroMirrors(fm: Fmt)
    ensures ZeroBits(fm, true) == Negate(ZeroBits(fm, false))
  {
    DecodeSpecial(fm, true);
    DecodeSpecial(fm, false);
    DecodeNegate(fm, ZeroBits(fm, false));
    DecodeInjective(fm, ZeroBits(fm, true), Negate(ZeroBits(fm, false)));
  }

  lemma OverflowMirrors(fm: Fmt)
    ensures InfBits(fm, true) == Negate(InfBits(fm, false))
    ensures MaxFinite(fm, true) == Negate(MaxFinite(fm, false))
  {
    DecodeSpecial(fm, true);
    DecodeSpecial(fm, false);
    DecodeMaxFinite(fm, true);
    DecodeMaxFinite(fm, false);
    DecodeNegate(fm, InfBits(fm, false));
    DecodeNegate(fm, MaxFinite(fm, false));
    DecodeInjective(fm, InfBits(fm, true), Negate(InfBits(fm, false)));
    DecodeInjective(fm, MaxFinite(fm, true), Negate(MaxFinite(fm, false)));
  }

  lemma EncodeMirrors(fm: Fmt, c: nat, q: int)
    requires EncodeOk(fm, c, q)
    ensures Encode(fm, true, c, q) == Negate(Encode(fm, false, c, q))
  {
    var r, r' := Encode(fm, true, c, q), Encode(fm, false, c, q);
    DecodeEncode(fm, true, c, q);
    DecodeEncode(fm, false, c, q);
    DecodeCanonical(fm, r);
    DecodeCanonical(fm, r');
    var u, v := Decode(fm, r), Decode(fm, r');
    CanonicalUnique(fm, u.m, u.e, v.m, v.e);
    DecodeNegate(fm, r');
    DecodeInjective(fm, r, Negate(r'));
  }

  /** `Finish` rounds correctly in every mode and for both signs. */
  lemma FinishRounds(fm: Fmt, rm: Rm, neg: bool, x: real, m: nat, f: Frac, q: int)
    requires QuantumOk(fm, m, q) && Located(x, m, f, q) && x > 0.0
    ensures IsRounding(fm, rm, if neg then -x else x, Finish(fm, rm, neg, m, f, q))
  {
    var pos := if neg then Mirror(rm) else rm;
    match pos {
      case Rtz | Rtn => FinishDown(fm, pos, x, m, f, q);
      case Rtp => FinishUp(fm, x, m, f, q);
      case Rne | Rna => FinishNear(fm, pos, x, m, f, q);
    }
    if neg {
      FinishMirrors(fm, rm, m, f, q);
      RoundingMirrors(fm, pos, x, Finish(fm, pos, false, m, f, q));
    }
  }
}
