/** Laws of correct rounding, over every real number: the rounded encoding is unique, rounding is
    monotone and fixes representable values; and the oracle's square roots never tie. */
module FpLaws {
  import opened Powers
  import opened Dyadics
  import opened Words
  import opened Nats
  import opened FpFormat
  import opened FpValues
  import opened FpOrder
  import opened RoundingSpec
  import opened FpRound
  import opened FpRoundExact

  // ----- uniqueness -----

  /** The encoding after `a` in magnitude. */
  function NextAway(fm: Fmt, a: Bits): Bits
    requires |a| == W(fm)
  {
    OfVal(W(fm), Code(fm, a) + 1 + Top(SignBit(a), Pow2(W(fm) - 1)))
  }

  lemma NextAwayCode(fm: Fmt, a: Bits, b: Bits)
    requires |a| == |b| == W(fm) && Code(fm, a) + 1 < Code(fm, b)
    ensures var c := NextAway(fm, a);
      |c| == W(fm) && SignBit(c) == SignBit(a) && Code(fm, c) == Code(fm, a) + 1
  {
    var c, h := NextAway(fm, a), Pow2(W(fm) - 1);
    var v := Code(fm, a) + 1 + Top(SignBit(a), h);
    CodeBound(fm, b);
    UValOfVal(W(fm), v);
    LowBitsSmall(v, W(fm));
    CodeIsMagnitude(fm, c);
    CodeBound(fm, c);
  }

  lemma CodeBound(fm: Fmt, a: Bits)
    requires |a| == W(fm)
    ensures Code(fm, a) < Pow2(W(fm) - 1)
  {
    CodeIsMagnitude(fm, a);
    UValBound(a);
    MsbIs(a);
  }

  /** Between two finite values whose codes are not adjacent lies another. */
  lemma StrictlyBetween(fm: Fmt, a: Bits, b: Bits) returns (c: Bits)
    requires IsFin(fm, a) && IsFin(fm, b) && SignBit(a) == SignBit(b)
    requires Code(fm, a) + 1 < Code(fm, b)
    ensures IsFin(fm, c)
    ensures if SignBit(a) then RealVal(fm, b) < RealVal(fm, c) < RealVal(fm, a)
            else RealVal(fm, a) < RealVal(fm, c) < RealVal(fm, b)
  {
    c := NextAway(fm, a);
    NextAwayCode(fm, a, b);
    CodeKinds(fm, a);
    CodeKinds(fm, b);
    CodeKinds(fm, c);
    KeyOrder(fm, a, c);
    KeyOrder(fm, c, a);
    KeyOrder(fm, b, c);
    KeyOrder(fm, c, b);
  }

  /** Two nearest values on either side of `x` are neighbours, so only one has an even low bit. */
  lemma TieNeighbours(fm: Fmt, x: real, a: Bits, b: Bits)
    requires IsNearest(fm, x, a) && IsNearest(fm, x, b) && TiesWith(fm, x, a, b)
    requires SignBit(a) == SignBit(b) && Code(fm, a) < Code(fm, b)
    ensures a[0] != b[0]
  {
    if Code(fm, a) + 1 < Code(fm, b) {
      var c := StrictlyBetween(fm, a, b);
    }
    CodeParity(fm, a);
    CodeParity(fm, b);
  }

  /** There is only one correct rounding. */
  lemma RoundingUnique(fm: Fmt, rm: Rm, x: real, a: Bits, b: Bits)
    requires x != 0.0 && IsRounding(fm, rm, x, a) && IsRounding(fm, rm, x, b)
    ensures a == b
  {
    if IsFin(fm, a) && IsFin(fm, b) {
      KeyOrder(fm, a, b);
      if RealVal(fm, a) != RealVal(fm, b) {
        assert TiesWith(fm, x, a, b) && TiesWith(fm, x, b, a);
        KeyOrder(fm, b, a);
        if Code(fm, a) < Code(fm, b) { TieNeighbours(fm, x, a, b); } else { TieNeighbours(fm, x, b, a); }
      }
    } else {
      DecodeInjective(fm, a, b);
    }
  }

  // ----- monotonicity -----

  lemma FinRange(fm: Fmt, a: Bits)
    requires IsFin(fm, a)
    ensures -Omega(fm) <= RealVal(fm, a) <= Omega(fm)
    ensures RealVal(fm, a) == 0.0 <==> Decode(fm, a).Zero?
    ensures RealVal(fm, a) != 0.0 ==> SignBit(a) == (RealVal(fm, a) < 0.0)
  {
    OmegaPositive(fm);
    DecodeCanonical(fm, a);
    var v := Decode(fm, a);
    if v.Fin? {
      OmegaIsLargest(fm, v.m, v.e);
      DyadicPositive(v.m, v.e);
      DyadicNeg(v.m, v.e);
    }
  }

  /** The value of a non-NaN encoding, with the overflow threshold standing in for infinity. */
  ghost function Extended(fm: Fmt, a: Bits): real
    requires |a| == W(fm) && !IsNan(fm, a)
  {
    var v := Decode(fm, a);
    if !v.Inf? then RealVal(fm, a) else if v.neg then -Threshold(fm) else Threshold(fm)
  }

  lemma ExtendedOrder(fm: Fmt, a: Bits, b: Bits)
    requires |a| == |b| == W(fm) && !IsNan(fm, a) && !IsNan(fm, b)
    requires Extended(fm, a) <= Extended(fm, b) && (SignBit(b) ==> SignBit(a))
    ensures Key(fm, a) <= Key(fm, b)
  {
    OmegaPositive(fm);
    if IsFin(fm, a) { FinRange(fm, a); }
    if IsFin(fm, b) { FinRange(fm, b); }
    if IsFin(fm, a) && IsFin(fm, b) {
      KeyOrder(fm, a, b);
      KeyOrder(fm, b, a);
    } else if Decode(fm, a) == Inf(true) {
      InfKey(fm, a, b);
    } else {
      InfKey(fm, b, a);
    }
  }

  /** Rounding is monotone, in the order of the encodings, in every mode. */
  lemma RoundingMonotone(fm: Fmt, rm: Rm, x: real, y: real, a: Bits, b: Bits)
    requires x != 0.0 && y != 0.0 && x <= y
    requires IsRounding(fm, rm, x, a) && IsRounding(fm, rm, y, b)
    ensures Key(fm, a) <= Key(fm, b)
  {
    if x == y {
      RoundingUnique(fm, rm, x, a, b);
    } else if SignBit(a) == SignBit(b) {
      ExtendedMonotone(fm, rm, x, y, a, b);
      ExtendedOrder(fm, a, b);
    }
  }

  lemma ExtendedMonotone(fm: Fmt, rm: Rm, x: real, y: real, a: Bits, b: Bits)
    requires x != 0.0 && y != 0.0 && x < y
    requires IsRounding(fm, rm, x, a) && IsRounding(fm, rm, y, b) && SignBit(a) == SignBit(b)
    ensures !IsNan(fm, a) && !IsNan(fm, b)
    ensures Extended(fm, a) <= Extended(fm, b)
  {
    OmegaPositive(fm);
    if IsFin(fm, a) { FinRange(fm, a); }
    if IsFin(fm, b) { FinRange(fm, b); }
    if IsFin(fm, a) && IsFin(fm, b) && (rm.Rne? || rm.Rna?) {
      assert Abs(RealVal(fm, a) - x) <= Abs(RealVal(fm, b) - x);
      assert Abs(RealVal(fm, b) - y) <= Abs(RealVal(fm, a) - y);
    }
  }

  // ----- representable values -----

  /** Rounding a nonzero value of the format returns it, in every mode. */
  lemma RoundingOfValue(fm: Fmt, rm: Rm, a: Bits)
    requires IsFin(fm, a) && RealVal(fm, a) != 0.0
    ensures IsRounding(fm, rm, RealVal(fm, a), a)
  {
    FinRange(fm, a);
    OmegaPositive(fm);
  }

  /** The oracle's rounding of a quotient depends on the real value alone. */
  lemma RoundRatioIs(fm: Fmt, rm: Rm, neg: bool, num: nat, den: nat, exp: int, x: real, r: Bits)
    requires num > 0 && den > 0
    requires x == if neg then -Ratio(num, den, exp) else Ratio(num, den, exp)
    requires IsRounding(fm, rm, x, r)
    ensures RoundRatio(fm, rm, neg, num, den, exp) == r
  {
    RatioFacts(num, den, exp);
    RoundRatioRounds(fm, rm, neg, num, den, exp);
    RoundingUnique(fm, rm, x, RoundRatio(fm, rm, neg, num, den, exp), r);
  }

  /** Rounding a quotient of the other sign mirrors the mode. */
  lemma RoundRatioMirrors(fm: Fmt, rm: Rm, neg: bool, num: nat, den: nat, exp: int)
    requires num > 0 && den > 0
    ensures RoundRatio(fm, rm, !neg, num, den, exp) ==
      Negate(RoundRatio(fm, Mirror(rm), neg, num, den, exp))
  {
    RatioFacts(num, den, exp);
    var x := if neg then -Ratio(num, den, exp) else Ratio(num, den, exp);
    var r := RoundRatio(fm, Mirror(rm), neg, num, den, exp);
    RoundRatioRounds(fm, Mirror(rm), neg, num, den, exp);
    RoundingMirrors(fm, Mirror(rm), x, r);
    assert Mirror(Mirror(rm)) == rm;
    RoundRatioIs(fm, rm, !neg, num, den, exp, -x, Negate(r));
  }

  // ----- square roots never tie -----

  /** A root halfway between two neighbours would need a significand of more than `p` bits, or an
      exponent below the smallest quantum. */
  lemma SqrtNeverTies(fm: Fmt, m0: nat, k0: int)
    requires Canonical(fm, m0, k0)
    ensures var (m, k) := EvenExponent(m0, k0);
      var (y, u) := Radicand(m, k, Quantum(fm, RootExponent(m, k)));
      ClassifyRoot(y, u, Isqrt(Shr(y, u))) != FHalf
  {
    var (m, k) := EvenExponent(m0, k0);
    var e := RootExponent(m, k);
    var q := Quantum(fm, e);
    var (y, u) := Radicand(m, k, q);
    RootFits(fm, m, k);
    QuantumRange(fm);
    if e >= Emin(fm) { BitLenBounds(Isqrt(Shr(y, u))); }
    NoTie(fm, y, u, Isqrt(Shr(y, u)));
  }

  lemma NoTie(fm: Fmt, y: nat, u: nat, root: nat)
    requires u >= 2 ==> y < 2 * Pow2(P(fm)) && Pow2(P(fm) - 1) <= root
    ensures ClassifyRoot(y, u, root) != FHalf
  {
    var s := (2 * root + 1) * (2 * root + 1);
    OddSquare(root);
    if 4 * y == Shl(s, u) && u >= 2 {
      QuarterShift(y, s, u);
      TieTooLarge(fm, root, y);
    }
  }

  lemma OddSquare(root: nat)
    ensures (2 * root + 1) * (2 * root + 1) == 4 * (root * root + root) + 1
  {
  }

  lemma QuarterShift(y: nat, s: nat, u: nat)
    requires u >= 2 && 4 * y == Shl(s, u)
    ensures y == Shl(s, u - 2) && y >= s
  {
  }

  lemma TieTooLarge(fm: Fmt, root: nat, y: nat)
    requires Pow2(P(fm) - 1) <= root
    requires (2 * root + 1) * (2 * root + 1) <= y
    ensures y >= 2 * Pow2(P(fm))
  {
    Pow2Mono(1, P(fm) - 1);
    MulLe(Pow2(P(fm)), 2 * root + 1, 2 * root + 1);
    MulLe(2, 2 * root + 1, Pow2(P(fm)));
    MulComm(Pow2(P(fm)), 2 * root + 1);
  }

  /** So the two nearest modes round every square root alike. */
  lemma SqrtNearestModesAgree(fm: Fmt, m: nat, k: int)
    requires Canonical(fm, m, k)
    ensures RoundSqrt(fm, Rne, m, k) == RoundSqrt(fm, Rna, m, k)
  {
    SqrtNeverTies(fm, m, k);
  }
}
