/** The square root without a real root: its result compared with every finite value by comparing
    squares with the operand. */
module FpSqrtSquares {
  import opened Powers
  import opened Dyadics
  import opened Words
  import opened Nats
  import opened FpFormat
  import opened FpValues
  import opened FpRound
  import opened FpRoundExact
  import opened FpLaws
  import opened FpArith

  ghost function Square(x: real): real { x * x }

  lemma SquareOrder(a: real, b: real)
    requires 0.0 <= a && 0.0 <= b
    ensures a < b <==> Square(a) < Square(b)
    ensures a == b <==> Square(a) == Square(b)
  {
    if a < b { SquareLess(a, b); }
    if b < a { SquareLess(b, a); }
  }

  lemma SquareLess(a: real, b: real)
    requires 0.0 <= a < b
    ensures Square(a) < Square(b)
  {
    SquaresDiffer(a, b, b - a, Square(a), Square(b));
  }

  /** `b^2 = a^2 + 2a(b - a) + (b - a)^2`. */
  lemma SquaresDiffer(a: real, b: real, d: real, a2: real, b2: real)
    requires 0.0 <= a && d > 0.0 && b == a + d && a2 == a * a && b2 == b * b
    ensures a2 < b2
  {
    ProductSign(a, d, a * d);
    ProductSign(d, d, d * d);
    assert b2 == a2 + 2.0 * (a * d) + d * d;
  }

  lemma ProductSign(a: real, d: real, p: real)
    requires a >= 0.0 && d > 0.0 && p == a * d
    ensures p >= 0.0 && (a > 0.0 ==> p > 0.0)
  {
  }

  lemma SquareAbove(x: real)
    requires x > 1.0
    ensures Square(x) > x
  {
    RMulLt(1.0, x, x);
  }

  lemma SquareTwice(x: real)
    ensures Square(2.0 * x) == 4.0 * Square(x)
  {
  }

  lemma SquareDyadic(c: nat, q: int, n: int)
    requires n == q + q
    ensures Square(Dyadic(c, q)) == Dyadic(c * c, n)
  {
    DyadicMul(c, q, c, q);
  }

  /** Where the squared ends and midpoint of `[root, root + 1) * 2^q` lie against `v`. */
  ghost predicate SquaresLocated(v: real, root: nat, f: Frac, q: int)
  {
    var lo, mid, hi := Dyadic(root, q), Dyadic(2 * root + 1, q - 1), Dyadic(root + 1, q);
    && v < Square(hi)
    && match f
       case FZero => v == Square(lo)
       case FBelow => Square(lo) < v < Square(mid)
       case FHalf => v == Square(mid)
       case FAbove => Square(mid) < v
  }

  lemma RootSquares(v: real, y: nat, u: nat, root: nat, q: int)
    requires v == Dyadic(y, 2 * q - u) && IsFloorRoot(Shr(y, u), root)
    ensures SquaresLocated(v, root, ClassifyRoot(y, u, root), q)
  {
    FloorRootShift(y, u, root);
    var lo, mid, hi := Dyadic(root, q), Dyadic(2 * root + 1, q - 1), Dyadic(root + 1, q);
    SquareAgainst(v, y, u, q, root, lo);
    SquareAgainst(v, y, u, q, root + 1, hi);
    HalfSquareAgainst(v, y, u, q, 2 * root + 1, mid);
  }

  lemma SquareAgainst(v: real, y: nat, u: nat, q: int, c: nat, x: real)
    requires v == Dyadic(y, 2 * q - u) && x == Dyadic(c, q)
    ensures v < Square(x) <==> y < Shl(c * c, u)
    ensures v == Square(x) <==> y == Shl(c * c, u)
  {
    SquareDyadic(c, q, 2 * q);
    SquareInQuanta(y, u, q, c);
  }

  lemma HalfSquareAgainst(v: real, y: nat, u: nat, q: int, c: nat, x: real)
    requires v == Dyadic(y, 2 * q - u) && x == Dyadic(c, q - 1)
    ensures v < Square(x) <==> 4 * y < Shl(c * c, u)
    ensures v == Square(x) <==> 4 * y == Shl(c * c, u)
  {
    SquareDyadic(c, q - 1, 2 * q - 2);
    SquareInHalves(y, u, q, c);
  }

  /** The finite value the oracle returns, its integer significand, fraction and quantum. */
  lemma RootParts(fm: Fmt, m0: nat, k0: int) returns (root: nat, f: Frac, q: int)
    requires Canonical(fm, m0, k0)
    ensures QuantumOk(fm, root, q) && f != FHalf && SquaresLocated(Dyadic(m0, k0), root, f, q)
    ensures forall rm: Rm :: RoundSqrt(fm, rm, m0, k0) == Finish(fm, rm, false, root, f, q)
  {
    SameRadicand(m0, k0);
    var (m, k) := EvenExponent(m0, k0);
    RootFits(fm, m, k);
    q := Quantum(fm, RootExponent(m, k));
    var (y, u) := Radicand(m, k, q);
    root := Isqrt(Shr(y, u));
    f := ClassifyRoot(y, u, root);
    RadicandIs(m, k, q);
    RootSquares(Dyadic(m0, k0), y, u, root, q);
    SqrtNeverTies(fm, m0, k0);
    forall rm: Rm ensures RoundSqrt(fm, rm, m0, k0) == Finish(fm, rm, false, root, f, q) {
      RoundSqrtIs(fm, rm, m0, k0, m, k, q, y, u, root, f);
    }
  }

  lemma RoundSqrtIs(fm: Fmt, rm: Rm, m0: nat, k0: int, m: nat, k: int, q: int, y: nat, u: nat, root: nat, f: Frac)
    requires m0 > 0 && (m, k) == EvenExponent(m0, k0) && q == Quantum(fm, RootExponent(m, k))
    requires (y, u) == Radicand(m, k, q) && root == Isqrt(Shr(y, u)) && f == ClassifyRoot(y, u, root)
    requires QuantumOk(fm, root, q)
    ensures RoundSqrt(fm, rm, m0, k0) == Finish(fm, rm, false, root, f, q)
  {
  }

  /** The largest finite value is above one, so it exceeds its own root. */
  lemma RootBelowOmega(fm: Fmt, v: real, root: nat, f: Frac, q: int)
    requires QuantumOk(fm, root, q) && SquaresLocated(v, root, f, q) && v <= Omega(fm)
    ensures Dyadic(root + 1, q) <= Omega(fm)
  {
    Midpoint(root, q);
    OmegaCases(fm, root, q);
    OmegaAboveOne(fm);
    OmegaPositive(fm);
    var lo, mid := Dyadic(root, q), Dyadic(2 * root + 1, q - 1);
    SquareOrder(lo, mid);
    SquareOrder(lo, Omega(fm));
    SquareAbove(Omega(fm));
  }

  lemma OmegaAboveOne(fm: Fmt)
    ensures Omega(fm) > 1.0
  {
    QuantumRange(fm);
    Pow2Mono(1, fm.eb - 1);
    DyadicPow2(P(fm) - 1, Qmax(fm));
    DyadicOrder(Pow2(P(fm) - 1), Pow2(P(fm)) - 1, Qmax(fm));
    DyadicPowMono(0, Emax(fm));
  }

  /** What the modes return, as values. */
  lemma RootValue(fm: Fmt, rm: Rm, root: nat, f: Frac, q: int)
    requires QuantumOk(fm, root, q) && Dyadic(root + 1, q) <= Omega(fm)
    ensures var r := Finish(fm, rm, false, root, f, q);
      IsFin(fm, r) && !SignBit(r) && RealVal(fm, r) == Dyadic(Chosen(rm, false, root, f), q) >= 0.0
  {
    Midpoint(root, q);
    FinishValue(fm, rm, false, root, f, q);
  }

  /** A finite value is at or below the root exactly when its square is at most the operand, and at
      or above it exactly when its square is at least the operand. */
  lemma SideOfRoot(fm: Fmt, v: real, root: nat, f: Frac, q: int, b: Bits)
    requires QuantumOk(fm, root, q) && f != FHalf && SquaresLocated(v, root, f, q)
    requires IsFin(fm, b) && RealVal(fm, b) >= 0.0
    ensures Square(RealVal(fm, b)) <= v <==> RealVal(fm, b) <= Dyadic(root, q)
    ensures v <= Square(RealVal(fm, b)) <==> RealVal(fm, b) >= Dyadic(if f.FZero? then root else root + 1, q)
  {
    var lo, mid, hi := Dyadic(root, q), Dyadic(2 * root + 1, q - 1), Dyadic(root + 1, q);
    GapAt(fm, root, q, b);
    Midpoint(root, q);
    SquareOrder(lo, mid);
    SquareOrder(RealVal(fm, b), lo);
    SquareOrder(RealVal(fm, b), hi);
  }

  /** Every other finite value is on the far side of its midpoint with the nearer end. */
  lemma MidpointOfRoot(fm: Fmt, v: real, root: nat, f: Frac, q: int, r: real, b: Bits)
    requires QuantumOk(fm, root, q) && f != FHalf && SquaresLocated(v, root, f, q)
    requires r == Dyadic(if f.FAbove? then root + 1 else root, q)
    requires IsFin(fm, b) && RealVal(fm, b) >= 0.0
    ensures RealVal(fm, b) > r ==> 4.0 * v < Square(r + RealVal(fm, b))
    ensures RealVal(fm, b) < r ==> Square(r + RealVal(fm, b)) < 4.0 * v
  {
    var lo, mid, hi := Dyadic(root, q), Dyadic(2 * root + 1, q - 1), Dyadic(root + 1, q);
    var s := r + RealVal(fm, b);
    GapAt(fm, root, q, b);
    Midpoint(root, q);
    SquareOrder(lo, mid);
    SquareTwice(lo);
    SquareTwice(mid);
    SquareTwice(hi);
    SquareOrder(s, 2.0 * lo);
    SquareOrder(s, 2.0 * mid);
    SquareOrder(s, 2.0 * hi);
  }

  /** `r` is the root of `v` rounded in the mode `rm`, by comparing squares alone. */
  ghost predicate IsRoundedRoot(fm: Fmt, rm: Rm, v: real, r: Bits)
  {
    && IsFin(fm, r) && !SignBit(r) && RealVal(fm, r) >= 0.0
    && forall b: Bits :: IsFin(fm, b) && RealVal(fm, b) >= 0.0 ==>
         RootSide(rm, v, RealVal(fm, r), RealVal(fm, b))
  }

  /** How the rounded root `r` lies against another value `b`. Downward, `r` is the largest whose
      square is at most `v`; upward the smallest whose square is at least `v`; to nearest, the midpoint
      of `r` and any other value is on the far side of the root. */
  ghost predicate RootSide(rm: Rm, v: real, r: real, b: real)
  {
    match rm
    case Rtn => Square(r) <= v && (Square(b) <= v ==> b <= r)
    case Rtz => Square(r) <= v && (Square(b) <= v ==> b <= r)
    case Rtp => v <= Square(r) && (v <= Square(b) ==> r <= b)
    case _ => (b > r ==> 4.0 * v < Square(r + b)) && (b < r ==> Square(r + b) < 4.0 * v)
  }

  /** `Sqrt` of every positive finite operand, in every mode. */
  lemma SqrtBySquares(fm: Fmt, rm: Rm, a: Bits)
    requires |a| == W(fm) && Decode(fm, a).Fin? && !SignBit(a)
    ensures IsRoundedRoot(fm, rm, RealVal(fm, a), Sqrt(fm, rm, a))
  {
    DecodeCanonical(fm, a);
    var v, x := RealVal(fm, a), Decode(fm, a);
    var root, f, q := RootParts(fm, x.m, x.e);
    OmegaIsLargest(fm, x.m, x.e);
    RootBelowOmega(fm, v, root, f, q);
    RootValue(fm, rm, root, f, q);
    var r := Sqrt(fm, rm, a);
    forall b: Bits | IsFin(fm, b) && RealVal(fm, b) >= 0.0
      ensures RootSide(rm, v, RealVal(fm, r), RealVal(fm, b))
    {
      SideFromParts(fm, rm, v, root, f, q, r, b);
    }
  }

  lemma SideFromParts(fm: Fmt, rm: Rm, v: real, root: nat, f: Frac, q: int, r: Bits, b: Bits)
    requires QuantumOk(fm, root, q) && f != FHalf && SquaresLocated(v, root, f, q)
    requires IsFin(fm, r) && RealVal(fm, r) == Dyadic(Chosen(rm, false, root, f), q) >= 0.0
    requires IsFin(fm, b) && RealVal(fm, b) >= 0.0
    ensures RootSide(rm, v, RealVal(fm, r), RealVal(fm, b))
  {
    if rm.Rne? || rm.Rna? {
      MidpointOfRoot(fm, v, root, f, q, RealVal(fm, r), b);
    } else {
      SideOfRoot(fm, v, root, f, q, r);
      SideOfRoot(fm, v, root, f, q, b);
    }
  }
}
