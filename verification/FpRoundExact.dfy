/** Rounding a quotient of naturals and rounding a square root: each finds the quantum, the integer
    part and the fraction by exact integer arithmetic, and hands them to `Finish`. */
module FpRoundExact {
  import opened Powers
  import opened Dyadics
  import opened Words
  import opened Nats
  import opened FpFormat
  import opened RoundingSpec
  import opened FpRound

  // ----- quanta -----

  /** The quantum exponent of a magnitude in the binade of `2^e`. */
  function Quantum(fm: Fmt, e: int): int { Max(e, Emin(fm)) - P(fm) + 1 }

  /** An integer part taken at that quantum fits the precision, and fills it for normal values. */
  lemma QuantumFits(fm: Fmt, x: real, e: int, m: nat, f: Frac)
    requires Dyadic(1, e) <= x < Dyadic(1, e + 1)
    requires Located(x, m, f, Quantum(fm, e))
    ensures QuantumOk(fm, m, Quantum(fm, e))
    ensures if e >= Emin(fm) then BitLen(m) == P(fm) else BitLen(m) < P(fm)
  {
    var q, p := Quantum(fm, e), P(fm);
    Midpoint(m, q);
    if e >= Emin(fm) {
      TopInQuanta(x, m, q, p);
      BitLenIs(m, p - 1);
    } else {
      DyadicPowMono(e + 1, Emin(fm));
      DyadicPow2(p - 1, q);
      DyadicOrder(m, Pow2(p - 1), q);
      BitLenAtMost(m, p - 1);
      Pow2Mono(p - 1, p);
    }
  }

  lemma TopInQuanta(x: real, m: nat, q: int, p: nat)
    requires p > 0 && Dyadic(1, p - 1 + q) <= x < Dyadic(1, p + q)
    requires Dyadic(m, q) <= x < Dyadic(m + 1, q)
    ensures Pow2(p - 1) <= m < Pow2(p)
  {
    DyadicPow2(p, q);
    DyadicPow2(p - 1, q);
    DyadicOrder(m, Pow2(p), q);
    DyadicOrder(Pow2(p - 1), m + 1, q);
  }

  // ----- quotients -----

  /** The real number `num / den * 2^exp`. */
  ghost function Ratio(num: nat, den: nat, exp: int): real
    requires den > 0
  {
    Dyadic(num, exp) / (den as real)
  }

  lemma RatioFacts(num: nat, den: nat, exp: int)
    requires num > 0 && den > 0
    ensures Ratio(num, den, exp) > 0.0
    ensures den == 1 ==> Ratio(num, den, exp) == Dyadic(num, exp)
  {
    DyadicPositive(num, exp);
    DivPositive(Dyadic(num, exp), den as real);
  }

  lemma DivPositive(a: real, b: real)
    requires a > 0.0 && b > 0.0
    ensures a / b > 0.0
  {
  }

  /** Comparing a quotient with a dyadic by cross-multiplication. */
  lemma RatioCompare(num: nat, den: nat, exp: int, c: int, k: int)
    requires den > 0
    ensures CompareReal(Ratio(num, den, exp), Dyadic(c, k)) ==
      CompareReal(Dyadic(num, exp), Dyadic(c * den, k))
  {
    DyadicTimes(c, k, den);
    RatioAgainst(num, den, exp, Dyadic(c, k), Dyadic(c * den, k));
  }

  lemma RatioAgainst(num: nat, den: nat, exp: int, y: real, yd: real)
    requires den > 0 && y * den as real == yd
    ensures CompareReal(Ratio(num, den, exp), y) == CompareReal(Dyadic(num, exp), yd)
  {
    DivTimes(Dyadic(num, exp), y, den as real, yd);
  }

  lemma DivTimes(a: real, b: real, d: real, bd: real)
    requires d > 0.0 && b * d == bd
    ensures CompareReal(a / d, b) == CompareReal(a, bd)
  {
    var x := a / d;
    assert x * d == a;
    if x < b { RMulLt(x, b, d); }
    if b < x { RMulLt(b, x, d); }
  }

  /** `e`: floor(log2 of num / den * 2^exp). */
  function RatioExponent(num: nat, den: nat, exp: int): int
    requires num > 0 && den > 0
  {
    var l := BitLen(num) - BitLen(den);
    exp + if CmpScaled(num, 0, den, l).Less? then l - 1 else l
  }

  lemma RatioBinade(num: nat, den: nat, exp: int)
    requires num > 0 && den > 0
    ensures var e := RatioExponent(num, den, exp);
      Dyadic(1, e) <= Ratio(num, den, exp) < Dyadic(1, e + 1)
  {
    var e := RatioExponent(num, den, exp);
    DyadicBinade(num, den, exp, e);
    RatioAgainstPower(num, den, exp, e);
    RatioAgainstPower(num, den, exp, e + 1);
  }

  /** The same before dividing. */
  lemma DyadicBinade(num: nat, den: nat, exp: int, e: int)
    requires num > 0 && den > 0 && e == RatioExponent(num, den, exp)
    ensures Dyadic(den, e) <= Dyadic(num, exp) < Dyadic(den, e + 1)
  {
    var l := BitLen(num) - BitLen(den);
    AgainstScaled(num, den, exp, l, exp + l);
    if e == exp + l {
      TopBelow(num, exp, den, e + 1);
    } else {
      TopBelow(den, e, num, exp);
    }
  }

  lemma AgainstScaled(num: nat, den: nat, exp: int, l: int, e: int)
    requires num > 0 && den > 0 && e == exp + l
    ensures CompareReal(Dyadic(num, exp), Dyadic(den, e)) == CmpScaled(num, 0, den, l)
  {
    CmpScaledExact(num, 0, den, l);
    ShiftCompare(num, 0, den, l, exp);
  }

  lemma RatioAgainstPower(num: nat, den: nat, exp: int, k: int)
    requires den > 0
    ensures CompareReal(Ratio(num, den, exp), Dyadic(1, k)) ==
      CompareReal(Dyadic(num, exp), Dyadic(den, k))
  {
    RatioCompare(num, den, exp, 1, k);
  }

  /** Scaling both sides of a comparison by the same power of two. */
  lemma ShiftCompare(a: nat, x: int, b: nat, y: int, k: int)
    ensures CompareReal(Dyadic(a, x), Dyadic(b, y)) == CompareReal(Dyadic(a, x + k), Dyadic(b, y + k))
  {
    var s := Min(x, y);
    DyadicCompare(a, x, b, y, s);
    DyadicCompare(a, x + k, b, y + k, s + k);
  }

  /** The dividend and divisor whose quotient is `num / den * 2^exp` in quanta of `2^q`. */
  function Dividend(num: nat, exp: int, q: int): nat
  {
    if exp >= q then Shl(num, exp - q) else num
  }

  function Divisor(den: nat, exp: int, q: int): nat
  {
    if exp >= q then den else Shl(den, q - exp)
  }

  /** Integer division locates the quotient. */
  lemma RatioLocated(num: nat, den: nat, exp: int, q: int)
    requires num > 0 && den > 0
    ensures Divisor(den, exp, q) > 0
    ensures var n, d := Dividend(num, exp, q), Divisor(den, exp, q);
      Located(Ratio(num, den, exp), Quot(n, d), Classify(Rem(n, d), d), q)
  {
    var n, d := Dividend(num, exp, q), Divisor(den, exp, q);
    var m, r := Quot(n, d), Rem(n, d);
    QuotRem(n, d);
    RatioInQuanta(num, den, exp, q, m);
    RatioInQuanta(num, den, exp, q, m + 1);
    RatioInHalves(num, den, exp, q, 2 * m + 1);
    LocatedByDivision(Ratio(num, den, exp), n, d, q, m, r);
  }

  lemma LocatedByDivision(x: real, n: nat, d: nat, q: int, m: nat, r: nat)
    requires n == m * d + r && r < d
    requires CompareReal(x, Dyadic(m, q)) == Compare(n, m * d)
    requires CompareReal(x, Dyadic(m + 1, q)) == Compare(n, (m + 1) * d)
    requires CompareReal(x, Dyadic(2 * m + 1, q - 1)) == Compare(2 * n, (2 * m + 1) * d)
    ensures Located(x, m, Classify(r, d), q)
  {
    assert (m + 1) * d == m * d + d;
    assert (2 * m + 1) * d == 2 * (m * d) + d;
  }

  lemma RatioInQuanta(num: nat, den: nat, exp: int, q: int, k: nat)
    requires den > 0
    ensures CompareReal(Ratio(num, den, exp), Dyadic(k, q)) ==
      Compare(Dividend(num, exp, q), k * Divisor(den, exp, q))
  {
    RatioCompare(num, den, exp, k, q);
    DyadicCompare(num, exp, k * den, q, Min(exp, q));
    ShlMul(k, den, q - Min(exp, q));
  }

  lemma RatioInHalves(num: nat, den: nat, exp: int, q: int, k: nat)
    requires den > 0
    ensures CompareReal(Ratio(num, den, exp), Dyadic(k, q - 1)) ==
      Compare(2 * Dividend(num, exp, q), k * Divisor(den, exp, q))
  {
    RatioCompare(num, den, exp, k, q - 1);
    var s := Min(exp, q) - 1;
    DyadicCompare(num, exp, k * den, q - 1, s);
    ShlMul(k, den, q - 1 - s);
  }

  /** The quotient at the quantum `RoundRatio` picks fits, so its debug assertion holds. */
  lemma RatioQuantum(fm: Fmt, num: nat, den: nat, exp: int)
    requires num > 0 && den > 0
    ensures var e := RatioExponent(num, den, exp);
      var q := Quantum(fm, e);
      var n, d := Dividend(num, exp, q), Divisor(den, exp, q);
      && d > 0
      && QuantumOk(fm, Quot(n, d), q)
      && (if e >= Emin(fm) then BitLen(Quot(n, d)) == P(fm) else BitLen(Quot(n, d)) < P(fm))
      && Located(Ratio(num, den, exp), Quot(n, d), Classify(Rem(n, d), d), q)
  {
    var e := RatioExponent(num, den, exp);
    var q := Quantum(fm, e);
    RatioBinade(num, den, exp);
    RatioLocated(num, den, exp, q);
    var n, d := Dividend(num, exp, q), Divisor(den, exp, q);
    QuantumFits(fm, Ratio(num, den, exp), e, Quot(n, d), Classify(Rem(n, d), d));
  }

  /** Rounds `(-1)^neg * num / den * 2^exp` for nonzero `num` and `den`. */
  function RoundRatio(fm: Fmt, rm: Rm, neg: bool, num: nat, den: nat, exp: int): (r: Bits)
    requires num > 0 && den > 0
    ensures |r| == W(fm)
  {
    RatioQuantum(fm, num, den, exp);
    var e := RatioExponent(num, den, exp);
    var q := Quantum(fm, e);
    var n, d := Dividend(num, exp, q), Divisor(den, exp, q);
    Finish(fm, rm, neg, Quot(n, d), Classify(Rem(n, d), d), q)
  }

  /** `RoundRatio` is correct rounding, for every format, mode, sign and quotient. */
  lemma RoundRatioRounds(fm: Fmt, rm: Rm, neg: bool, num: nat, den: nat, exp: int)
    requires num > 0 && den > 0
    ensures var x := Ratio(num, den, exp);
      IsRounding(fm, rm, if neg then -x else x, RoundRatio(fm, rm, neg, num, den, exp))
  {
    RatioQuantum(fm, num, den, exp);
    RatioFacts(num, den, exp);
    var q := Quantum(fm, RatioExponent(num, den, exp));
    var n, d := Dividend(num, exp, q), Divisor(den, exp, q);
    FinishRounds(fm, rm, neg, Ratio(num, den, exp), Quot(n, d), Classify(Rem(n, d), d), q);
  }

  // ----- square roots -----

  /** `s` is the positive square root of `m * 2^k`. */
  ghost predicate IsRoot(s: real, m: nat, k: int) { s > 0.0 && s * s == Dyadic(m, k) }

  /** Comparing a root with a dyadic by comparing squares. */
  lemma RootCompare(s: real, m: nat, k: int, c: nat, q: int)
    requires m > 0 && IsRoot(s, m, k)
    ensures CompareReal(s, Dyadic(c, q)) == CompareReal(Dyadic(m, k), Dyadic(c * c, q + q))
  {
    DyadicMul(c, q, c, q);
    DyadicNeg(0, q);
    DyadicNeg(0, q + q);
    if c == 0 {
      DyadicPositive(m, k);
      assert c * c == 0;
    } else {
      DyadicPositive(c, q);
      SquareCompare(s, Dyadic(c, q));
    }
  }

  lemma SquareCompare(a: real, b: real)
    requires a > 0.0 && b > 0.0
    ensures CompareReal(a, b) == CompareReal(a * a, b * b)
  {
    if a < b { RMulLt(a, b, a); RMulLt(a, b, b); }
    if b < a { RMulLt(b, a, a); RMulLt(b, a, b); }
  }

  /** The radicand with an even exponent. */
  function EvenExponent(m: nat, k: int): (nat, int)
  {
    if k % 2 == 1 then (2 * m, k - 1) else (m, k)
  }

  function RootExponent(m: nat, k: int): int { (BitLen(m) - 1 + k) / 2 }

  /** `sqrt(Y) - floor(sqrt(Y))` against one half, for `Y = y / 2^u` and `root` its integer part. */
  function ClassifyRoot(y: nat, u: nat, root: nat): Frac
  {
    var mid := 2 * root + 1;
    if Shl(root * root, u) == y then FZero
    else if 4 * y < Shl(mid * mid, u) then FBelow
    else if 4 * y == Shl(mid * mid, u) then FHalf
    else FAbove
  }

  /** The scaled radicand: `m * 2^k` is `y / 2^u` in units of `2^(2q)`. */
  function Radicand(m: nat, k: int, q: int): (nat, nat)
  {
    var t := k - 2 * q;
    if t >= 0 then (Shl(m, t), 0) else (m, -t)
  }

  lemma RadicandIs(m: nat, k: int, q: int)
    ensures var (y, u) := Radicand(m, k, q); Dyadic(m, k) == Dyadic(y, 2 * q - u)
  {
    if k - 2 * q >= 0 { DyadicShl(m, k - 2 * q, 2 * q); }
  }

  /** Integer square roots and comparisons of squares locate the root. */
  lemma RootLocated(s: real, m: nat, k: int, q: int)
    requires m > 0 && IsRoot(s, m, k)
    ensures var (y, u) := Radicand(m, k, q);
      var root := Isqrt(Shr(y, u));
      Located(s, root, ClassifyRoot(y, u, root), q)
  {
    var (y, u) := Radicand(m, k, q);
    var root := Isqrt(Shr(y, u));
    RadicandIs(m, k, q);
    FloorRootShift(y, u, root);
    RootInQuanta(s, y, u, q, m, k, root);
    RootInQuanta(s, y, u, q, m, k, root + 1);
    RootInHalves(s, y, u, q, m, k, 2 * root + 1);
    LocatedBySquares(s, y, u, q, root);
  }

  /** The integer root of the integer part is the integer part of the root. */
  lemma FloorRootShift(y: nat, u: nat, root: nat)
    requires IsFloorRoot(Shr(y, u), root)
    ensures Shl(root * root, u) <= y < Shl((root + 1) * (root + 1), u)
  {
    ShrLow(y, u);
    ShlOrder(root * root, Shr(y, u), u);
    ShlOrder(Shr(y, u), (root + 1) * (root + 1), u);
  }

  lemma LocatedBySquares(s: real, y: nat, u: nat, q: int, root: nat)
    requires Shl(root * root, u) <= y < Shl((root + 1) * (root + 1), u)
    requires CompareReal(s, Dyadic(root, q)) == Compare(y, Shl(root * root, u))
    requires CompareReal(s, Dyadic(root + 1, q)) == Compare(y, Shl((root + 1) * (root + 1), u))
    requires CompareReal(s, Dyadic(2 * root + 1, q - 1)) ==
      Compare(4 * y, Shl((2 * root + 1) * (2 * root + 1), u))
    ensures Located(s, root, ClassifyRoot(y, u, root), q)
  {
  }

  /** A square in quanta, and in half quanta, against the radicand. */
  lemma SquareInQuanta(y: nat, u: nat, q: int, c: nat)
    ensures CompareReal(Dyadic(y, 2 * q - u), Dyadic(c * c, 2 * q)) == Compare(y, Shl(c * c, u))
  {
    DyadicCompare(y, 2 * q - u, c * c, 2 * q, 2 * q - u);
  }

  lemma SquareInHalves(y: nat, u: nat, q: int, c: nat)
    ensures CompareReal(Dyadic(y, 2 * q - u), Dyadic(c * c, 2 * q - 2)) == Compare(4 * y, Shl(c * c, u))
  {
    DyadicCompare(y, 2 * q - u, c * c, 2 * q - 2, 2 * q - 2 - u);
    ShlDouble(y, 0);
    ShlDouble(y, 1);
  }

  lemma RootInQuanta(s: real, y: nat, u: nat, q: int, m: nat, k: int, c: nat)
    requires m > 0 && IsRoot(s, m, k) && Dyadic(m, k) == Dyadic(y, 2 * q - u)
    ensures CompareReal(s, Dyadic(c, q)) == Compare(y, Shl(c * c, u))
  {
    RootCompare(s, m, k, c, q);
    SquareInQuanta(y, u, q, c);
  }

  lemma RootInHalves(s: real, y: nat, u: nat, q: int, m: nat, k: int, c: nat)
    requires m > 0 && IsRoot(s, m, k) && Dyadic(m, k) == Dyadic(y, 2 * q - u)
    ensures CompareReal(s, Dyadic(c, q - 1)) == Compare(4 * y, Shl(c * c, u))
  {
    RootCompare(s, m, k, c, q - 1);
    SquareInHalves(y, u, q, c);
  }

  lemma SameRadicand(m: nat, k: int)
    ensures var (m', k') := EvenExponent(m, k);
      Dyadic(m', k') == Dyadic(m, k) && m' >= m && k' % 2 == 0
  {
    DyadicDouble(m, k - 1);
  }

  /** The integer root at the quantum `RoundSqrt` picks fits. Stated without the real root, which
      the function itself does not have. */
  lemma RootFits(fm: Fmt, m: nat, k: int)
    requires m > 0 && k % 2 == 0
    ensures var e := RootExponent(m, k);
      var q := Quantum(fm, e);
      var (y, u) := Radicand(m, k, q);
      var root := Isqrt(Shr(y, u));
      && QuantumOk(fm, root, q)
      && (if e >= Emin(fm) then BitLen(root) == P(fm) else BitLen(root) < P(fm))
  {
    var e := RootExponent(m, k);
    var q := Quantum(fm, e);
    var (y, u) := Radicand(m, k, q);
    RadicandTop(m, k, q);
    RootFitsAt(fm, Shr(y, u), BitLen(m) + k - 2 * q, e, q);
  }

  lemma RootFitsAt(fm: Fmt, n: nat, top: int, e: int, q: int)
    requires q == Quantum(fm, e) && 2 * e + 1 <= top + 2 * q <= 2 * e + 2
    requires n < Pow2(Max(top, 0)) && (top > 0 ==> Pow2(top - 1) <= n)
    ensures QuantumOk(fm, Isqrt(n), q)
    ensures if e >= Emin(fm) then BitLen(Isqrt(n)) == P(fm) else BitLen(Isqrt(n)) < P(fm)
  {
    if e >= Emin(fm) { FullRoot(n, top, P(fm)); } else { PartRoot(n, top, P(fm)); }
  }

  lemma FullRoot(n: nat, top: int, p: nat)
    requires 2 * p - 1 <= top <= 2 * p && p > 0
    requires Pow2(top - 1) <= n < Pow2(top)
    ensures Pow2(p - 1) <= Isqrt(n) < Pow2(p) && BitLen(Isqrt(n)) == p
  {
    RootAtLeast(n, p - 1, top - 1);
    RootBelow(n, p, top);
    BitLenIs(Isqrt(n), p - 1);
  }

  lemma PartRoot(n: nat, top: int, p: nat)
    requires top <= 2 * p - 2 && p > 0 && n < Pow2(Max(top, 0))
    ensures Isqrt(n) < Pow2(p - 1) <= Pow2(p) && BitLen(Isqrt(n)) < p
  {
    RootBelow(n, p - 1, Max(top, 0));
    BitLenAtMost(Isqrt(n), p - 1);
    Pow2Mono(p - 1, p);
  }

  lemma RootAtLeast(n: nat, i: nat, j: nat)
    requires i + i <= j && Pow2(j) <= n
    ensures Pow2(i) <= Isqrt(n)
  {
    Pow2Mono(i + i, j);
    Pow2Add(i, i);
    SquareWithin(Isqrt(n), Pow2(i), n);
  }

  lemma RootBelow(n: nat, i: nat, j: nat)
    requires j <= i + i && n < Pow2(j)
    ensures Isqrt(n) < Pow2(i)
  {
    Pow2Mono(j, i + i);
    Pow2Add(i, i);
    SquareBeyond(Isqrt(n), Pow2(i), n);
  }

  /** Where the top bit of the radicand's integer part is. */
  lemma RadicandTop(m: nat, k: int, q: int)
    requires m > 0
    ensures var (y, u) := Radicand(m, k, q);
      var top := BitLen(m) + k - 2 * q;
      && (top > 0 ==> Pow2(top - 1) <= Shr(y, u))
      && Shr(y, u) < Pow2(Max(top, 0))
  {
    var (y, u) := Radicand(m, k, q);
    if k - 2 * q >= 0 { BitLenShl(m, k - 2 * q); }
    ShrTop(y, u, BitLen(m) + k - 2 * q);
  }

  lemma ShrTop(y: nat, u: nat, top: int)
    requires y > 0 && BitLen(y) == top + u
    ensures top > 0 ==> Pow2(top - 1) <= Shr(y, u)
    ensures Shr(y, u) < Pow2(Max(top, 0))
  {
    var t := Max(top, 0);
    BitLenBounds(y);
    ShlPow2(t, u);
    Pow2Mono(BitLen(y), t + u);
    ShrBelow(y, u, Pow2(t));
    if top > 0 {
      ShlPow2(t - 1, u);
      ShrBelow(y, u, Pow2(t - 1));
    }
  }

  lemma SquareWithin(root: nat, p: nat, n: nat)
    requires p * p <= n < (root + 1) * (root + 1)
    ensures p <= root
  {
    if root < p { SquareMono(root + 1, p); }
  }

  lemma SquareBeyond(root: nat, p: nat, n: nat)
    requires root * root <= n < p * p
    ensures root < p
  {
    if root >= p { SquareMono(p, root); }
  }

  /** Rounds `sqrt(m * 2^k)` for `m > 0`. */
  function RoundSqrt(fm: Fmt, rm: Rm, m0: nat, k0: int): (r: Bits)
    requires m0 > 0
    ensures |r| == W(fm)
  {
    var (m, k) := EvenExponent(m0, k0);
    RootFits(fm, m, k);
    var q := Quantum(fm, RootExponent(m, k));
    var (y, u) := Radicand(m, k, q);
    var root := Isqrt(Shr(y, u));
    Finish(fm, rm, false, root, ClassifyRoot(y, u, root), q)
  }

  /** `RoundSqrt` is correct rounding of the real square root. */
  lemma RoundSqrtRounds(fm: Fmt, rm: Rm, m: nat, k: int, s: real)
    requires m > 0 && IsRoot(s, m, k)
    ensures IsRounding(fm, rm, s, RoundSqrt(fm, rm, m, k))
  {
    SameRadicand(m, k);
    var (m', k') := EvenExponent(m, k);
    RootFits(fm, m', k');
    var q := Quantum(fm, RootExponent(m', k'));
    RootLocated(s, m', k', q);
    var (y, u) := Radicand(m', k', q);
    var root := Isqrt(Shr(y, u));
    FinishRounds(fm, rm, false, s, root, ClassifyRoot(y, u, root), q);
  }
}
