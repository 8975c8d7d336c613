/** The IEEE remainder: exact, never rounded, so its encoding assertion must always hold. */
module FpRem {
  import opened Powers
  import opened Dyadics
  import opened Words
  import opened Nats
  import opened FpFormat
  import opened FpValues
  import opened RoundingSpec
  import opened FpRound

  /** `a / b` rounded to the nearest integer, ties to even. */
  function NearestQuotient(a: nat, b: nat): nat
    requires b > 0
  {
    Chosen(Rne, false, Quot(a, b), Classify(Rem(a, b), b))
  }

  function Distance(a: nat, b: nat): nat { if a >= b then a - b else b - a }

  /** What is left is at most half the divisor, and exactly half only for an even quotient. */
  lemma NearestLeavesHalf(a: nat, b: nat)
    requires b > 0
    ensures var n := NearestQuotient(a, b);
      && 2 * Distance(a, n * b) <= b
      && (2 * Distance(a, n * b) == b ==> n % 2 == 0)
      && Distance(a, n * b) <= a
  {
    var k, n := Quot(a, b), NearestQuotient(a, b);
    QuotRem(a, b);
    NextMultiple(k, b);
    NearestChoice(a, b, k, Rem(a, b), k * b, n * b);
  }

  lemma NextMultiple(k: nat, b: nat)
    ensures (k + 1) * b == k * b + b && (k > 0 ==> k * b >= b)
  {
    if k > 0 { MulLe(1, k, b); }
  }

  /** The same with the two candidate multiples given. */
  lemma NearestChoice(a: nat, b: nat, k: nat, r: nat, kb: nat, nb: nat)
    requires r < b && a == kb + r && (k > 0 ==> kb >= b)
    requires nb == if Chosen(Rne, false, k, Classify(r, b)) == k then kb else kb + b
    ensures 2 * Distance(a, nb) <= b && Distance(a, nb) <= a
    ensures 2 * Distance(a, nb) == b ==> Chosen(Rne, false, k, Classify(r, b)) % 2 == 0
  {
  }

  /** Magnitude and exponent of a finite operand; a zero takes the exponent it is given. */
  function Operand(x: Val, e: int): (nat, int)
    requires Finite(x)
  {
    if x.Fin? then (x.m, x.e) else (0, e)
  }

  /** The operands as integers at the smaller exponent. */
  function Common(x: Val, y: Val): (nat, nat, int)
    requires Finite(x) && y.Fin?
  {
    var (ma, ea) := Operand(x, y.e);
    var e0 := Min(ea, y.e);
    (Shl(ma, ea - e0), Shl(y.m, y.e - e0), e0)
  }

  /** The encoding of `(-1)^sa * (i - nj) * 2^e0`, a zero taking the sign `sa`. */
  function Difference(fm: Fmt, sa: bool, i: nat, nj: nat, e0: int): (r: Bits)
    requires Distance(i, nj) > 0 ==> EncodeOk(fm, Distance(i, nj), e0)
    ensures |r| == W(fm)
  {
    var neg := if i >= nj then sa else !sa;
    var diff := Distance(i, nj);
    if diff == 0 then ZeroBits(fm, sa) else Encode(fm, neg, diff, e0)
  }

  /** What is left of the dividend after taking off the nearest multiple of the divisor. */
  function FpRemainder(fm: Fmt, a: Bits, b: Bits): (r: Bits)
    requires |a| == |b| == W(fm)
    ensures |r| == W(fm)
  {
    var x, y := Decode(fm, a), Decode(fm, b);
    if x.Nan? || y.Nan? || x.Inf? || y.Zero? then NanBits(fm)
    else if y.Inf? then a
    else
      var (i, j, e0) := Common(x, y);
      RemainderEncodable(fm, a, b);
      Difference(fm, SignBit(a), i, NearestQuotient(i, j) * j, e0)
  }

  lemma CommonFacts(fm: Fmt, a: Bits, b: Bits)
    requires IsFin(fm, a) && IsFin(fm, b) && Decode(fm, b).Fin?
    ensures var x, y := Decode(fm, a), Decode(fm, b);
      var (i, j, e0) := Common(x, y);
      && j > 0
      && Dyadic(WithSign(x.neg, i), e0) == RealOf(x)
      && Dyadic(WithSign(y.neg, j), e0) == RealOf(y)
      && Dyadic(j, e0) == Dyadic(y.m, y.e) == Abs(RealOf(y))
      && (i < Pow2(P(fm)) || j < Pow2(P(fm)))
      && Qmin(fm) <= e0
  {
    DecodeCanonical(fm, a);
    DecodeCanonical(fm, b);
    var x, y := Decode(fm, a), Decode(fm, b);
    var (i, j, e0) := Common(x, y);
    var (ma, ea) := Operand(x, y.e);
    DyadicShl(ma, ea - e0, e0);
    DyadicShl(y.m, y.e - e0, e0);
    DyadicNeg(i, e0);
    DyadicNeg(j, e0);
    DyadicNeg(ma, ea);
    DyadicNeg(y.m, y.e);
    ShlOrder(0, 0, ea - e0);
    DyadicPositive(y.m, y.e);
  }

  /** The remainder is representable: its significand is below that of whichever operand has the
      smaller quantum, and its magnitude below the divisor's. */
  lemma RemainderEncodable(fm: Fmt, a: Bits, b: Bits)
    requires IsFin(fm, a) && IsFin(fm, b) && Decode(fm, b).Fin?
    ensures var (i, j, e0) := Common(Decode(fm, a), Decode(fm, b));
      && j > 0
      && var nj := NearestQuotient(i, j) * j;
         Distance(i, nj) > 0 ==> EncodeOk(fm, Distance(i, nj), e0)
  {
    CommonFacts(fm, a, b);
    DecodeCanonical(fm, b);
    var y := Decode(fm, b);
    var (i, j, e0) := Common(Decode(fm, a), y);
    NearestLeavesHalf(i, j);
    var diff := Distance(i, NearestQuotient(i, j) * j);
    OmegaIsLargest(fm, y.m, y.e);
    DyadicOrder(diff, j, e0);
    if diff > 0 { SmallEncodable(fm, diff, e0); }
  }

  /** How many times the remainder takes the divisor's magnitude off the dividend's. */
  function RemQuotient(fm: Fmt, a: Bits, b: Bits): nat
    requires IsFin(fm, a) && IsFin(fm, b) && Decode(fm, b).Fin?
  {
    CommonFacts(fm, a, b);
    var (i, j, e0) := Common(Decode(fm, a), Decode(fm, b));
    NearestQuotient(i, j)
  }

  lemma DifferenceValue(fm: Fmt, sa: bool, i: nat, nj: nat, e0: int)
    requires Distance(i, nj) > 0 ==> EncodeOk(fm, Distance(i, nj), e0)
    ensures var r := Difference(fm, sa, i, nj, e0);
      && IsFin(fm, r)
      && RealVal(fm, r) == Dyadic(WithSign(sa, i - nj), e0)
      && (i == nj ==> SignBit(r) == sa)
  {
    var neg := if i >= nj then sa else !sa;
    var r, diff := Difference(fm, sa, i, nj, e0), Distance(i, nj);
    DecodeCanonical(fm, r);
    DyadicNeg(diff, e0);
    DecodeSpecial(fm, sa);
    if diff > 0 {
      DecodeEncode(fm, neg, diff, e0);
      DyadicNeg(Decode(fm, r).m, Decode(fm, r).e);
    }
  }

  /** The remainder is exactly `(-1)^sa * (|a| - n * |b|)`, at most half of `|b|`, with an even `n`
      when it is half: so `n` is the integer nearest `|a / b|`. A zero remainder has the sign of
      `a`. */
  lemma RemainderExact(fm: Fmt, a: Bits, b: Bits)
    requires IsFin(fm, a) && IsFin(fm, b) && Decode(fm, b).Fin?
    ensures var r, n := FpRemainder(fm, a, b), RemQuotient(fm, a, b);
      var nb := Times(n, Abs(RealVal(fm, b)));
      && IsFin(fm, r)
      && RealVal(fm, r) == RealVal(fm, a) - (if SignBit(a) then -nb else nb)
      && 2.0 * Abs(RealVal(fm, r)) <= Abs(RealVal(fm, b))
      && (2.0 * Abs(RealVal(fm, r)) == Abs(RealVal(fm, b)) ==> n % 2 == 0)
      && (RealVal(fm, r) == 0.0 ==> SignBit(r) == SignBit(a))
  {
    CommonFacts(fm, a, b);
    var (i, j, e0) := Common(Decode(fm, a), Decode(fm, b));
    RemainderInteger(fm, a, b, i, j, e0, NearestQuotient(i, j) * j);
    RemainderValue(fm, a, b);
  }

  lemma RemainderValue(fm: Fmt, a: Bits, b: Bits)
    requires IsFin(fm, a) && IsFin(fm, b) && Decode(fm, b).Fin?
    ensures var r, nb := FpRemainder(fm, a, b), Times(RemQuotient(fm, a, b), Abs(RealVal(fm, b)));
      IsFin(fm, r) && RealVal(fm, r) == RealVal(fm, a) - (if SignBit(a) then -nb else nb)
  {
    CommonFacts(fm, a, b);
    var (i, j, e0) := Common(Decode(fm, a), Decode(fm, b));
    var nj := NearestQuotient(i, j) * j;
    TimesIs(NearestQuotient(i, j), j, e0, nj, Abs(RealVal(fm, b)));
    RemainderInteger(fm, a, b, i, j, e0, nj);
    SignDyadic(SignBit(a), nj, e0);
  }

  lemma SignDyadic(s: bool, n: nat, e: int)
    ensures Dyadic(WithSign(s, n), e) == if s then -Dyadic(n, e) else Dyadic(n, e)
  {
    DyadicNeg(n, e);
  }

  lemma TimesIs(n: nat, j: nat, e0: int, nj: nat, x: real)
    requires x == Dyadic(j, e0) && nj == n * j
    ensures Times(n, x) == Dyadic(nj, e0)
  {
    TimesDyadic(n, j, e0);
  }

  /** The same with the multiple `nj` of the divisor as an integer. */
  lemma RemainderInteger(fm: Fmt, a: Bits, b: Bits, i: nat, j: nat, e0: int, nj: nat)
    requires IsFin(fm, a) && IsFin(fm, b) && Decode(fm, b).Fin? && j > 0
    requires (i, j, e0) == Common(Decode(fm, a), Decode(fm, b)) && nj == NearestQuotient(i, j) * j
    ensures var r := FpRemainder(fm, a, b);
      && IsFin(fm, r)
      && RealVal(fm, r) == RealVal(fm, a) - Dyadic(WithSign(SignBit(a), nj), e0)
      && 2.0 * Abs(RealVal(fm, r)) <= Abs(RealVal(fm, b))
      && (2.0 * Abs(RealVal(fm, r)) == Abs(RealVal(fm, b)) ==> NearestQuotient(i, j) % 2 == 0)
      && (RealVal(fm, r) == 0.0 ==> SignBit(r) == SignBit(a))
  {
    CommonFacts(fm, a, b);
    RemainderEncodable(fm, a, b);
    NearestLeavesHalf(i, j);
    DecodeCanonical(fm, a);
    var s := SignBit(a);
    DifferenceValue(fm, s, i, nj, e0);
    SubtractDyadic(s, i, nj, e0);
    HalfDyadic(s, Decode(fm, b).neg, i, nj, j, e0);
    DyadicZero(WithSign(s, i - nj), e0);
  }

  lemma SubtractDyadic(s: bool, i: nat, nj: nat, e0: int)
    ensures Dyadic(WithSign(s, i - nj), e0) == Dyadic(WithSign(s, i), e0) - Dyadic(WithSign(s, nj), e0)
  {
    DyadicMinus(WithSign(s, i), WithSign(s, nj), e0);
  }

  lemma DyadicZero(n: int, e: int)
    ensures Dyadic(n, e) == 0.0 <==> n == 0
  {
    DyadicNeg(0, e);
    DyadicOrder(n, 0, e);
  }

  lemma HalfDyadic(s: bool, t: bool, i: nat, nj: nat, j: nat, e0: int)
    requires 2 * Distance(i, nj) <= j
    ensures var r, b := Dyadic(WithSign(s, i - nj), e0), Dyadic(WithSign(t, j), e0);
      && 2.0 * Abs(r) <= Abs(b)
      && (2.0 * Abs(r) == Abs(b) ==> 2 * Distance(i, nj) == j)
  {
    AbsDyadic(WithSign(s, i - nj), e0);
    AbsDyadic(WithSign(t, j), e0);
    DyadicDouble(Distance(i, nj), e0);
    DyadicOrder(2 * Distance(i, nj), j, e0);
  }

  lemma AbsDyadic(n: int, e: int)
    ensures Abs(Dyadic(n, e)) == Dyadic(Magnitude(n), e)
  {
    DyadicNeg(n, e);
    DyadicOrder(n, 0, e);
  }

  /** No other integer multiple `k * b` of the divisor comes closer to the dividend. */
  lemma RemainderNearest(fm: Fmt, a: Bits, b: Bits, k: int, kb: real)
    requires IsFin(fm, a) && IsFin(fm, b) && Decode(fm, b).Fin?
    requires kb == RealVal(fm, b) * k as real
    ensures var r := FpRemainder(fm, a, b);
      IsFin(fm, r) && Abs(RealVal(fm, r)) <= Abs(RealVal(fm, a) - kb)
  {
    CommonFacts(fm, a, b);
    DecodeCanonical(fm, a);
    var x, y := Decode(fm, a), Decode(fm, b);
    var (i, j, e0) := Common(x, y);
    var m := WithSign(y.neg, j) * k;
    MultipleIs(WithSign(y.neg, j), e0, k, m, RealVal(fm, b), kb);
    OtherMultiple(i, j, k, x.neg, y.neg, m);
    DyadicMinus(WithSign(x.neg, i), m, e0);
    RemainderBelow(fm, a, b, WithSign(x.neg, i) - m, kb);
  }

  /** The remainder against any difference of integers at the common exponent. */
  lemma RemainderBelow(fm: Fmt, a: Bits, b: Bits, d: int, kb: real)
    requires IsFin(fm, a) && IsFin(fm, b) && Decode(fm, b).Fin?
    requires var (i, j, e0) := Common(Decode(fm, a), Decode(fm, b));
      j > 0 && Left(i, j) <= Magnitude(d) && RealVal(fm, a) - kb == Dyadic(d, e0)
    ensures var r := FpRemainder(fm, a, b);
      IsFin(fm, r) && Abs(RealVal(fm, r)) <= Abs(RealVal(fm, a) - kb)
  {
    DecodeCanonical(fm, a);
    CommonFacts(fm, a, b);
    var (i, j, e0) := Common(Decode(fm, a), Decode(fm, b));
    var nj := NearestQuotient(i, j) * j;
    RemainderInteger(fm, a, b, i, j, e0, nj);
    LeftDyadic(SignBit(a), i, nj, e0);
    AbsDyadic(d, e0);
    DyadicOrder(Magnitude(d), Distance(i, nj), e0);
  }

  lemma LeftDyadic(s: bool, i: nat, nj: nat, e0: int)
    ensures Abs(Dyadic(WithSign(s, i), e0) - Dyadic(WithSign(s, nj), e0)) == Dyadic(Distance(i, nj), e0)
  {
    SubtractDyadic(s, i, nj, e0);
    AbsDyadic(WithSign(s, i - nj), e0);
  }

  lemma MultipleIs(j: int, e0: int, k: int, m: int, x: real, kx: real)
    requires x == Dyadic(j, e0) && m == j * k && kx == x * k as real
    ensures kx == Dyadic(m, e0)
  {
    DyadicTimes(j, e0, k);
  }

  /** How far the nearest multiple of `j` is from `i`. */
  function Left(i: nat, j: nat): nat
    requires j > 0
  {
    Distance(i, NearestQuotient(i, j) * j)
  }

  lemma OtherMultiple(i: nat, j: nat, k: int, s: bool, t: bool, m: int)
    requires j > 0 && m == WithSign(t, j) * k
    ensures Left(i, j) <= Magnitude(WithSign(s, i) - m)
  {
    var c := if s == t then k else 0 - k;
    SignTimes(j, k, t, m);
    SignTimes(j, 0 - k, t, 0 - m);
    NearestInteger(i, j, c, c * j);
  }

  lemma SignTimes(j: int, k: int, t: bool, m: int)
    requires m == WithSign(t, j) * k
    ensures k * j == WithSign(t, m)
  {
  }

  lemma DyadicMinus(m: int, n: int, e: int)
    ensures Dyadic(m - n, e) == Dyadic(m, e) - Dyadic(n, e)
  {
    DyadicAdd(m - n, n, e);
  }

  lemma NearestInteger(i: nat, j: nat, k: int, kj: int)
    requires j > 0 && kj == k * j
    ensures Left(i, j) <= Magnitude(i - kj)
  {
    NearestLeavesHalf(i, j);
    NearestMultiple(i, j, NearestQuotient(i, j), k);
  }

  lemma NearestMultiple(i: int, j: nat, n: int, k: int)
    requires j > 0 && 0 - j <= 2 * (i - n * j) <= j
    ensures Magnitude(i - n * j) <= Magnitude(i - k * j)
  {
    var c := n - k;
    assert i - k * j == (i - n * j) + c * j by { assert c * j == n * j - k * j; }
    if c > 0 { MulLe(1, c, j); }
    if c < 0 { MulLe(c, -1, j); }
  }
}
