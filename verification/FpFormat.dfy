/** Binary floating-point formats: encodings, the exact values they stand for, and the encoder
    with its internal assertions as a precondition. */
module FpFormat {
  import opened Powers
  import opened Dyadics
  import opened Words
  import opened Nats

  /** `eb` exponent bits and precision `sb`, counting the hidden bit. */
  datatype Format = Format(eb: nat, sb: nat) {
    predicate Valid() { 2 <= eb && 2 <= sb }
  }

  /** A validated format. */
  type Fmt = f: Format | f.Valid() witness Format(2, 2)

  datatype Rm = Rne | Rna | Rtp | Rtn | Rtz

  /** The exact meaning of an encoding. A `Fin` carries an integer significand and its exponent; the
      decoder never makes one with a zero significand. */
  datatype Val = Nan | Inf(neg: bool) | Zero(neg: bool) | Fin(neg: bool, m: nat, e: int)

  // ----- derived constants -----

  function P(fm: Fmt): nat { fm.sb }

  function W(fm: Fmt): nat { fm.eb + fm.sb }

  function Emax(fm: Fmt): nat { Pow2(fm.eb - 1) - 1 }

  function Emin(fm: Fmt): int { 1 - Emax(fm) }

  function ESpecial(fm: Fmt): nat { Pow2(fm.eb) - 1 }

  /** The exponent of the spacing between neighbours near zero. */
  function Qmin(fm: Fmt): int { Emin(fm) - P(fm) + 1 }

  /** The exponent of the spacing just below the largest value. */
  function Qmax(fm: Fmt): int { Emax(fm) - P(fm) + 1 }

  /** The largest finite magnitude. */
  ghost function Omega(fm: Fmt): real { Dyadic(Pow2(P(fm)) - 1, Qmax(fm)) }

  // ----- decoding -----

  /** The three parts an encoding is cut into, from the top bit down. */
  function Fields(fm: Fmt, a: Bits): (bool, nat, nat)
    requires |a| == W(fm)
  {
    var v := UVal(a);
    (TestBit(v, W(fm) - 1), LowBits(Shr(v, P(fm) - 1), fm.eb), LowBits(v, P(fm) - 1))
  }

  function ValOf(fm: Fmt, f: (bool, nat, nat)): Val
  {
    var (s, e, t) := f;
    if e == ESpecial(fm) then
      if t == 0 then Inf(s) else Nan
    else if e == 0 then
      if t == 0 then Zero(s) else Fin(s, t, Qmin(fm))
    else
      Fin(s, Pow2(P(fm) - 1) + t, e - Emax(fm) - P(fm) + 1)
  }

  function Decode(fm: Fmt, a: Bits): Val
    requires |a| == W(fm)
  {
    ValOf(fm, Fields(fm, a))
  }

  predicate Finite(v: Val) { v.Zero? || v.Fin? }

  function WithSign(neg: bool, m: int): int { if neg then -m else m }

  /** The real number a finite value stands for. */
  ghost function RealOf(v: Val): real
    requires Finite(v)
  {
    if v.Zero? then 0.0 else Dyadic(WithSign(v.neg, v.m), v.e)
  }

  predicate IsFin(fm: Fmt, a: Bits) { |a| == W(fm) && Finite(Decode(fm, a)) }

  ghost function RealVal(fm: Fmt, a: Bits): real
    requires IsFin(fm, a)
  {
    RealOf(Decode(fm, a))
  }

  function SignBit(a: Bits): bool
    requires |a| > 0
  {
    a[|a| - 1]
  }

  // ----- encoding -----

  function Top(neg: bool, c: nat): nat { if neg then c else 0 }

  function Packed(fm: Fmt, neg: bool, biased: nat, t: nat): nat
  {
    t + Shl(biased, P(fm) - 1) + Top(neg, Pow2(W(fm) - 1))
  }

  /** The encoding with the given sign, biased exponent and trailing significand. */
  function Pack(fm: Fmt, neg: bool, biased: nat, t: nat): (a: Bits)
    requires biased <= ESpecial(fm) && BitLen(t) < P(fm)
    ensures |a| == W(fm)
  {
    OfVal(W(fm), Packed(fm, neg, biased, t))
  }

  function NanBits(fm: Fmt): (a: Bits)
    ensures |a| == W(fm)
  {
    Pow2Mono(P(fm) - 2, P(fm) - 1);
    BitLenAtMost(Pow2(P(fm) - 2), P(fm) - 1);
    Pack(fm, false, ESpecial(fm), Pow2(P(fm) - 2))
  }

  function InfBits(fm: Fmt, neg: bool): (a: Bits)
    ensures |a| == W(fm)
  {
    Pack(fm, neg, ESpecial(fm), 0)
  }

  function ZeroBits(fm: Fmt, neg: bool): (a: Bits)
    ensures |a| == W(fm)
  {
    Pack(fm, neg, 0, 0)
  }

  function MaxFinite(fm: Fmt, neg: bool): (a: Bits)
    ensures |a| == W(fm)
  {
    BitLenAtMost(Pow2(P(fm) - 1) - 1, P(fm) - 1);
    Pow2Mono(1, fm.eb);
    Pack(fm, neg, ESpecial(fm) - 1, Pow2(P(fm) - 1) - 1)
  }

  /** A zero result's sign: `+0`, except `-0` when rounding toward minus infinity. */
  function ZeroRule(fm: Fmt, rm: Rm): (a: Bits)
    ensures |a| == W(fm)
  {
    ZeroBits(fm, rm == Rtn)
  }

  /** What the encoder asserts: a nonzero significand, a value not above the largest finite one,
      and no bit lost below the quantum. */
  predicate EncodeOk(fm: Fmt, c: nat, q: int)
  {
    && c > 0
    && var e := BitLen(c) - 1 + q;
       if e >= Emin(fm) then e <= Emax(fm) && Exact(c, q - (e - P(fm) + 1))
       else Exact(c, q - Qmin(fm))
  }

  /** Encodes a magnitude `c * 2^q` for which `EncodeOk` holds: a full significand with its leading bit
      dropped, or a subnormal one at the smallest quantum. */
  function Encode(fm: Fmt, neg: bool, c: nat, q: int): (a: Bits)
    requires EncodeOk(fm, c, q)
    ensures |a| == W(fm)
  {
    var e := BitLen(c) - 1 + q;
    EncodeFits(fm, c, q);
    if e >= Emin(fm) then
      var sig := ShiftExact(c, q - (e - P(fm) + 1));
      Pack(fm, neg, e + Emax(fm), sig - Pow2(P(fm) - 1))
    else
      Pack(fm, neg, 0, ShiftExact(c, q - Qmin(fm)))
  }

  lemma EncodeFits(fm: Fmt, c: nat, q: int)
    requires EncodeOk(fm, c, q)
    ensures var e := BitLen(c) - 1 + q;
      if e >= Emin(fm) then
        && 0 < e + Emax(fm) < ESpecial(fm)
        && var sig := ShiftExact(c, q - (e - P(fm) + 1));
           Pow2(P(fm) - 1) <= sig < Pow2(P(fm)) && BitLen(sig - Pow2(P(fm) - 1)) < P(fm)
      else
        && 0 < ShiftExact(c, q - Qmin(fm)) < Pow2(P(fm) - 1)
        && BitLen(ShiftExact(c, q - Qmin(fm))) < P(fm)
  {
    var e := BitLen(c) - 1 + q;
    if e >= Emin(fm) {
      FullSignificand(c, q - (e - P(fm) + 1), P(fm));
      SpecialAbove(fm, e);
    } else {
      PartSignificand(c, q - Qmin(fm), P(fm));
    }
  }

  lemma SpecialAbove(fm: Fmt, e: int)
    requires Emin(fm) <= e <= Emax(fm)
    ensures 0 < e + Emax(fm) < ESpecial(fm)
  {
    assert Pow2(fm.eb) == 2 * Pow2(fm.eb - 1);
  }

  lemma FullSignificand(c: nat, k: int, p: nat)
    requires c > 0 && Exact(c, k) && BitLen(c) + k == p > 0
    ensures var sig := ShiftExact(c, k);
      Pow2(p - 1) <= sig < Pow2(p) && BitLen(sig - Pow2(p - 1)) < p
  {
    ShiftExactFacts(c, k, 0, k);
    var sig := ShiftExact(c, k);
    BitLenBounds(sig);
    BitLenAtMost(sig - Pow2(p - 1), p - 1);
  }

  lemma PartSignificand(c: nat, k: int, p: nat)
    requires c > 0 && Exact(c, k) && BitLen(c) + k < p && p > 0
    ensures 0 < ShiftExact(c, k) < Pow2(p - 1) && BitLen(ShiftExact(c, k)) < p
  {
    ShiftExactFacts(c, k, 0, k);
    BitLenAtMost(ShiftExact(c, k), p - 1);
  }

  // ----- packing and unpacking are inverse -----

  /** Cutting the packed number gives the significand, the exponent and, as its top bit, the sign
      back. */
  lemma PackedCut(fm: Fmt, neg: bool, biased: nat, t: nat)
    requires biased <= ESpecial(fm) && BitLen(t) < P(fm)
    ensures var v, p1 := Packed(fm, neg, biased, t), P(fm) - 1;
      && v < Pow2(W(fm)) && (TestBit(v, W(fm) - 1) <==> neg)
      && LowBits(v, p1) == t && LowBits(Shr(v, p1), fm.eb) == biased
  {
    var s, p1 := if neg then 1 else 0, P(fm) - 1;
    var v, hi := Packed(fm, neg, biased, t), Shl(s, fm.eb) + biased;
    BitLenAtMost(t, p1);
    PackedTop(fm, neg, biased, t, hi);
    CutTwice(v, p1, fm.eb, W(fm), s, biased, t, hi);
  }

  lemma CutTwice(v: nat, p1: nat, eb: nat, w: nat, s: nat, biased: nat, t: nat, hi: nat)
    requires w == p1 + eb + 1 && s < 2 && t < Pow2(p1) && biased < Pow2(eb)
    requires hi == Shl(s, eb) + biased && v == Shl(hi, p1) + t
    ensures LowBits(v, p1) == t && LowBits(Shr(v, p1), eb) == biased
    ensures v < Pow2(w) && (TestBit(v, w - 1) <==> s == 1)
  {
    CutUnique(v, hi, t, p1);
    CutUnique(hi, s, biased, eb);
    ShrShr(v, p1, eb);
    TopBit(v, p1 + eb);
  }

  lemma PackedTop(fm: Fmt, neg: bool, biased: nat, t: nat, hi: nat)
    requires hi == Shl(if neg then 1 else 0, fm.eb) + biased
    ensures Packed(fm, neg, biased, t) == Shl(hi, P(fm) - 1) + t
  {
    var p1, eb, s := P(fm) - 1, fm.eb, if neg then 1 else 0;
    ShlAdd(Shl(s, eb), biased, p1);
    ShlShl(s, eb, p1);
    ShlOrder(0, 0, eb + p1);
  }

  lemma PackedValue(fm: Fmt, neg: bool, biased: nat, t: nat)
    requires biased <= ESpecial(fm) && BitLen(t) < P(fm)
    ensures UVal(Pack(fm, neg, biased, t)) == Packed(fm, neg, biased, t)
  {
    var v := Packed(fm, neg, biased, t);
    PackedCut(fm, neg, biased, t);
    UValOfVal(W(fm), v);
    LowBitsSmall(v, W(fm));
  }

  lemma FieldsOfPack(fm: Fmt, neg: bool, biased: nat, t: nat)
    requires biased <= ESpecial(fm) && BitLen(t) < P(fm)
    ensures Fields(fm, Pack(fm, neg, biased, t)) == (neg, biased, t)
    ensures UVal(Pack(fm, neg, biased, t)) == Packed(fm, neg, biased, t)
  {
    PackedCut(fm, neg, biased, t);
    PackedValue(fm, neg, biased, t);
    FieldsFrom(fm, Pack(fm, neg, biased, t), Packed(fm, neg, biased, t), neg, biased, t);
  }

  lemma FieldsFrom(fm: Fmt, a: Bits, v: nat, neg: bool, biased: nat, t: nat)
    requires |a| == W(fm) && UVal(a) == v && (TestBit(v, W(fm) - 1) <==> neg)
    requires LowBits(v, P(fm) - 1) == t && LowBits(Shr(v, P(fm) - 1), fm.eb) == biased
    ensures Fields(fm, a) == (neg, biased, t)
  {
  }

  lemma PackOfFields(fm: Fmt, a: Bits)
    requires |a| == W(fm)
    ensures var (s, e, t) := Fields(fm, a);
      && e <= ESpecial(fm) && BitLen(t) < P(fm)
      && Pack(fm, s, e, t) == a
      && s == SignBit(a)
  {
    var (s, e, t) := Fields(fm, a);
    var v, p1 := UVal(a), P(fm) - 1;
    UValBound(a);
    ShrLow(v, p1);
    ShrLow(Shr(v, p1), fm.eb);
    BitLenAtMost(t, p1);
    BitAt(a, W(fm) - 1);
    PackedParts(fm, v, W(fm) - 1, s, e, t);
    OfValUVal(a);
  }

  lemma PackedParts(fm: Fmt, v: nat, w1: nat, s: bool, e: nat, t: nat)
    requires w1 == W(fm) - 1 && v < Pow2(w1 + 1)
    requires s == TestBit(v, w1) && e == LowBits(Shr(v, P(fm) - 1), fm.eb) && t == LowBits(v, P(fm) - 1)
    ensures Packed(fm, s, e, t) == v
  {
    var p1, hi := P(fm) - 1, Shr(v, P(fm) - 1);
    ShrLow(v, p1);
    ShrLow(hi, fm.eb);
    ShrShr(v, p1, fm.eb);
    TopBit(v, w1);
    assert Shr(v, w1) == if s then 1 else 0;
    PackedTop(fm, s, e, t, hi);
  }

  // ----- encodings bit by bit -----

  /** The three fields as slices of the encoding. */
  lemma FieldSlices(fm: Fmt, a: Bits)
    requires |a| == W(fm)
    ensures Fields(fm, a) == (a[W(fm) - 1], UVal(a[P(fm) - 1..W(fm) - 1]), UVal(a[..P(fm) - 1]))
  {
    var p1 := P(fm) - 1;
    BitAt(a, W(fm) - 1);
    UValSplit(a, p1);
    UValSplit(a[p1..], fm.eb);
    assert a[p1..][..fm.eb] == a[p1..W(fm) - 1];
  }

  /** The canonical NaN: a clear sign, an exponent of all ones, and only the top bit of the trailing
      significand set. */
  lemma NanBitsAre(fm: Fmt)
    ensures var r, p, w := NanBits(fm), P(fm), W(fm);
      && |r| == w && !r[w - 1]
      && (forall i :: p - 1 <= i < w - 1 ==> r[i])
      && r[p - 2]
      && forall i :: 0 <= i < p - 2 ==> !r[i]
  {
    var r, p, w := NanBits(fm), P(fm), W(fm);
    Pow2Mono(p - 2, p - 1);
    BitLenAtMost(Pow2(p - 2), p - 1);
    FieldsOfPack(fm, false, ESpecial(fm), Pow2(p - 2));
    FieldSlices(fm, r);
    AllOnes(r[p - 1..w - 1], fm.eb);
    TopBitOnly(r[..p - 1], p - 2);
    forall i | p - 1 <= i < w - 1 ensures r[i] { assert r[i] == r[p - 1..w - 1][i - (p - 1)]; }
    forall i | 0 <= i < p - 2 ensures !r[i] { assert r[i] == r[..p - 1][i]; }
  }

  lemma AllOnes(b: Bits, n: nat)
    requires |b| == n && UVal(b) == Pow2(n) - 1
    ensures forall i :: 0 <= i < n ==> b[i]
  {
    UValOnes(n);
    UValInjective(b, Ones(n));
  }

  lemma TopBitOnly(b: Bits, n: nat)
    requires |b| == n + 1 && UVal(b) == Pow2(n)
    ensures b[n] && forall i :: 0 <= i < n ==> !b[i]
  {
    var c := Zeros(n) + [true];
    UValAppend(Zeros(n), true);
    UValZeros(n);
    ShlOne(n);
    UValInjective(b, c);
  }
}
