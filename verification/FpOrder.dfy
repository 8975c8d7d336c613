/** Comparison, minimum and maximum: the oracle compares decoded values, and that is the
    sign-magnitude order of the encodings. */
module FpOrder {
  import opened Powers
  import opened Dyadics
  import opened Words
  import opened Nats
  import opened FpFormat
  import opened FpValues

  function Rank(v: Val): int
    requires !v.Nan?
  {
    match v
    case Inf(s) => if s then -2 else 2
    case Fin(s, _, _) => if s then -1 else 1
    case Zero(_) => 0
  }

  /** Orders non-NaN values numerically, the two zeros equal. */
  function CmpVals(x: Val, y: Val): Ordering
    requires !x.Nan? && !y.Nan?
    requires (x.Fin? ==> x.m > 0) && (y.Fin? ==> y.m > 0)
  {
    if x.Fin? && y.Fin? && x.neg == y.neg then
      var magnitude := CmpScaled(x.m, x.e, y.m, y.e);
      if x.neg then magnitude.Reverse() else magnitude
    else Compare(Rank(x), Rank(y))
  }

  /** As `CmpVals`, except that a negative zero comes before a positive one. */
  function CmpSignedZeros(x: Val, y: Val): Ordering
    requires !x.Nan? && !y.Nan?
    requires (x.Fin? ==> x.m > 0) && (y.Fin? ==> y.m > 0)
  {
    if x.Zero? && y.Zero? then Compare(Bit(y.neg), Bit(x.neg)) else CmpVals(x, y)
  }

  predicate IsNan(fm: Fmt, a: Bits) requires |a| == W(fm) { Decode(fm, a).Nan? }

  // ----- numeric order and encodings -----

  /** Everything the order proofs need of one encoding: its code by kind of value. */
  lemma CodeKinds(fm: Fmt, a: Bits)
    requires |a| == W(fm)
    ensures var v, top := Decode(fm, a), Shl(ESpecial(fm), P(fm) - 1);
      match v
      case Nan => Code(fm, a) > top
      case Inf(s) => s == SignBit(a) && Code(fm, a) == top
      case Zero(s) => s == SignBit(a) && Code(fm, a) == 0
      case Fin(s, m, e) => s == SignBit(a) && 0 < Code(fm, a) < top && Canonical(fm, m, e)
  {
    DecodeCanonical(fm, a);
    CodeOfValue(fm, a);
    var v := Decode(fm, a);
    if v.Fin? {
      QuantumRange(fm);
      ShlOrder(v.e - Qmin(fm), 0, P(fm) - 1);
      ShlAdd(v.e - Qmin(fm), 2, P(fm) - 1);
      ShlDouble(1, P(fm) - 1);
      ShlOrder(v.e - Qmin(fm) + 2, ESpecial(fm), P(fm) - 1);
    }
  }

  lemma FinCodeOrder(fm: Fmt, a: Bits, b: Bits)
    requires |a| == |b| == W(fm)
    requires Decode(fm, a).Fin? && Decode(fm, b).Fin?
    ensures var x, y := Decode(fm, a), Decode(fm, b);
      CompareReal(Dyadic(x.m, x.e), Dyadic(y.m, y.e)) == Compare(Code(fm, a), Code(fm, b))
  {
    var x, y := Decode(fm, a), Decode(fm, b);
    DecodeCanonical(fm, a);
    DecodeCanonical(fm, b);
    CodeOfValue(fm, a);
    CodeOfValue(fm, b);
    CodeOrder(fm, x.m, x.e, y.m, y.e);
    CodeOrder(fm, y.m, y.e, x.m, x.e);
  }

  /** The comparison the oracle makes is the sign-magnitude order of encodings: so it is total and
      antisymmetric on non-NaN encodings. */
  lemma CmpSignedZerosIsKeyOrder(fm: Fmt, a: Bits, b: Bits)
    requires |a| == |b| == W(fm) && !IsNan(fm, a) && !IsNan(fm, b)
    ensures var x, y := Decode(fm, a), Decode(fm, b);
      && (x.Fin? ==> x.m > 0) && (y.Fin? ==> y.m > 0)
      && CmpSignedZeros(x, y) == Compare(Key(fm, a), Key(fm, b))
  {
    CodeKinds(fm, a);
    CodeKinds(fm, b);
    var x, y := Decode(fm, a), Decode(fm, b);
    if x.Fin? && y.Fin? {
      FinCodeOrder(fm, a, b);
      CmpScaledExact(x.m, x.e, y.m, y.e);
    }
  }

  /** Finite values compare as the reals they stand for. */
  lemma CmpValsIsRealOrder(fm: Fmt, a: Bits, b: Bits)
    requires IsFin(fm, a) && IsFin(fm, b)
    ensures var x, y := Decode(fm, a), Decode(fm, b);
      && (x.Fin? ==> x.m > 0) && (y.Fin? ==> y.m > 0)
      && CmpVals(x, y) == CompareReal(RealVal(fm, a), RealVal(fm, b))
  {
    CodeKinds(fm, a);
    CodeKinds(fm, b);
    var x, y := Decode(fm, a), Decode(fm, b);
    if x.Fin? { DyadicPositive(x.m, x.e); DyadicNeg(x.m, x.e); }
    if y.Fin? { DyadicPositive(y.m, y.e); DyadicNeg(y.m, y.e); }
    if x.Fin? && y.Fin? { CmpScaledExact(x.m, x.e, y.m, y.e); }
  }

  /** Real order against encoding order: they agree, except that only the encodings tell the two
      zeros apart. */
  lemma KeyOrder(fm: Fmt, a: Bits, b: Bits)
    requires IsFin(fm, a) && IsFin(fm, b)
    ensures RealVal(fm, a) < RealVal(fm, b) ==> Key(fm, a) < Key(fm, b)
    ensures RealVal(fm, a) == RealVal(fm, b) && SignBit(a) == SignBit(b) ==> a == b
    ensures RealVal(fm, a) == RealVal(fm, b) && a != b ==> RealVal(fm, a) == 0.0
    ensures Key(fm, a) < Key(fm, b) ==> RealVal(fm, a) <= RealVal(fm, b)
  {
    CmpValsIsRealOrder(fm, a, b);
    CmpSignedZerosIsKeyOrder(fm, a, b);
    CodeKinds(fm, a);
    CodeKinds(fm, b);
    if Key(fm, a) == Key(fm, b) { KeyInjective(fm, a, b); }
  }

  /** Infinities are the extreme keys. */
  lemma InfKey(fm: Fmt, a: Bits, b: Bits)
    requires |a| == |b| == W(fm) && Decode(fm, a).Inf? && !IsNan(fm, b)
    ensures if Decode(fm, a).neg then Key(fm, a) <= Key(fm, b) else Key(fm, b) <= Key(fm, a)
  {
    CodeKinds(fm, a);
    CodeKinds(fm, b);
  }

  // ----- minimum and maximum -----

  /** The smaller operand by `CmpSignedZeros`; one NaN operand loses to the other operand, two give the
      canonical NaN. */
  function FpMin(fm: Fmt, a: Bits, b: Bits): Bits
    requires |a| == |b| == W(fm)
  {
    DecodeCanonical(fm, a);
    DecodeCanonical(fm, b);
    var x, y := Decode(fm, a), Decode(fm, b);
    if x.Nan? && y.Nan? then NanBits(fm)
    else if x.Nan? then b
    else if y.Nan? then a
    else if CmpSignedZeros(x, y) == Greater then b
    else a
  }

  /** The larger operand, with NaNs treated as in `FpMin`. */
  function FpMax(fm: Fmt, a: Bits, b: Bits): Bits
    requires |a| == |b| == W(fm)
  {
    DecodeCanonical(fm, a);
    DecodeCanonical(fm, b);
    var x, y := Decode(fm, a), Decode(fm, b);
    if x.Nan? && y.Nan? then NanBits(fm)
    else if x.Nan? then b
    else if y.Nan? then a
    else if CmpSignedZeros(x, y) == Less then b
    else a
  }

  /** On non-NaN operands they are the minimum and the maximum of the sign-magnitude order. */
  lemma MinMaxByKey(fm: Fmt, a: Bits, b: Bits)
    requires |a| == |b| == W(fm) && !IsNan(fm, a) && !IsNan(fm, b)
    ensures FpMin(fm, a, b) == if Key(fm, b) < Key(fm, a) then b else a
    ensures FpMax(fm, a, b) == if Key(fm, a) < Key(fm, b) then b else a
  {
    CmpSignedZerosIsKeyOrder(fm, a, b);
  }

  lemma MinMaxWidth(fm: Fmt, a: Bits, b: Bits)
    requires |a| == |b| == W(fm)
    ensures |FpMin(fm, a, b)| == |FpMax(fm, a, b)| == W(fm)
    ensures IsNan(fm, FpMin(fm, a, b)) <==> IsNan(fm, a) && IsNan(fm, b)
    ensures IsNan(fm, FpMax(fm, a, b)) <==> IsNan(fm, a) && IsNan(fm, b)
  {
    DecodeSpecial(fm, false);
  }

  /** One NaN operand gives the other operand, two the canonical NaN; a result that is not NaN is an
      operand, and no operand that is not NaN lies beyond it. */
  lemma MinMaxSelects(fm: Fmt, a: Bits, b: Bits)
    requires |a| == |b| == W(fm)
    ensures IsNan(fm, a) ==> FpMin(fm, a, b) == FpMax(fm, a, b) == if IsNan(fm, b) then NanBits(fm) else b
    ensures IsNan(fm, b) && !IsNan(fm, a) ==> FpMin(fm, a, b) == FpMax(fm, a, b) == a
    ensures !IsNan(fm, a) || !IsNan(fm, b) ==>
      var lo, hi := FpMin(fm, a, b), FpMax(fm, a, b);
      && (lo == a || lo == b) && (hi == a || hi == b) && !IsNan(fm, lo) && !IsNan(fm, hi)
      && forall c: Bits :: (c == a || c == b) && !IsNan(fm, c) ==> Key(fm, lo) <= Key(fm, c) <= Key(fm, hi)
  {
    if !IsNan(fm, a) && !IsNan(fm, b) { MinMaxByKey(fm, a, b); }
  }

  /** Commutative on all inputs, NaNs included. */
  lemma MinMaxCommute(fm: Fmt, a: Bits, b: Bits)
    requires |a| == |b| == W(fm)
    ensures FpMin(fm, a, b) == FpMin(fm, b, a)
    ensures FpMax(fm, a, b) == FpMax(fm, b, a)
  {
    if !IsNan(fm, a) && !IsNan(fm, b) {
      MinMaxByKey(fm, a, b);
      MinMaxByKey(fm, b, a);
      if Key(fm, a) == Key(fm, b) { KeyInjective(fm, a, b); }
    }
  }

  /** The minimum over a set of operands by key: what any nesting of `FpMin` computes. */
  lemma MinAssociates(fm: Fmt, a: Bits, b: Bits, c: Bits)
    requires |a| == |b| == |c| == W(fm)
    ensures |FpMin(fm, a, b)| == |FpMin(fm, b, c)| == W(fm)
    ensures FpMin(fm, FpMin(fm, a, b), c) == FpMin(fm, a, FpMin(fm, b, c))
  {
    DecodeSpecial(fm, false);
    if !IsNan(fm, a) && !IsNan(fm, b) { MinMaxByKey(fm, a, b); }
    if !IsNan(fm, b) && !IsNan(fm, c) { MinMaxByKey(fm, b, c); }
    if !IsNan(fm, a) && !IsNan(fm, c) { MinMaxByKey(fm, a, c); }
  }

  lemma MaxAssociates(fm: Fmt, a: Bits, b: Bits, c: Bits)
    requires |a| == |b| == |c| == W(fm)
    ensures |FpMax(fm, a, b)| == |FpMax(fm, b, c)| == W(fm)
    ensures FpMax(fm, FpMax(fm, a, b), c) == FpMax(fm, a, FpMax(fm, b, c))
  {
    DecodeSpecial(fm, false);
    if !IsNan(fm, a) && !IsNan(fm, b) { MinMaxByKey(fm, a, b); }
    if !IsNan(fm, b) && !IsNan(fm, c) { MinMaxByKey(fm, b, c); }
    if !IsNan(fm, a) && !IsNan(fm, c) { MinMaxByKey(fm, a, c); }
  }

  /** On non-NaN operands the two are the meet and the join of the encoding order, and so absorb
      each other. */
  lemma MinMaxLattice(fm: Fmt, a: Bits, b: Bits, c: Bits)
    requires |a| == |b| == |c| == W(fm) && !IsNan(fm, a) && !IsNan(fm, b) && !IsNan(fm, c)
    ensures |FpMin(fm, a, b)| == |FpMax(fm, a, b)| == W(fm)
    ensures Key(fm, c) <= Key(fm, FpMin(fm, a, b)) <==> Key(fm, c) <= Key(fm, a) && Key(fm, c) <= Key(fm, b)
    ensures Key(fm, FpMax(fm, a, b)) <= Key(fm, c) <==> Key(fm, a) <= Key(fm, c) && Key(fm, b) <= Key(fm, c)
    ensures FpMin(fm, a, FpMax(fm, a, b)) == FpMax(fm, a, FpMin(fm, a, b)) == a
  {
    MinMaxByKey(fm, a, b);
  }

  // ----- the predicates eq, lt, le -----

  /** The numeric order, or no order when either operand is a NaN. */
  datatype Compared = Unordered | Ordered(ord: Ordering)

  function FpCompare(fm: Fmt, a: Bits, b: Bits): Compared
    requires |a| == |b| == W(fm)
  {
    DecodeCanonical(fm, a);
    DecodeCanonical(fm, b);
    var x, y := Decode(fm, a), Decode(fm, b);
    if x.Nan? || y.Nan? then Unordered else Ordered(CmpVals(x, y))
  }

  predicate FpEq(fm: Fmt, a: Bits, b: Bits) requires |a| == |b| == W(fm)
  {
    FpCompare(fm, a, b) == Ordered(Equal)
  }

  predicate FpLt(fm: Fmt, a: Bits, b: Bits) requires |a| == |b| == W(fm)
  {
    FpCompare(fm, a, b) == Ordered(Less)
  }

  predicate FpLe(fm: Fmt, a: Bits, b: Bits) requires |a| == |b| == W(fm)
  {
    FpCompare(fm, a, b) in {Ordered(Less), Ordered(Equal)}
  }

  /** `le` is the encoding order with the two zeros identified, and false on NaNs; `lt` and `eq`
      split it. */
  lemma ComparePredicates(fm: Fmt, a: Bits, b: Bits)
    requires |a| == |b| == W(fm)
    ensures IsNan(fm, a) || IsNan(fm, b) ==>
      !FpEq(fm, a, b) && !FpLt(fm, a, b) && !FpLe(fm, a, b)
    ensures !IsNan(fm, a) && !IsNan(fm, b) ==>
      && (FpEq(fm, a, b) <==> a == b || (Decode(fm, a).Zero? && Decode(fm, b).Zero?))
      && (FpLt(fm, a, b) <==> Key(fm, a) < Key(fm, b) && !FpEq(fm, a, b))
      && (FpLe(fm, a, b) <==> FpLt(fm, a, b) || FpEq(fm, a, b))
  {
    if !IsNan(fm, a) && !IsNan(fm, b) {
      CmpSignedZerosIsKeyOrder(fm, a, b);
      if Key(fm, a) == Key(fm, b) { KeyInjective(fm, a, b); }
      CodeKinds(fm, a);
      CodeKinds(fm, b);
    }
  }
}
