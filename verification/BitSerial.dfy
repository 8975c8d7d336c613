/** The bit-serial operators of the reference evaluator: loops over single bits, proved to compute
    the integer operations of `BvSpec`. */
module BitSerial {
  import opened Powers
  import opened Words
  import opened Nats
  import opened Modular
  import opened BvSpec

  // ----- addition and subtraction -----

  /** A full adder at each position, from the lowest up. */
  method AddWithCarry(a: Bits, b: Bits, carryIn: bool) returns (out: Bits, carry: bool)
    requires |a| == |b|
    ensures |out| == |a|
    ensures UVal(out) + Shl(Bit(carry), |a|) == UVal(a) + UVal(b) + Bit(carryIn)
  {
    carry := carryIn;
    out := [];
    for i := 0 to |a|
      invariant |out| == i
      invariant UVal(out) + Shl(Bit(carry), i) == UVal(a[..i]) + UVal(b[..i]) + Bit(carryIn)
    {
      var x, y := a[i], b[i];
      UValTake(a, i);
      UValTake(b, i);
      UValAppend(out, x != (y != carry));
      FullAdder(x, y, carry, i);
      out := out + [x != (y != carry)];
      carry := (x && y) || (carry && x != y);
    }
    assert a[..|a|] == a && b[..|a|] == b;
  }

  lemma FullAdder(x: bool, y: bool, c: bool, k: nat)
    ensures Shl(Bit(x), k) + Shl(Bit(y), k) + Shl(Bit(c), k) ==
      Shl(Bit(x != (y != c)), k) + Shl(Bit((x && y) || (c && x != y)), k + 1)
  {
    ShlOrder(0, 0, k);
  }

  function NotBits(a: Bits): (r: Bits)
    ensures |r| == |a|
  {
    seq(|a|, i requires 0 <= i < |a| => !a[i])
  }

  lemma NotBitsTail(a: Bits)
    requires |a| > 0
    ensures NotBits(a)[0] == !a[0] && NotBits(a)[1..] == NotBits(a[1..])
  {
    forall i | 0 <= i < |a| - 1 ensures NotBits(a)[1..][i] == NotBits(a[1..])[i] {
      assert a[1..][i] == a[i + 1];
    }
  }

  lemma {:induction false} NotBitsIs(a: Bits)
    ensures UVal(NotBits(a)) == Pow2(|a|) - 1 - UVal(a)
  {
    if |a| > 0 {
      NotBitsTail(a);
      NotBitsIs(a[1..]);
    }
  }

  method AddBits(a: Bits, b: Bits) returns (r: Bits)
    requires |a| == |b|
    ensures |r| == |a| && UVal(r) == Wrap(|a|, UVal(a) + UVal(b))
  {
    var carry;
    r, carry := AddWithCarry(a, b, false);
    UValBound(r);
    WrapUnique(|a|, UVal(a) + UVal(b), Bit(carry), UVal(r));
  }

  /** Complement, then add one. */
  method NegBits(a: Bits) returns (r: Bits)
    ensures |r| == |a| && UVal(r) == Wrap(|a|, -(UVal(a) as int))
  {
    var carry;
    r, carry := AddWithCarry(NotBits(a), Zeros(|a|), true);
    UValZeros(|a|);
    NotBitsIs(a);
    UValBound(r);
    BorrowShift(|a|, Bit(carry));
    WrapUnique(|a|, -(UVal(a) as int), Bit(carry) - 1, UVal(r));
  }

  /** The complement of the subtrahend is added with a carry in. */
  method SubBits(a: Bits, b: Bits) returns (r: Bits)
    requires |a| == |b|
    ensures |r| == |a| && UVal(r) == Wrap(|a|, UVal(a) - UVal(b))
  {
    var carry;
    r, carry := AddWithCarry(a, NotBits(b), true);
    NotBitsIs(b);
    UValBound(r);
    BorrowShift(|a|, Bit(carry));
    WrapUnique(|a|, UVal(a) - UVal(b), Bit(carry) - 1, UVal(r));
  }

  lemma BorrowShift(w: nat, c: int)
    ensures Shl(c - 1, w) == Shl(c, w) - Pow2(w)
  {
    ShlAdd(c - 1, 1, w);
    ShlOne(w);
  }

  // ----- shifts by a position -----

  function ShlBy(a: Bits, k: nat): (r: Bits)
    ensures |r| == |a|
  {
    seq(|a|, i requires 0 <= i < |a| => i >= k && a[i - k])
  }

  function LShrBy(a: Bits, k: nat): (r: Bits)
    ensures |r| == |a|
  {
    seq(|a|, i requires 0 <= i < |a| => i + k < |a| && a[i + k])
  }

  function AShrBy(a: Bits, k: nat): (r: Bits)
    requires |a| > 0
    ensures |r| == |a|
  {
    seq(|a|, i requires 0 <= i < |a| => if i + k < |a| then a[i + k] else a[|a| - 1])
  }

  lemma ShlByIs(a: Bits, k: nat)
    ensures UVal(ShlBy(a, k)) == ShlV(|a|, UVal(a), k)
  {
    if k <= |a| {
      assert ShlBy(a, k) == Zeros(k) + a[..|a| - k];
      ShlWithin(a, k, |a| - k, Zeros(k) + a[..|a| - k]);
    } else {
      ShlBeyond(a, k);
    }
  }

  lemma ShlWithin(a: Bits, k: nat, i: nat, r: Bits)
    requires i + k == |a| && r == Zeros(k) + a[..i]
    ensures UVal(r) == ShlV(|a|, UVal(a), k)
  {
    UValZeros(k);
    UValConcat(Zeros(k), a[..i]);
    UValSplit(a, i);
    UValBound(r);
    CutShifted(UVal(a), UVal(a[..i]), UVal(a[i..]), i, k, |a|, UVal(r));
  }

  lemma CutShifted(x: nat, lo: nat, hi: nat, i: nat, k: nat, w: nat, r: nat)
    requires w == i + k && x == lo + Shl(hi, i) && r == Shl(lo, k) && r < Pow2(w)
    ensures r == LowBits(Shl(x, k), w)
  {
    ShlAdd(lo, Shl(hi, i), k);
    ShlShl(hi, i, k);
    CutUnique(Shl(x, k), hi, r, w);
  }

  lemma ShlBeyond(a: Bits, k: nat)
    requires k > |a|
    ensures UVal(ShlBy(a, k)) == ShlV(|a|, UVal(a), k)
  {
    var w := |a|;
    assert ShlBy(a, k) == Zeros(w);
    UValZeros(w);
    ShlShl(UVal(a), k - w, w);
    CutUnique(Shl(UVal(a), k), Shl(UVal(a), k - w), 0, w);
  }

  function Fill(n: nat, s: bool): (r: Bits)
    ensures |r| == n
  {
    if s then Ones(n) else Zeros(n)
  }

  lemma FillIs(n: nat, s: bool)
    ensures UVal(Fill(n, s)) == if s then Pow2(n) - 1 else 0
  {
    UValOnes(n);
    UValZeros(n);
  }

  /** A right shift keeps the upper bits and fills with copies of `s`. */
  predicate ShiftedRight(a: Bits, k: nat, s: bool, r: Bits)
  {
    |r| == |a| && forall i :: 0 <= i < |a| ==> r[i] == if i + k < |a| then a[i + k] else s
  }

  lemma RightWithin(a: Bits, k: nat, i: nat, s: bool, r: Bits, fill: nat)
    requires i + k == |a| && ShiftedRight(a, k, s, r) && fill == if s then Pow2(k) - 1 else 0
    ensures UVal(r) == Shr(UVal(a), k) + Shl(fill, i)
  {
    assert r == a[k..] + Fill(k, s);
    UValConcat(a[k..], Fill(k, s));
    UValSplit(a, k);
    FillIs(k, s);
  }

  lemma RightBeyond(a: Bits, k: nat, s: bool, r: Bits)
    requires k > |a| && ShiftedRight(a, k, s, r)
    ensures UVal(r) == if s then Pow2(|a|) - 1 else 0
  {
    assert r == Fill(|a|, s);
    FillIs(|a|, s);
  }

  lemma LShrByIs(a: Bits, k: nat)
    ensures UVal(LShrBy(a, k)) == LShrV(UVal(a), k)
  {
    assert ShiftedRight(a, k, false, LShrBy(a, k));
    UValBound(a);
    if k <= |a| {
      RightWithin(a, k, |a| - k, false, LShrBy(a, k), 0);
      ShlOrder(0, 0, |a| - k);
    } else {
      RightBeyond(a, k, false, LShrBy(a, k));
      LowBitsSmall(UVal(a), |a|);
      ShrShr(UVal(a), |a|, k - |a|);
      ShrZero(k - |a|);
    }
  }

  lemma {:induction false} ShrZero(k: nat)
    ensures Shr(0, k) == 0
  {
    if k > 0 { ShrZero(k - 1); }
  }

  lemma AShrByIs(a: Bits, k: nat)
    requires |a| > 0
    ensures UVal(AShrBy(a, k)) == AShrV(|a|, UVal(a), k)
  {
    AShrBits(a, k);
    SignFilled(a, k, a[|a| - 1], AShrBy(a, k));
  }

  lemma AShrBits(a: Bits, k: nat)
    requires |a| > 0
    ensures ShiftedRight(a, k, a[|a| - 1], AShrBy(a, k))
  {
  }

  lemma SignFilled(a: Bits, k: nat, s: bool, r: Bits)
    requires |a| > 0 && s == a[|a| - 1] && ShiftedRight(a, k, s, r)
    ensures UVal(r) == AShrV(|a|, UVal(a), k)
  {
    if s { NegativeShift(a, k, r); } else { PositiveShift(a, k, r); }
  }

  lemma NegativeShift(a: Bits, k: nat, r: Bits)
    requires |a| > 0 && a[|a| - 1] && ShiftedRight(a, k, true, r)
    ensures UVal(r) == AShrV(|a|, UVal(a), k)
  {
    if k <= |a| {
      ShrNegative(a, k, |a| - k, r);
    } else {
      MsbIs(a);
      UValBound(a);
      RightBeyond(a, k, true, r);
      NegativeBeyond(|a|, UVal(a), k);
    }
  }

  lemma ShrNegative(a: Bits, k: nat, i: nat, r: Bits)
    requires |a| > 0 && a[|a| - 1] && i + k == |a| && ShiftedRight(a, k, true, r)
    ensures UVal(r) == AShrV(|a|, UVal(a), k)
  {
    RightWithin(a, k, i, true, r, Pow2(k) - 1);
    MsbIs(a);
    UValBound(a);
    UValBound(r);
    NegativeWithin(|a|, UVal(a), k, i, UVal(r));
  }

  lemma PositiveShift(a: Bits, k: nat, r: Bits)
    requires |a| > 0 && !a[|a| - 1] && ShiftedRight(a, k, false, r)
    ensures UVal(r) == AShrV(|a|, UVal(a), k)
  {
    assert r == LShrBy(a, k);
    LShrByIs(a, k);
    MsbIs(a);
    UValBound(r);
    PositiveWithin(|a|, UVal(a), k, UVal(r));
  }

  lemma PositiveWithin(w: nat, x: nat, k: nat, r: nat)
    requires w > 0 && x < Pow2(w - 1) && r == Shr(x, k) < Pow2(w)
    ensures r == AShrV(w, x, k)
  {
    WrapNat(k, x);
    WrapSmall(w, r);
  }

  /** Dividing `x - 2^w` by `2^k` and rounding down. */
  lemma NegativeWithin(w: nat, x: nat, k: nat, i: nat, r: nat)
    requires w > 0 && Pow2(w - 1) <= x < Pow2(w) && i + k == w
    requires r == Shr(x, k) + Shl(Pow2(k) - 1, i) && r < Pow2(w)
    ensures r == AShrV(w, x, k)
  {
    NegativeQuotient(w, x, k);
    OnesAbove(w, k);
    BorrowShift(w, 0);
    ShlOrder(0, 0, w);
    WrapUnique(w, Sar(x - Pow2(w), k), -1, r);
  }

  /** Shifting a negative number by more than its width leaves minus one. */
  lemma NegativeBeyond(w: nat, x: nat, k: nat)
    requires w > 0 && Pow2(w - 1) <= x < Pow2(w) && k > w
    ensures AShrV(w, x, k) == Pow2(w) - 1
  {
    var n := x - Pow2(w);
    BorrowShift(k, 0);
    ShlOrder(0, 0, k);
    Pow2Mono(w, k);
    WrapUnique(k, n, -1, n + Pow2(k));
    BorrowShift(w, 0);
    ShlOrder(0, 0, w);
    WrapUnique(w, -1, -1, Pow2(w) - 1);
  }

  lemma NegativeQuotient(w: nat, x: nat, k: nat)
    requires k <= w
    ensures Sar(x - Pow2(w), k) == Shr(x, k) - Pow2(w - k)
  {
    ShrLow(x, k);
    ShlPow2(w - k, k);
    var hi := Shr(x, k) - Pow2(w - k);
    ShlAdd(hi, Pow2(w - k), k);
    WrapUnique(k, x - Pow2(w), hi, LowBits(x, k));
  }

  lemma OnesAbove(w: nat, k: nat)
    requires k <= w
    ensures Shl(Pow2(k) - 1, w - k) == Pow2(w) - Pow2(w - k)
  {
    BorrowShift(w - k, Pow2(k));
    ShlPow2(k, w - k);
  }

  // ----- multiplication -----

  /** Shift-and-add multiplication. */
  method MulBits(a: Bits, b: Bits) returns (acc: Bits)
    requires |a| == |b|
    ensures |acc| == |a| && UVal(acc) == Wrap(|a|, UVal(a) * UVal(b))
  {
    var w := |a|;
    acc := Zeros(w);
    UValZeros(w);
    WrapSmall(w, 0);
    for i := 0 to w
      invariant |acc| == w
      invariant UVal(acc) == Wrap(w, UVal(a) * UVal(b[..i]))
    {
      UValTake(b, i);
      ghost var before := acc;
      if b[i] {
        acc := AddBits(acc, ShlBy(a, i));
        ShlByIs(a, i);
      }
      PartialProduct(w, UVal(a), UVal(b[..i]), b[i], i, UVal(b[..i + 1]), UVal(before), UVal(acc));
    }
    assert b[..w] == b;
  }

  /** One more bit of the multiplier. */
  lemma PartialProduct(w: nat, x: nat, u: nat, bit: bool, i: nat, v: nat, before: nat, after: nat)
    requires v == u + Shl(Bit(bit), i)
    requires before == Wrap(w, x * u)
    requires after == if bit then Wrap(w, before + ShlV(w, x, i)) else before
    ensures after == Wrap(w, x * v)
  {
    if bit {
      ShiftedProduct(x, u, i, v);
      AddShifted(w, x * u, x, i);
    } else {
      ShlOrder(0, 0, i);
    }
  }

  lemma ShiftedProduct(x: int, u: int, i: nat, v: int)
    requires v == u + Shl(1, i)
    ensures x * v == x * u + Shl(x, i)
  {
    ShlMul(x, 1, i);
    MulAdd(u, Shl(1, i), x);
  }

  lemma AddShifted(w: nat, p: int, x: nat, i: nat)
    ensures Wrap(w, Wrap(w, p) + ShlV(w, x, i)) == Wrap(w, p + Shl(x, i))
  {
    WrapNat(w, Shl(x, i));
    WrapIdem(w, Shl(x, i));
    WrapIdem(w, p);
    WrapSum(w, Wrap(w, p), ShlV(w, x, i), p, Shl(x, i));
  }

  // ----- comparison -----

  /** The highest differing bit decides; the loop keeps the bits above it equal. */
  method UltBits(a: Bits, b: Bits) returns (r: bool)
    requires |a| == |b|
    ensures r <==> UVal(a) < UVal(b)
  {
    var i := |a|;
    while i > 0
      invariant 0 <= i <= |a| && a[i..] == b[i..]
    {
      i := i - 1;
      if a[i] != b[i] {
        FirstDifference(a, b, i);
        return b[i];
      }
      assert a[i..] == [a[i]] + a[i + 1..] && b[i..] == [b[i]] + b[i + 1..];
    }
    assert a[0..] == a && b[0..] == b;
    return false;
  }

  lemma FirstDifference(a: Bits, b: Bits, i: nat)
    requires |a| == |b| && i < |a| && a[i] != b[i] && a[i + 1..] == b[i + 1..]
    ensures b[i] <==> UVal(a) < UVal(b)
    ensures a[i] <==> UVal(b) < UVal(a)
  {
    UValSplit(a, i);
    UValSplit(b, i);
    UValDrop(a, i);
    UValDrop(b, i);
    UValBound(a[..i]);
    UValBound(b[..i]);
    ShlOrder(UVal(a[i..]), UVal(b[i..]), i);
    ShlOrder(UVal(b[i..]), UVal(a[i..]), i);
  }

  /** Two's-complement order. */
  method SltBits(a: Bits, b: Bits) returns (r: bool)
    requires |a| == |b| > 0
    ensures r <==> SVal(a) < SVal(b)
  {
    MsbIs(a);
    MsbIs(b);
    UValBound(a);
    UValBound(b);
    var sa, sb := a[|a| - 1], b[|b| - 1];
    if sa && !sb { return true; }
    if !sa && sb { return false; }
    r := UltBits(a, b);
  }

  // ----- widths -----

  function ZextRaw(a: Bits, to: nat): (r: Bits)
    requires |a| <= to
    ensures |r| == to
  {
    a + Zeros(to - |a|)
  }

  function SextRaw(a: Bits, to: nat): (r: Bits)
    requires 0 < |a| <= to
    ensures |r| == to
  {
    a + Fill(to - |a|, a[|a| - 1])
  }

  function ExtractRaw(a: Bits, lo: nat, n: nat): (r: Bits)
    requires n >= 1 && lo + n <= |a|
    ensures |r| == n
  {
    a[lo..lo + n]
  }

  lemma ZextIs(a: Bits, to: nat)
    requires |a| <= to
    ensures UVal(ZextRaw(a, to)) == UVal(a)
  {
    UValZeros(to - |a|);
    UValConcat(a, Zeros(to - |a|));
    ShlOrder(0, 0, |a|);
  }

  /** Sign extension keeps the signed value. */
  lemma SextIs(a: Bits, to: nat)
    requires 0 < |a| <= to
    ensures SVal(SextRaw(a, to)) == SVal(a)
    ensures UVal(SextRaw(a, to)) == Wrap(to, SVal(a))
  {
    var s, k := a[|a| - 1], to - |a|;
    var r := SextRaw(a, to);
    FillIs(k, s);
    UValConcat(a, Fill(k, s));
    assert r[to - 1] == s;
    ExtendedSign(|a|, k, to, UVal(a), s, UVal(r));
    MsbIs(r);
    UValBound(r);
    SignedCongruent(to, UVal(r));
  }

  lemma ExtendedSign(w: nat, k: nat, to: nat, x: nat, s: bool, r: nat)
    requires to == w + k && r == x + Shl(if s then Pow2(k) - 1 else 0, w)
    ensures if s then r - Pow2(to) == x - Pow2(w) else r == x
  {
    BorrowShift(w, Pow2(k));
    ShlPow2(k, w);
    ShlOrder(0, 0, w);
  }

  lemma ExtractIs(a: Bits, lo: nat, n: nat)
    requires n >= 1 && lo + n <= |a|
    ensures UVal(ExtractRaw(a, lo, n)) == LowBits(Shr(UVal(a), lo), n)
  {
    UValSplit(a, lo);
    UValSplit(a[lo..], n);
    assert a[lo..][..n] == a[lo..lo + n];
  }

  // ----- division -----

  /** Restoring long division. After each shift the partial remainder is below twice the divisor, so
      `w + 1` bits hold it. */
  method UDivRemNonzero(a: Bits, b: Bits) returns (quot: Bits, r: Bits)
    requires |a| == |b| > 0 && UVal(b) != 0
    ensures |quot| == |r| == |a|
    ensures UVal(quot) == Quot(UVal(a), UVal(b)) && UVal(r) == Rem(UVal(a), UVal(b))
    ensures UVal(a) == UVal(quot) * UVal(b) + UVal(r) && UVal(r) < UVal(b)
  {
    var n := |a|;
    var divisor := ZextRaw(b, n + 1);
    ZextIs(b, n + 1);
    var rem := Zeros(n + 1);
    quot := Zeros(n);
    DivisionStart(a, b, quot, rem);
    var i := n;
    while i > 0
      invariant 0 <= i <= n && DivisionAt(a, b, quot, rem, i)
    {
      i := i - 1;
      ghost var was := rem;
      rem := ShlBy(rem, 1);
      rem := rem[0 := a[i]];
      BringDown(a, b, quot, was, i);
      var less := UltBits(rem, divisor);
      ghost var shifted, quot' := rem, quot;
      if !less {
        UValBound(rem);
        WrapSmall(n + 1, UVal(rem) - UVal(divisor));
        rem := SubBits(rem, divisor);
        quot := quot[i := true];
      }
      DivisionStep(a, b, quot', was, i, UVal(shifted), quot, rem);
    }
    assert a[0..] == a && quot[0..] == quot;
    r := ExtractRaw(rem, 0, n);
    UValSplit(rem, n);
    assert rem[0..n] == rem[..n];
    QuotRem(UVal(a), UVal(b));
    UValBound(b);
    LowBitsSmall(UVal(rem), n);
  }

  /** The bits of the dividend from `i` up are divided; the quotient bits below `i` are clear. */
  predicate DivisionAt(a: Bits, b: Bits, quot: Bits, rem: Bits, i: nat)
    requires |a| == |b| && UVal(b) != 0 && i <= |a|
  {
    && |quot| == |a| && |rem| == |a| + 1
    && (forall j :: 0 <= j < i ==> !quot[j])
    && UVal(quot[i..]) == Quot(UVal(a[i..]), UVal(b))
    && UVal(rem) == Rem(UVal(a[i..]), UVal(b))
  }

  lemma DivisionStart(a: Bits, b: Bits, quot: Bits, rem: Bits)
    requires |a| == |b| && UVal(b) != 0 && quot == Zeros(|a|) && rem == Zeros(|a| + 1)
    ensures DivisionAt(a, b, quot, rem, |a|)
  {
    UValZeros(|a| + 1);
    assert quot[|a|..] == [] && a[|a|..] == [];
  }

  /** The shifted remainder with the next bit of the dividend loses nothing. */
  lemma BringDown(a: Bits, b: Bits, quot: Bits, rem: Bits, i: nat)
    requires |a| == |b| && UVal(b) != 0 && i < |a| && DivisionAt(a, b, quot, rem, i + 1)
    ensures UVal(ShlBy(rem, 1)[0 := a[i]]) == 2 * UVal(rem) + Bit(a[i])
  {
    QuotRem(UVal(a[i + 1..]), UVal(b));
    UValBound(b);
    ShlByIs(rem, 1);
    ShlDouble(UVal(rem), 0);
    LowBitsSmall(2 * UVal(rem), |rem|);
    var s := ShlBy(rem, 1);
    assert !s[0];
    assert s[0 := a[i]][1..] == s[1..];
  }

  /** Setting bit `i` or leaving it clear. */
  lemma QuotientBit(quot: Bits, i: nat, taken: bool, quot': Bits)
    requires i < |quot| && !quot[i] && quot' == (if taken then quot[i := true] else quot)
    ensures UVal(quot'[i..]) == Bit(taken) + 2 * UVal(quot[i + 1..])
  {
    UValDrop(quot', i);
    assert quot'[i + 1..] == quot[i + 1..];
  }

  /** One more bit of the dividend. */
  lemma DivisionStep(a: Bits, b: Bits, quot: Bits, rem: Bits, i: nat, shifted: nat, quot': Bits, rem': Bits)
    requires |a| == |b| && UVal(b) != 0 && i < |a| && DivisionAt(a, b, quot, rem, i + 1)
    requires shifted == 2 * UVal(rem) + Bit(a[i]) && |rem'| == |rem|
    requires quot' == (if shifted < UVal(b) then quot else quot[i := true])
    requires UVal(rem') == if shifted < UVal(b) then shifted else shifted - UVal(b)
    ensures DivisionAt(a, b, quot', rem', i)
  {
    UValDrop(a, i);
    QuotientBit(quot, i, shifted >= UVal(b), quot');
    LongDivisionStep(UVal(a[i + 1..]), Bit(a[i]), UVal(a[i..]), UVal(b), shifted, if shifted >= UVal(b) then 1 else 0);
  }

  method UDivBits(a: Bits, b: Bits) returns (r: Bits)
    requires |a| == |b| > 0
    ensures |r| == |a| && UVal(r) == UDivV(|a|, UVal(a), UVal(b))
  {
    if b == Zeros(|b|) {
      UValZeros(|b|);
      UValOnes(|a|);
      return Ones(|a|);
    }
    NonzeroValue(b);
    var rem;
    r, rem := UDivRemNonzero(a, b);
  }

  method URemBits(a: Bits, b: Bits) returns (r: Bits)
    requires |a| == |b| > 0
    ensures |r| == |a| && UVal(r) == URemV(UVal(a), UVal(b))
  {
    if b == Zeros(|b|) {
      UValZeros(|b|);
      return a;
    }
    NonzeroValue(b);
    var quot;
    quot, r := UDivRemNonzero(a, b);
  }

  lemma NonzeroValue(b: Bits)
    requires b != Zeros(|b|)
    ensures UVal(b) != 0
  {
    UValZeros(|b|);
    if UVal(b) == 0 { UValInjective(b, Zeros(|b|)); }
  }

  /** Signed division, by the four sign cases. */
  method SDivBits(a: Bits, b: Bits) returns (r: Bits)
    requires |a| == |b| > 0
    ensures |r| == |a| && UVal(r) == SDivV(|a|, UVal(a), UVal(b))
  {
    var sa, sb := a[|a| - 1], b[|b| - 1];
    var x, y := a, b;
    if sa { x := NegBits(a); }
    if sb { y := NegBits(b); }
    MagnitudeBits(a, x);
    MagnitudeBits(b, y);
    UValBound(b);
    r := UDivBits(x, y);
    ghost var q := UVal(r);
    UValBound(r);
    WrapSmall(|a|, q);
    if sa != sb { r := NegBits(r); }
    QuotientSign(|a|, UVal(a), UVal(b), q);
  }

  /** A vector or its negation, whichever is its magnitude. */
  lemma MagnitudeBits(a: Bits, x: Bits)
    requires |a| == |x| > 0
    requires if a[|a| - 1] then UVal(x) == Wrap(|a|, -(UVal(a) as int)) else x == a
    ensures UVal(x) == Magnitude(Signed(|a|, UVal(a)))
    ensures a[|a| - 1] <==> Signed(|a|, UVal(a)) < 0
  {
    MsbIs(a);
    UValBound(a);
    if a[|a| - 1] {
      BorrowShift(|a|, 0);
      ShlOrder(0, 0, |a|);
      WrapUnique(|a|, -(UVal(a) as int), -1, Pow2(|a|) - UVal(a));
    }
  }

  /** The unsigned quotient of the magnitudes, negated when the signs differ. */
  lemma QuotientSign(w: nat, x: nat, y: nat, q: nat)
    requires w > 0 && x < Pow2(w) && y < Pow2(w) && q < Pow2(w)
    requires q == UDivV(w, Magnitude(Signed(w, x)), Magnitude(Signed(w, y)))
    ensures SDivV(w, x, y) == if (Signed(w, x) < 0) == (Signed(w, y) < 0) then q else Wrap(w, 0 - q)
  {
    WrapSmall(w, q);
    SignedCongruent(w, y);
    WrapSmall(w, 0);
    if Signed(w, y) == 0 {
      BorrowShift(w, 0);
      ShlOrder(0, 0, w);
      WrapUnique(w, -1, -1, q);
      AllOnesNegated(w, q);
    }
  }

  lemma AllOnesNegated(w: nat, q: nat)
    requires q == Pow2(w) - 1
    ensures Wrap(w, 0 - q) == Wrap(w, 1)
  {
    ShlOne(w);
    BorrowShift(w, 0);
    ShlOrder(0, 0, w);
    WrapShift(w, 1, -1);
  }

  /** Signed remainder, by the four sign cases; it follows the dividend's sign. */
  method SRemBits(a: Bits, b: Bits) returns (r: Bits)
    requires |a| == |b| > 0
    ensures |r| == |a| && UVal(r) == SRemV(|a|, UVal(a), UVal(b))
  {
    var sa, sb := a[|a| - 1], b[|b| - 1];
    var x, y := a, b;
    if sa { x := NegBits(a); }
    if sb { y := NegBits(b); }
    MagnitudeBits(a, x);
    MagnitudeBits(b, y);
    UValBound(a);
    r := URemBits(x, y);
    UValBound(r);
    RemainderSign(|a|, UVal(a), UVal(b), UVal(r));
    if sa { r := NegBits(r); }
  }

  /** The unsigned remainder of the magnitudes, negated for a negative dividend. */
  lemma RemainderSign(w: nat, x: nat, y: nat, r: nat)
    requires w > 0 && x < Pow2(w) && r < Pow2(w)
    requires r == URemV(Magnitude(Signed(w, x)), Magnitude(Signed(w, y)))
    ensures SRemV(w, x, y) == if Signed(w, x) < 0 then Wrap(w, 0 - r) else r
  {
    WrapSmall(w, r);
    SignedCongruent(w, x);
  }

  /** The high half of the product at double width. */
  method MulHiBits(a: Bits, b: Bits, signed: bool) returns (r: Bits)
    requires |a| == |b| > 0
    ensures |r| == |a|
    ensures UVal(r) == (if signed then SMulHiV(|a|, UVal(a), UVal(b)) else UMulHiV(|a|, UVal(a), UVal(b)))
  {
    var n := |a|;
    var x, y := Extend(a, 2 * n, signed), Extend(b, 2 * n, signed);
    var product := MulBits(x, y);
    r := ExtractRaw(product, n, n);
    ExtractIs(product, n, n);
    ExtendIs(a, 2 * n, signed);
    ExtendIs(b, 2 * n, signed);
    UValBound(a);
    UValBound(b);
    HighHalves(n, UVal(a), UVal(b), signed, UVal(x), UVal(y), UVal(product));
  }

  function Extend(a: Bits, to: nat, signed: bool): (r: Bits)
    requires 0 < |a| <= to
    ensures |r| == to
  {
    if signed then SextRaw(a, to) else ZextRaw(a, to)
  }

  lemma ExtendIs(a: Bits, to: nat, signed: bool)
    requires 0 < |a| <= to
    ensures UVal(Extend(a, to, signed)) == if signed then Wrap(to, Signed(|a|, UVal(a))) else UVal(a)
  {
    if signed {
      SextIs(a, to);
      MsbIs(a);
    } else {
      ZextIs(a, to);
    }
  }

  lemma HighHalves(n: nat, a: nat, b: nat, signed: bool, x: nat, y: nat, product: nat)
    requires a < Pow2(n) && b < Pow2(n)
    requires x == if signed then Wrap(2 * n, Signed(n, a)) else a
    requires y == if signed then Wrap(2 * n, Signed(n, b)) else b
    requires product == Wrap(2 * n, x * y)
    ensures LowBits(Shr(product, n), n) == if signed then SMulHiV(n, a, b) else UMulHiV(n, a, b)
  {
    if signed {
      SignedHighHalf(n, Signed(n, a), Signed(n, b), x, y);
    } else {
      UnsignedHighHalf(n, a, b, a * b);
    }
  }

  lemma SignedHighHalf(n: nat, a: int, b: int, x: nat, y: nat)
    requires x == Wrap(2 * n, a) && y == Wrap(2 * n, b)
    ensures LowBits(Shr(Wrap(2 * n, x * y), n), n) == Wrap(n, Sar(a * b, n))
  {
    WrapIdem(2 * n, a);
    WrapIdem(2 * n, b);
    WrapProduct(2 * n, x, y, a, b);
    HighHalf(n, a * b);
  }

  /** The upper half of a double-width number is the quotient by `2^n`, modulo `2^n`. */
  lemma HighHalf(n: nat, p: int)
    ensures LowBits(Shr(Wrap(2 * n, p), n), n) == Wrap(n, Sar(p, n))
  {
    var v := Wrap(2 * n, p);
    WrapParts(2 * n, p);
    ShrLow(v, n);
    var hi := Shr(v, n);
    ShlShl(Sar(p, 2 * n), n, n);
    var top := Shl(Sar(p, 2 * n), n);
    ShlAdd(top, hi, n);
    WrapUnique(n, p, top + hi, LowBits(v, n));
    WrapShift(n, hi, Sar(p, 2 * n));
    WrapNat(n, hi);
  }

  lemma UnsignedHighHalf(n: nat, x: nat, y: nat, p: nat)
    requires x < Pow2(n) && y < Pow2(n) && p == x * y
    ensures LowBits(Shr(Wrap(2 * n, p), n), n) == Shr(p, n)
  {
    HighHalf(n, p);
    WrapNat(n, p);
    if p >= Shl(Pow2(n), n) {
      MulLe(x, Pow2(n), y);
      MulLt(y, Pow2(n), Pow2(n));
      MulComm(y, Pow2(n));
      ShlIs(Pow2(n), n);
    }
    ShrBelow(p, n, Pow2(n));
    WrapSmall(n, Shr(p, n));
  }

  // ----- shift counts and rotations -----

  datatype Option<T> = None | Some(value: T)

  /** The value as a bit position when it is below `limit`; huge values stop the loop early. */
  method CountBelow(a: Bits, limit: nat) returns (r: Option<nat>)
    requires |a| > 0
    ensures r == if UVal(a) < limit then Some(UVal(a)) else None
  {
    var v, i := 0, |a|;
    assert a[|a|..] == Zeros(0);
    UValZeros(0);
    while i > 0
      invariant 0 <= i <= |a| && v == UVal(a[i..])
      invariant i < |a| ==> v < limit
    {
      i := i - 1;
      UValDrop(a, i);
      v := 2 * v + Bit(a[i]);
      if v >= limit {
        SuffixBelow(a, i);
        return None;
      }
    }
    assert a[0..] == a;
    return Some(v);
  }

  /** The running value can only grow. */
  lemma SuffixBelow(a: Bits, i: nat)
    requires i <= |a|
    ensures UVal(a[i..]) <= UVal(a)
  {
    UValSplit(a, i);
  }

  /** The value modulo `m`. */
  method ValueMod(a: Bits, m: nat) returns (r: nat)
    requires m >= 1
    ensures r == Rem(UVal(a), m)
  {
    r := 0;
    var i := |a|;
    assert a[|a|..] == Zeros(0);
    UValZeros(0);
    while i > 0
      invariant 0 <= i <= |a| && r == Rem(UVal(a[i..]), m)
    {
      i := i - 1;
      UValDrop(a, i);
      HornerStep(UVal(a[i + 1..]), Bit(a[i]), m);
      r := Rem(2 * r + Bit(a[i]), m);
    }
    assert a[0..] == a;
  }

  lemma HornerStep(v: nat, bit: nat, m: nat)
    requires m >= 1
    ensures Rem(2 * Rem(v, m) + bit, m) == Rem(2 * v + bit, m)
  {
    RemAddMultiple(2 * Rem(v, m) + bit, 2 * Quot(v, m), m);
    QuotRem(v, m);
    MulDouble(Quot(v, m), m);
  }

  lemma {:induction false} RemAddMultiple(n: nat, k: nat, d: nat)
    requires d > 0
    ensures 0 <= k * d && Rem(n + k * d, d) == Rem(n, d)
  {
    if k > 0 {
      RemAddMultiple(n, k - 1, d);
      MulSucc(k - 1, d);
      assert n + k * d - d == n + (k - 1) * d;
    }
  }
}
