/** The bit-serial operators that move or count bits: rotations, deposit and extract, counts,
    reversals. */
module BitMoves {
  import opened Powers
  import opened Words
  import opened Nats
  import opened Bitwise
  import opened BvSpec

  // ----- rotations -----

  /** Every bit moves `c` places up, those at the top reappearing at the bottom. */
  function RotLBy(a: Bits, c: nat): (r: Bits)
    requires c <= |a|
    ensures |r| == |a|
  {
    seq(|a|, i requires 0 <= i < |a| => a[(i + |a| - c) % |a|])
  }

  /** Every bit moves `c` places down, those at the bottom reappearing at the top. */
  function RotRBy(a: Bits, c: nat): (r: Bits)
    requires c <= |a|
    ensures |r| == |a|
  {
    seq(|a|, i requires 0 <= i < |a| => a[(i + c) % |a|])
  }

  lemma ModOnce(x: nat, n: nat)
    requires x < 2 * n
    ensures x % n == if x < n then x else x - n
  {
    DivModUnique(x, n, if x < n then 0 else 1, if x < n then x else x - n);
  }

  lemma RotLParts(a: Bits, c: nat)
    requires c <= |a|
    ensures RotLBy(a, c) == a[|a| - c..] + a[..|a| - c]
  {
    forall i | 0 <= i < |a|
      ensures RotLBy(a, c)[i] == (a[|a| - c..] + a[..|a| - c])[i]
    {
      ModOnce(i + |a| - c, |a|);
    }
  }

  lemma RotRParts(a: Bits, c: nat)
    requires c <= |a|
    ensures RotRBy(a, c) == a[c..] + a[..c]
  {
    forall i | 0 <= i < |a| ensures RotRBy(a, c)[i] == (a[c..] + a[..c])[i] {
      ModOnce(i + c, |a|);
    }
  }

  /** The last bit moves to the front. */
  lemma RotLOneIs(a: Bits)
    requires |a| > 0
    ensures UVal([a[|a| - 1]] + a[..|a| - 1]) == RotLOne(|a|, UVal(a))
  {
    var w1 := |a| - 1;
    UValSplit(a, w1);
    UValDrop(a, w1);
    assert a[w1 + 1..] == [];
    assert ([a[w1]] + a[..w1])[1..] == a[..w1];
  }

  /** The first bit moves to the end. */
  lemma RotROneIs(a: Bits)
    requires |a| > 0
    ensures UVal(a[1..] + [a[0]]) == RotROne(|a|, UVal(a))
  {
    HalfOf(a);
    assert UVal(a) % 2 == Bit(a[0]);
    UValAppend(a[1..], a[0]);
  }

  lemma {:induction false} RotLSteps(a: Bits, c: nat)
    requires c <= |a| && |a| > 0
    ensures UVal(a[|a| - c..] + a[..|a| - c]) == RotLV(|a|, UVal(a), c)
  {
    var k := |a| - c;
    if c == 0 {
      assert a[k..] + a[..k] == a;
    } else {
      RotLSteps(a, c - 1);
      var s := a[k + 1..] + a[..k + 1];
      RotLOneIs(s);
      assert [s[|s| - 1]] + s[..|s| - 1] == a[k..] + a[..k];
    }
  }

  lemma {:induction false} RotRSteps(a: Bits, c: nat)
    requires c <= |a| && |a| > 0
    ensures UVal(a[c..] + a[..c]) == RotRV(|a|, UVal(a), c)
  {
    if c == 0 {
      assert a[c..] + a[..c] == a;
    } else {
      RotRSteps(a, c - 1);
      var s := a[c - 1..] + a[..c - 1];
      RotROneIs(s);
      assert s[1..] + [s[0]] == a[c..] + a[..c];
    }
  }

  lemma {:induction false} RotLCompose(w: nat, x: nat, i: nat, j: nat)
    requires w > 0
    ensures RotLV(w, x, i + j) == RotLV(w, RotLV(w, x, i), j)
  {
    if j > 0 { RotLCompose(w, x, i, j - 1); }
  }

  lemma {:induction false} RotRCompose(w: nat, x: nat, i: nat, j: nat)
    requires w > 0
    ensures RotRV(w, x, i + j) == RotRV(w, RotRV(w, x, i), j)
  {
    if j > 0 { RotRCompose(w, x, i, j - 1); }
  }

  /** Rotating by the whole width changes nothing, so only the count modulo the width matters. */
  lemma {:induction false} RotLPeriod(a: Bits, y: nat)
    requires |a| > 0
    ensures RotLV(|a|, UVal(a), y) == RotLV(|a|, UVal(a), Rem(y, |a|))
  {
    if y >= |a| {
      RotLCompose(|a|, UVal(a), |a|, y - |a|);
      RotLSteps(a, |a|);
      assert a[0..] + a[..0] == a;
      RotLPeriod(a, y - |a|);
    }
  }

  lemma {:induction false} RotRPeriod(a: Bits, y: nat)
    requires |a| > 0
    ensures RotRV(|a|, UVal(a), y) == RotRV(|a|, UVal(a), Rem(y, |a|))
  {
    if y >= |a| {
      RotRCompose(|a|, UVal(a), |a|, y - |a|);
      RotRSteps(a, |a|);
      assert a[|a|..] + a[..|a|] == a;
      RotRPeriod(a, y - |a|);
    }
  }

  /** Rotating by the count modulo the width is that many single rotations, however large the
      count. */
  lemma RotLByIs(a: Bits, y: nat, c: nat)
    requires |a| > 0 && c == Rem(y, |a|)
    ensures c < |a| && UVal(RotLBy(a, c)) == RotLV(|a|, UVal(a), y)
  {
    QuotRem(y, |a|);
    RotLPeriod(a, y);
    RotLParts(a, c);
    RotLSteps(a, c);
  }

  lemma RotRByIs(a: Bits, y: nat, c: nat)
    requires |a| > 0 && c == Rem(y, |a|)
    ensures c < |a| && UVal(RotRBy(a, c)) == RotRV(|a|, UVal(a), y)
  {
    QuotRem(y, |a|);
    RotRPeriod(a, y);
    RotRParts(a, c);
    RotRSteps(a, c);
  }

  // ----- deposit and extract -----

  /** Bits of `x`, from the lowest up, go to the set positions of `m`. */
  method PdepBits(x: Bits, m: Bits) returns (out: Bits)
    requires |x| == |m|
    ensures |out| == |x| && UVal(out) == PdepV(UVal(x), UVal(m))
  {
    var w := |x|;
    out := Zeros(w);
    var k := 0;
    assert m[0..] == m && x[0..] == x;
    for i := 0 to w
      invariant |out| == w && k <= i
      invariant forall j :: i <= j < w ==> !out[j]
      invariant PdepV(UVal(x), UVal(m)) == UVal(out[..i]) + Shl(PdepV(UVal(x[k..]), UVal(m[i..])), i)
    {
      DepositNext(x, k, m, i);
      PlaceBit(out, i, m[i] && x[k]);
      assert !m[i] ==> out == out[i := false];
      if m[i] {
        out := out[i := x[k]];
        k := k + 1;
      }
    }
    assert m[w..] == [] && out[..w] == out;
    ShlOrder(0, 0, w);
  }

  /** Setting the bit above a prefix. */
  lemma PlaceBit(out: Bits, i: nat, x: bool)
    requires i < |out|
    ensures UVal(out[i := x][..i + 1]) == UVal(out[..i]) + if x then Pow2(i) else 0
  {
    var r := out[i := x];
    assert r[..i] == out[..i];
    UValTake(r, i);
    ShlOrder(0, 0, i);
  }

  lemma DepositNext(x: Bits, k: nat, m: Bits, i: nat)
    requires k < |x| && i < |m|
    ensures Shl(PdepV(UVal(x[k..]), UVal(m[i..])), i) ==
      (if m[i] && x[k] then Pow2(i) else 0) +
      Shl(PdepV(UVal(if m[i] then x[k + 1..] else x[k..]), UVal(m[i + 1..])), i + 1)
  {
    UValDrop(m, i);
    UValDrop(x, k);
    DepositStep(UVal(x[k..]), x[k], UVal(x[k + 1..]), UVal(m[i..]), m[i], UVal(m[i + 1..]), i);
  }

  /** One position of the mask. */
  lemma DepositStep(x: nat, x0: bool, rest: nat, mask: nat, m0: bool, m: nat, i: nat)
    requires x == Bit(x0) + 2 * rest && mask == Bit(m0) + 2 * m
    ensures Shl(PdepV(x, mask), i) ==
      (if m0 && x0 then Pow2(i) else 0) + Shl(PdepV(if m0 then rest else x, m), i + 1)
  {
    var p := PdepV(if m0 then rest else x, m);
    HalfParts(x, Bit(x0), rest);
    HalfParts(mask, Bit(m0), m);
    ShlDouble(p, i);
    ShlOrder(0, 0, i);
    ShlAdd(1, 2 * p, i);
  }

  /** Bits of `x` at the set positions of `m` are packed at the bottom. */
  method PextBits(x: Bits, m: Bits) returns (out: Bits)
    requires |x| == |m|
    ensures |out| == |x| && UVal(out) == PextV(UVal(x), UVal(m))
  {
    var w := |x|;
    out := Zeros(w);
    var k := 0;
    assert m[0..] == m && x[0..] == x;
    for i := 0 to w
      invariant |out| == w && k <= i
      invariant forall j :: k <= j < w ==> !out[j]
      invariant PextV(UVal(x), UVal(m)) == UVal(out[..k]) + Shl(PextV(UVal(x[i..]), UVal(m[i..])), k)
    {
      ExtractNext(x, m, i, k);
      if m[i] {
        PlaceBit(out, k, x[i]);
        out := out[k := x[i]];
        k := k + 1;
      }
    }
    assert m[w..] == [];
    ShlOrder(0, 0, k);
    TrailingZeroBits(out, k);
  }

  lemma ExtractNext(x: Bits, m: Bits, i: nat, k: nat)
    requires i < |x| == |m|
    ensures var rest := PextV(UVal(x[i + 1..]), UVal(m[i + 1..]));
      Shl(PextV(UVal(x[i..]), UVal(m[i..])), k) ==
        if m[i] then (if x[i] then Pow2(k) else 0) + Shl(rest, k + 1) else Shl(rest, k)
  {
    UValDrop(m, i);
    UValDrop(x, i);
    ExtractStep(UVal(x[i..]), x[i], UVal(x[i + 1..]), UVal(m[i..]), m[i], UVal(m[i + 1..]), k);
  }

  lemma ExtractStep(x: nat, x0: bool, rest: nat, mask: nat, m0: bool, m: nat, k: nat)
    requires x == Bit(x0) + 2 * rest && mask == Bit(m0) + 2 * m
    ensures Shl(PextV(x, mask), k) ==
      if m0 then (if x0 then Pow2(k) else 0) + Shl(PextV(rest, m), k + 1) else Shl(PextV(rest, m), k)
  {
    var p := PextV(rest, m);
    HalfParts(x, Bit(x0), rest);
    HalfParts(mask, Bit(m0), m);
    ShlDouble(p, k);
    ShlOrder(0, 0, k);
    ShlAdd(1, 2 * p, k);
  }

  lemma TrailingZeroBits(out: Bits, k: nat)
    requires k <= |out| && forall j :: k <= j < |out| ==> !out[j]
    ensures UVal(out) == UVal(out[..k])
  {
    UValSplit(out, k);
    assert out[k..] == Zeros(|out| - k);
    UValZeros(|out| - k);
    ShlOrder(0, 0, k);
  }

  /** Extracting what was deposited gives the low bits of `x`, one for each bit of the mask. */
  lemma {:induction false} ExtractDeposited(x: nat, m: nat)
    ensures PextV(PdepV(x, m), m) == LowBits(x, Popcount(m))
    decreases m
  {
    if m > 0 {
      if Odd(m) { ExtractDeposited(x / 2, m / 2); } else { ExtractDeposited(x, m / 2); }
    }
  }

  /** Depositing what was extracted masks `x`. */
  lemma {:induction false} DepositExtracted(w: nat, x: nat, m: nat)
    requires m < Pow2(w)
    ensures PdepV(PextV(x, m), m) == Gated(And, w, x, m)
  {
    if m == 0 {
      AndZero(w, x);
    } else {
      DepositExtracted(w - 1, x / 2, m / 2);
      if Odd(m) { DepositOdd(x % 2, PextV(x / 2, m / 2), m); }
    }
  }

  lemma DepositOdd(bit: nat, e: nat, m: nat)
    requires Odd(m) && bit < 2
    ensures PdepV(bit + 2 * e, m) == bit + 2 * PdepV(e, m / 2)
  {
    assert (bit + 2 * e) / 2 == e && (bit + 2 * e) % 2 == bit;
  }

  lemma {:induction false} AndZero(w: nat, x: nat)
    ensures Gated(And, w, x, 0) == 0
  {
    if w > 0 { AndZero(w - 1, x / 2); }
  }

  // ----- counts -----

  /** A count as a bit vector, into which it must fit. */
  function CountToBits(w: nat, count: nat): (r: Bits)
    requires count < Pow2(w)
    ensures |r| == w
  {
    seq(w, i requires 0 <= i < w => TestBit(count, i))
  }

  lemma {:induction false} CountToBitsIs(w: nat, count: nat)
    requires count < Pow2(w)
    ensures UVal(CountToBits(w, count)) == count
  {
    var r := CountToBits(w, count);
    if w > 0 {
      CountToBitsIs(w - 1, count / 2);
      assert r[1..] == CountToBits(w - 1, count / 2);
      assert r[0] == TestBit(count, 0);
    }
  }

  function CountTrue(a: Bits): (r: nat)
    ensures r <= |a|
  {
    if |a| == 0 then 0 else Bit(a[0]) + CountTrue(a[1..])
  }

  /** The length of the run of zeros at the most significant end. */
  function LeadingRun(a: Bits): (r: nat)
    ensures r <= |a|
  {
    if |a| == 0 || a[|a| - 1] then 0 else 1 + LeadingRun(a[..|a| - 1])
  }

  /** The length of the run of zeros at the least significant end. */
  function TrailingRun(a: Bits): (r: nat)
    ensures r <= |a|
  {
    if |a| == 0 || a[0] then 0 else 1 + TrailingRun(a[1..])
  }

  lemma {:induction false} CountTrueIs(a: Bits)
    ensures CountTrue(a) == Popcount(UVal(a))
  {
    if |a| > 0 {
      HalfOf(a);
      CountTrueIs(a[1..]);
    }
  }

  lemma {:induction false} LeadingRunIs(a: Bits)
    ensures LeadingRun(a) == |a| - BitLen(UVal(a))
  {
    if |a| > 0 {
      var w1 := |a| - 1;
      UValTake(a, w1);
      ShlOrder(0, 0, w1);
      assert a[..w1 + 1] == a;
      if a[w1] {
        UValBound(a[..w1]);
        BitLenIs(UVal(a), w1);
      } else {
        LeadingRunIs(a[..w1]);
      }
    }
  }

  lemma {:induction false} TrailingRunIs(a: Bits)
    ensures TrailingRun(a) == TrailingZeros(|a|, UVal(a))
  {
    if |a| > 0 {
      HalfOf(a);
      TrailingRunIs(a[1..]);
    }
  }

  // ----- reversals -----

  function BitRev(a: Bits): (r: Bits)
    ensures |r| == |a|
  {
    seq(|a|, i requires 0 <= i < |a| => a[|a| - 1 - i])
  }

  lemma {:induction false} BitRevIs(a: Bits)
    ensures UVal(BitRev(a)) == ReverseV(|a|, UVal(a))
  {
    if |a| > 0 {
      BitRevIs(a[1..]);
      HalfOf(a);
      assert BitRev(a) == BitRev(a[1..]) + [a[0]];
      UValAppend(BitRev(a[1..]), a[0]);
    }
  }

  /** The vector cut into bytes and put together again last byte first. */
  function ByteSwap(a: Bits): (r: Bits)
    requires |a| % 8 == 0
    ensures |r| == |a|
  {
    seq(|a|, i requires 0 <= i < |a| => a[(|a| / 8 - 1 - i / 8) * 8 + i % 8])
  }

  lemma ByteSwapParts(a: Bits)
    requires |a| % 8 == 0 && |a| > 0
    ensures ByteSwap(a) == ByteSwap(a[8..]) + a[..8]
  {
  }

  lemma {:induction false} ByteSwapIs(a: Bits)
    requires |a| % 8 == 0
    ensures UVal(ByteSwap(a)) == SwapV(|a| / 8, UVal(a))
    decreases |a|
  {
    if |a| > 0 {
      ByteSwapIs(a[8..]);
      ByteSwapParts(a);
      UValConcat(ByteSwap(a[8..]), a[..8]);
      UValSplit(a, 8);
    }
  }
}
