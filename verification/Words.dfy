/** Bit vectors, least-significant bit first, and the integers they denote. */
module Words {
  import opened Powers

  /** A fixed-width bit vector; its length is its width. */
  type Bits = seq<bool>

  function Bit(b: bool): nat { if b then 1 else 0 }

  /** The unsigned value. */
  function UVal(b: Bits): nat
  {
    if |b| == 0 then 0 else Bit(b[0]) + 2 * UVal(b[1..])
  }

  /** The two's-complement value; width zero does not occur in the source. */
  function SVal(b: Bits): int
  {
    if |b| > 0 && b[|b| - 1] then UVal(b) - Pow2(|b|) else UVal(b)
  }

  /** The `w` low bits of `n`, in two's complement. */
  function OfVal(w: nat, n: int): (b: Bits)
    ensures |b| == w
  {
    if w == 0 then [] else [n % 2 == 1] + OfVal(w - 1, n / 2)
  }

  function Zeros(w: nat): (b: Bits) ensures |b| == w { seq(w, i => false) }

  function Ones(w: nat): (b: Bits) ensures |b| == w { seq(w, i => true) }

  /** The integer in `[-2^(w-1), 2^(w-1))` congruent to the unsigned `n < 2^w`. */
  function Signed(w: nat, n: nat): int
  {
    if w > 0 && Pow2(w - 1) <= n then n - Pow2(w) else n
  }

  lemma {:induction false} UValBound(b: Bits)
    ensures UVal(b) < Pow2(|b|)
  {
    if |b| > 0 { UValBound(b[1..]); }
  }

  lemma {:induction false} UValConcat(a: Bits, b: Bits)
    ensures UVal(a + b) == UVal(a) + Shl(UVal(b), |a|)
  {
    if |a| == 0 {
      assert a + b == b;
    } else {
      assert (a + b)[1..] == a[1..] + b;
      UValConcat(a[1..], b);
    }
  }

  /** The value of a vector cut at position `k`. */
  lemma UValSplit(b: Bits, k: nat)
    requires k <= |b|
    ensures UVal(b) == UVal(b[..k]) + Shl(UVal(b[k..]), k)
    ensures UVal(b[..k]) == LowBits(UVal(b), k) && UVal(b[k..]) == Shr(UVal(b), k)
  {
    assert b == b[..k] + b[k..];
    UValConcat(b[..k], b[k..]);
    UValBound(b[..k]);
    CutUnique(UVal(b), UVal(b[k..]), UVal(b[..k]), k);
  }

  lemma UValAppend(a: Bits, x: bool)
    ensures UVal(a + [x]) == UVal(a) + Shl(Bit(x), |a|)
  {
    UValConcat(a, [x]);
    assert [x][1..] == [];
  }

  /** One more low bit, as the loops that walk up from the least significant bit see it. */
  lemma UValTake(b: Bits, k: nat)
    requires k < |b|
    ensures UVal(b[..k + 1]) == UVal(b[..k]) + Shl(Bit(b[k]), k)
  {
    assert b[..k + 1] == b[..k] + [b[k]];
    UValAppend(b[..k], b[k]);
  }

  /** One more bit below, as the loops that walk down from the most significant bit see it. */
  lemma UValDrop(b: Bits, k: nat)
    requires k < |b|
    ensures UVal(b[k..]) == Bit(b[k]) + 2 * UVal(b[k + 1..])
  {
    assert b[k..][1..] == b[k + 1..];
  }

  lemma {:induction false} UValZeros(w: nat)
    ensures UVal(Zeros(w)) == 0
  {
    if w > 0 {
      assert Zeros(w)[1..] == Zeros(w - 1);
      UValZeros(w - 1);
    }
  }

  lemma {:induction false} UValOnes(w: nat)
    ensures UVal(Ones(w)) == Pow2(w) - 1
  {
    if w > 0 {
      assert Ones(w)[1..] == Ones(w - 1);
      UValOnes(w - 1);
    }
  }

  lemma {:induction false} UValOfVal(w: nat, n: nat)
    ensures UVal(OfVal(w, n)) == LowBits(n, w)
  {
    if w > 0 {
      UValOfVal(w - 1, n / 2);
      assert OfVal(w, n)[1..] == OfVal(w - 1, n / 2);
    }
  }

  lemma {:induction false} OfValUVal(b: Bits)
    ensures OfVal(|b|, UVal(b)) == b
  {
    if |b| > 0 { OfValUVal(b[1..]); }
  }

  /** At a given width a vector is determined by its value. */
  lemma UValInjective(a: Bits, b: Bits)
    requires |a| == |b| && UVal(a) == UVal(b)
    ensures a == b
  {
    OfValUVal(a);
    OfValUVal(b);
  }

  /** The most significant bit says whether the value reaches `2^(w-1)`. */
  lemma MsbIs(b: Bits)
    requires |b| > 0
    ensures b[|b| - 1] <==> Pow2(|b| - 1) <= UVal(b)
    ensures SVal(b) == Signed(|b|, UVal(b))
    ensures 0 <= SVal(b) + Pow2(|b| - 1) < Pow2(|b|)
  {
    var w := |b|;
    assert b[..w] == b;
    UValTake(b, w - 1);
    ShlOrder(0, 0, w - 1);
    UValBound(b[..w - 1]);
    UValBound(b);
  }

  lemma HalfParts(n: nat, x: nat, t: nat)
    requires x < 2 && n == x + 2 * t
    ensures n % 2 == x && n / 2 == t
  {
  }

  /** The lowest bit and the rest. */
  lemma HalfOf(b: Bits)
    requires |b| > 0
    ensures UVal(b) % 2 == Bit(b[0]) && UVal(b) / 2 == UVal(b[1..])
  {
    HalfParts(UVal(b), Bit(b[0]), UVal(b[1..]));
  }

  /** Bit `i` of the value. */
  lemma BitAt(b: Bits, i: nat)
    requires i < |b|
    ensures b[i] <==> TestBit(UVal(b), i)
  {
    UValSplit(b, i);
    HalfOf(b[i..]);
  }
}
