/** What the bit-vector operators mean as operations on integers modulo `2^w`: the SMT-LIB theory
    FixedSizeBitVectors and its extensions here. Operands and results are unsigned values. */
module BvSpec {
  import opened Powers
  import opened Words
  import opened Nats
  import opened Modular
  import opened Bitwise

  // ----- arithmetic -----

  /** Division rounding toward zero. */
  function TruncDiv(a: int, b: int): int
    requires b != 0
  {
    var q := Quot(Magnitude(a), Magnitude(b));
    if (a < 0) == (b < 0) then q else 0 - q
  }

  /** The remainder of that division, with the sign of the dividend. */
  function TruncRem(a: int, b: int): int
    requires b != 0
  {
    var r := Rem(Magnitude(a), Magnitude(b));
    if a < 0 then 0 - r else r
  }

  function UDivV(w: nat, x: nat, y: nat): nat { if y == 0 then Pow2(w) - 1 else Quot(x, y) }

  function URemV(x: nat, y: nat): nat { if y == 0 then x else Rem(x, y) }

  function SDivV(w: nat, x: nat, y: nat): nat
  {
    var a, b := Signed(w, x), Signed(w, y);
    if b == 0 then Wrap(w, if a < 0 then 1 else -1) else Wrap(w, TruncDiv(a, b))
  }

  function SRemV(w: nat, x: nat, y: nat): nat
  {
    var a, b := Signed(w, x), Signed(w, y);
    if b == 0 then x else Wrap(w, TruncRem(a, b))
  }

  /** The high half of the product of two signed numbers. */
  function SMulHiV(w: nat, x: nat, y: nat): nat { Wrap(w, Sar(Signed(w, x) * Signed(w, y), w)) }

  function UMulHiV(w: nat, x: nat, y: nat): nat { Shr(x * y, w) }

  // ----- shifts and rotations, for every count -----

  function ShlV(w: nat, x: nat, y: nat): nat { LowBits(Shl(x, y), w) }

  function LShrV(x: nat, y: nat): nat { Shr(x, y) }

  /** The signed value divided by `2^y`, rounding down. */
  function AShrV(w: nat, x: nat, y: nat): nat { Wrap(w, Sar(Signed(w, x), y)) }

  /** One position toward the most significant bit, which reappears at the bottom. */
  function RotLOne(w: nat, x: nat): nat
    requires w > 0
  {
    2 * LowBits(x, w - 1) + Shr(x, w - 1)
  }

  function RotROne(w: nat, x: nat): nat
    requires w > 0
  {
    x / 2 + Shl(x % 2, w - 1)
  }

  /** `y` single rotations. */
  function RotLV(w: nat, x: nat, y: nat): nat
    requires w > 0
  {
    if y == 0 then x else RotLOne(w, RotLV(w, x, y - 1))
  }

  function RotRV(w: nat, x: nat, y: nat): nat
    requires w > 0
  {
    if y == 0 then x else RotROne(w, RotRV(w, x, y - 1))
  }

  // ----- bit gathering and counting -----

  /** Deposits the low bits of `x` at the set positions of `m`. */
  function PdepV(x: nat, m: nat): nat
  {
    if m == 0 then 0
    else if Odd(m) then x % 2 + 2 * PdepV(x / 2, m / 2)
    else 2 * PdepV(x, m / 2)
  }

  /** Collects the bits of `x` at the set positions of `m`. */
  function PextV(x: nat, m: nat): nat
  {
    if m == 0 then 0
    else if Odd(m) then x % 2 + 2 * PextV(x / 2, m / 2)
    else PextV(x / 2, m / 2)
  }

  function Popcount(x: nat): nat { if x == 0 then 0 else x % 2 + Popcount(x / 2) }

  /** The position of the lowest set bit, `w` for zero. */
  function TrailingZeros(w: nat, x: nat): nat
  {
    if w == 0 || Odd(x) then 0 else 1 + TrailingZeros(w - 1, x / 2)
  }

  function ReverseV(w: nat, x: nat): nat
  {
    if w == 0 then 0 else Shl(x % 2, w - 1) + ReverseV(w - 1, x / 2)
  }

  /** The bytes of an `8n`-bit number in reverse order. */
  function SwapV(n: nat, x: nat): nat
  {
    if n == 0 then 0 else Shl(LowBits(x, 8), 8 * (n - 1)) + SwapV(n - 1, Shr(x, 8))
  }

  // ----- laws -----

  lemma NegMul(a: int, b: int)
    ensures (0 - a) * b == 0 - a * b == a * (0 - b) && (0 - a) * (0 - b) == a * b
  {
  }

  /** Truncating division: the quotient and remainder recombine, the remainder is smaller than the
      divisor, and it is zero or has the dividend's sign. */
  lemma TruncDivLaw(a: int, b: int)
    requires b != 0
    ensures a == TruncDiv(a, b) * b + TruncRem(a, b)
    ensures Magnitude(TruncRem(a, b)) < Magnitude(b)
    ensures TruncRem(a, b) == 0 || (TruncRem(a, b) < 0 <==> a < 0)
  {
    QuotRem(Magnitude(a), Magnitude(b));
    NegMul(Quot(Magnitude(a), Magnitude(b)), b);
  }

  /** Signed quotient and remainder recombine modulo `2^w`, division by zero included. */
  lemma SDivRemRecombine(w: nat, x: nat, y: nat)
    requires w > 0 && x < Pow2(w) && y < Pow2(w)
    ensures Wrap(w, SDivV(w, x, y) * y + SRemV(w, x, y)) == x
  {
    if y == 0 {
      MulComm(SDivV(w, x, y), y);
      WrapSmall(w, x);
    } else {
      var a, b := Signed(w, x), Signed(w, y);
      SignedCongruent(w, x);
      SignedCongruent(w, y);
      TruncDivLaw(a, b);
      var q, r := TruncDiv(a, b), TruncRem(a, b);
      RecombineWrapped(w, q, r, b, y, q * b, Wrap(w, q) * y);
    }
  }

  lemma RecombineWrapped(w: nat, q: int, r: int, b: int, y: nat, qb: int, qy: int)
    requires Wrap(w, b) == y && qb == q * b && qy == Wrap(w, q) * y
    ensures Wrap(w, qy + Wrap(w, r)) == Wrap(w, qb + r)
  {
    WrapSmall(w, y);
    WrapIdem(w, q);
    WrapIdem(w, r);
    WrapProduct(w, Wrap(w, q), y, q, b);
    WrapSum(w, qy, Wrap(w, r), qb, r);
  }

  /** The smallest number divided by minus one is itself. */
  lemma SDivOverflow(w: nat)
    requires w > 0
    ensures SDivV(w, Pow2(w - 1), Pow2(w) - 1) == Pow2(w - 1)
    ensures SRemV(w, Pow2(w - 1), Pow2(w) - 1) == 0
  {
    var h: int := Pow2(w - 1);
    QuotRem(h, 1);
    if w == 1 { assert Pow2(1) == 2; }
    WrapSmall(w, h);
    WrapSmall(w, 0);
  }

  /** The two halves make the full product, of unsigned and of signed numbers. */
  lemma MulHiLaw(w: nat, x: nat, y: nat)
    requires w > 0 && x < Pow2(w) && y < Pow2(w)
    ensures Shl(UMulHiV(w, x, y), w) + Wrap(w, x * y) == x * y
    ensures Shl(Signed(w, SMulHiV(w, x, y)), w) + Wrap(w, x * y) == Signed(w, x) * Signed(w, y)
  {
    UnsignedHalves(w, x * y);
    SignedHalves(w, x, y, Signed(w, x) * Signed(w, y), x * y);
  }

  lemma UnsignedHalves(w: nat, p: nat)
    ensures Shl(Shr(p, w), w) + Wrap(w, p) == p
  {
    WrapNat(w, p);
    WrapParts(w, p);
  }

  lemma SignedHalves(w: nat, x: nat, y: nat, p: int, q: nat)
    requires w > 0 && x < Pow2(w) && y < Pow2(w) && p == Signed(w, x) * Signed(w, y) && q == x * y
    ensures Shl(Signed(w, Wrap(w, Sar(p, w))), w) + Wrap(w, q) == p
  {
    var a, b := Signed(w, x), Signed(w, y);
    SignedCongruent(w, x);
    SignedCongruent(w, y);
    WrapSmall(w, x);
    WrapSmall(w, y);
    WrapProduct(w, a, b, x, y);
    WrapParts(w, p);
    HighHalfRange(w, a, b, p);
    WrapSigned(w, Sar(p, w));
  }

  /** A signed high half fits in `w` bits. */
  lemma HighHalfRange(w: nat, a: int, b: int, p: int)
    requires w > 0 && 0 <= a + Pow2(w - 1) < Pow2(w) && 0 <= b + Pow2(w - 1) < Pow2(w) && p == a * b
    ensures 0 <= Sar(p, w) + Pow2(w - 1) < Pow2(w)
  {
    var h: int := Pow2(w - 1);
    ProductRange(a, b, h, p);
    TwiceSquare(h, Pow2(w));
    ShlIs(h, w);
    ShlIs(-h, w);
    WrapParts(w, p);
    ShlOrder(Sar(p, w), h, w);
    ShlOrder(Sar(p, w), -h, w);
  }

  lemma TwiceSquare(h: int, d: int)
    requires d == 2 * h
    ensures h * d == 2 * (h * h) && (-h) * d == -(2 * (h * h)) && h * h >= 0
    ensures h > 0 ==> h * h > 0
  {
  }

  lemma ProductRange(a: int, b: int, h: int, p: int)
    requires -h <= a <= h && -h <= b <= h && p == a * b
    ensures -(h * h) <= p <= h * h
  {
    if b >= 0 {
      MulLe(a, h, b);
      MulLe(-h, a, b);
      MulLe(b, h, h);
      MulComm(h, b);
      NegMul(h, b);
    } else {
      NegMul(a, -b);
      MulLe(a, h, -b);
      MulLe(-h, a, -b);
      MulLe(-b, h, h);
      MulComm(h, -b);
      NegMul(h, -b);
    }
  }

  // ----- the operators bit by bit -----

  /** A dividend comes back from a zero divisor with an all-ones quotient; signed division gives minus
      one for it, or one when the dividend is negative. */
  lemma ZeroDivisor(w: nat, x: nat)
    requires w > 0 && x < Pow2(w)
    ensures UDivV(w, x, 0) == Pow2(w) - 1 && URemV(x, 0) == x && SRemV(w, x, 0) == x
    ensures SDivV(w, x, 0) == if x < Pow2(w - 1) then Pow2(w) - 1 else 1
  {
    Pow2Mono(1, w);
    WrapSmall(w, 1);
    ShlAdd(-1, 1, w);
    ShlOrder(0, 0, w);
    WrapUnique(w, -1, -1, Pow2(w) - 1);
  }

  /** The lowest set bit, and the width when there is none. */
  lemma {:induction false} TrailingZerosIs(w: nat, x: nat)
    ensures var t := TrailingZeros(w, x);
      t <= w && (t < w ==> TestBit(x, t)) && forall i :: 0 <= i < t ==> !TestBit(x, i)
  {
    if w > 0 && !Odd(x) {
      TrailingZerosIs(w - 1, x / 2);
      forall i | 0 <= i < TrailingZeros(w, x) ensures !TestBit(x, i) {
        if i > 0 { assert !TestBit(x / 2, i - 1); }
      }
    }
  }

  /** A bit put on top. */
  lemma {:induction false} TopAdded(b: nat, r: nat, k: nat, i: nat)
    requires b < 2 && r < Pow2(k) && i <= k
    ensures TestBit(Shl(b, k) + r, i) <==> if i == k then b == 1 else TestBit(r, i)
    ensures Popcount(Shl(b, k) + r) == b + Popcount(r)
    ensures Shl(b, k) + r < Pow2(k + 1)
  {
    if k > 0 {
      HalfParts(Shl(b, k) + r, r % 2, Shl(b, k - 1) + r / 2);
      TopAdded(b, r / 2, k - 1, if i > 0 then i - 1 else 0);
    }
  }

  /** Bit `i` of the reversal is bit `w - 1 - i` of the number. */
  lemma {:induction false} ReverseBit(w: nat, x: nat, i: nat)
    requires i < w
    ensures ReverseV(w, x) < Pow2(w) && (TestBit(ReverseV(w, x), i) <==> TestBit(x, w - 1 - i))
  {
    ReverseBound(w - 1, x / 2);
    TopAdded(x % 2, ReverseV(w - 1, x / 2), w - 1, i);
    if i < w - 1 { ReverseBit(w - 1, x / 2, i); }
  }

  lemma {:induction false} ReverseBound(w: nat, x: nat)
    ensures ReverseV(w, x) < Pow2(w)
  {
    if w > 0 {
      ReverseBound(w - 1, x / 2);
      TopAdded(x % 2, ReverseV(w - 1, x / 2), w - 1, 0);
    }
  }

  /** The positions below `w` at which `x` has a set bit. */
  function SetBits(w: nat, x: nat): set<nat> { set i | 0 <= i < w && TestBit(x, i) }

  /** The population count is the number of set bits. */
  lemma {:induction false} PopcountIs(w: nat, x: nat)
    requires x < Pow2(w)
    ensures Popcount(x) == |SetBits(w, x)|
  {
    if w > 0 {
      var b, r := Shr(x, w - 1), LowBits(x, w - 1);
      ShrLow(x, w - 1);
      TopBit(x, w - 1);
      PopcountIs(w - 1, r);
      TopAdded(b, r, w - 1, 0);
      SetBitsTop(b, r, w - 1, x, w);
    } else {
      assert SetBits(w, x) == {};
    }
  }

  lemma SetBitsTop(b: nat, r: nat, k: nat, x: nat, w: nat)
    requires b < 2 && r < Pow2(k) && x == Shl(b, k) + r && w == k + 1
    ensures |SetBits(w, x)| == b + |SetBits(k, r)|
  {
    forall i | 0 <= i < w ensures TestBit(x, i) <==> if i == k then b == 1 else TestBit(r, i) {
      TopAdded(b, r, k, i);
    }
    assert SetBits(w, x) == SetBits(k, r) + if b == 1 then {k} else {};
  }

  lemma {:induction false} LowBitsBit(x: nat, k: nat, i: nat)
    requires i < k
    ensures TestBit(LowBits(x, k), i) <==> TestBit(x, i)
  {
    HalfParts(LowBits(x, k), x % 2, LowBits(x / 2, k - 1));
    if i > 0 { LowBitsBit(x / 2, k - 1, i - 1); }
  }

  /** One rotation moves every bit up by one position and the top bit to the bottom... */
  lemma RotLOneBit(w: nat, x: nat, i: nat)
    requires i < w && x < Pow2(w)
    ensures TestBit(RotLOne(w, x), i) <==> TestBit(x, if i == 0 then w - 1 else i - 1)
  {
    TopBit(x, w - 1);
    HalfParts(RotLOne(w, x), Shr(x, w - 1), LowBits(x, w - 1));
    if i > 0 { LowBitsBit(x, w - 1, i - 1); }
  }

  /** ... or down, and the bottom bit to the top. */
  lemma RotROneBit(w: nat, x: nat, i: nat)
    requires i < w && x < Pow2(w)
    ensures TestBit(RotROne(w, x), i) <==> TestBit(x, if i == w - 1 then 0 else i + 1)
  {
    TopAdded(x % 2, x / 2, w - 1, i);
  }

  /** Bit `i` of a deposit is the bit of `x` numbered by the mask bits below `i`, or clear outside the
      mask. */
  lemma {:induction false} PdepBit(x: nat, m: nat, i: nat)
    ensures TestBit(PdepV(x, m), i) <==> TestBit(m, i) && TestBit(x, Popcount(LowBits(m, i)))
    decreases i
  {
    if m == 0 {
      ShrOfZero(i);
    } else if Odd(m) {
      HalfParts(PdepV(x, m), x % 2, PdepV(x / 2, m / 2));
      if i > 0 {
        PdepBit(x / 2, m / 2, i - 1);
        HalfParts(LowBits(m, i), 1, LowBits(m / 2, i - 1));
      }
    } else if i > 0 {
      PdepBit(x, m / 2, i - 1);
      HalfParts(LowBits(m, i), 0, LowBits(m / 2, i - 1));
    }
  }

  lemma {:induction false} ShrOfZero(i: nat)
    ensures !TestBit(0, i)
  {
    if i > 0 { ShrOfZero(i - 1); }
  }

  /** Bit `i` of `x`, if the mask has it, is extracted to the position numbered by the mask bits below
      `i`, and nothing lies above the number of mask bits. */
  lemma {:induction false} PextBit(x: nat, m: nat, i: nat)
    requires TestBit(m, i)
    ensures TestBit(PextV(x, m), Popcount(LowBits(m, i))) <==> TestBit(x, i)
    ensures PextV(x, m) < Pow2(Popcount(m))
    decreases i
  {
    PextBound(x, m);
    if m == 0 {
      ShrOfZero(i);
    } else if Odd(m) {
      HalfParts(PextV(x, m), x % 2, PextV(x / 2, m / 2));
      if i > 0 {
        PextBit(x / 2, m / 2, i - 1);
        HalfParts(LowBits(m, i), 1, LowBits(m / 2, i - 1));
      }
    } else if i > 0 {
      PextBit(x / 2, m / 2, i - 1);
      HalfParts(LowBits(m, i), 0, LowBits(m / 2, i - 1));
    }
  }

  lemma {:induction false} PextBound(x: nat, m: nat)
    ensures PextV(x, m) < Pow2(Popcount(m))
    decreases m
  {
    if m > 0 { PextBound(x / 2, m / 2); }
  }

  /** Byte `k` of a number. */
  function ByteOf(x: nat, k: nat): nat { LowBits(Shr(x, 8 * k), 8) }

  /** Byte `k` of the swap is byte `n - 1 - k` of the number. */
  lemma {:induction false} SwapByte(n: nat, x: nat, k: nat)
    requires k < n
    ensures SwapV(n, x) < Pow2(8 * n) && ByteOf(SwapV(n, x), k) == ByteOf(x, n - 1 - k)
  {
    SwapBound(n, x);
    SwapBound(n - 1, Shr(x, 8));
    ShrLow(x, 8);
    TopByte(LowBits(x, 8), SwapV(n - 1, Shr(x, 8)), 8 * (n - 1), 8 * k, 8 * n);
    if k < n - 1 {
      SwapByte(n - 1, Shr(x, 8), k);
      LaterByte(x, n - 2 - k, n - 1 - k);
    }
  }

  lemma LaterByte(x: nat, i: nat, j: nat)
    requires j == i + 1
    ensures ByteOf(Shr(x, 8), i) == ByteOf(x, j)
  {
    ShrShr(x, 8, 8 * i);
  }

  lemma {:induction false} SwapBound(n: nat, x: nat)
    ensures SwapV(n, x) < Pow2(8 * n)
  {
    if n > 0 {
      SwapBound(n - 1, Shr(x, 8));
      ShrLow(x, 8);
      TopByte(LowBits(x, 8), SwapV(n - 1, Shr(x, 8)), 8 * (n - 1), 8 * (n - 1), 8 * n);
    }
  }

  /** A byte put on top leaves the bytes below. */
  lemma TopByte(b: nat, r: nat, m: nat, j: nat, w: nat)
    requires b < Pow2(8) && r < Pow2(m) && j <= m && w == m + 8
    ensures Shl(b, m) + r < Pow2(w)
    ensures j == m ==> LowBits(Shr(Shl(b, m) + r, j), 8) == b
    ensures j + 8 <= m ==> LowBits(Shr(Shl(b, m) + r, j), 8) == LowBits(Shr(r, j), 8)
  {
    var n := Shl(b, m) + r;
    CutUnique(n, b, r, m);
    ShlOrder(b, Pow2(8), m);
    ShlPow2(8, m);
    LowBitsSmall(b, 8);
    if j + 8 <= m { BelowTop(b, r, m, j, m - j); }
  }

  lemma BelowTop(b: nat, r: nat, m: nat, j: nat, d: nat)
    requires r < Pow2(m) && d + j == m && d >= 8
    ensures LowBits(Shr(Shl(b, m) + r, j), 8) == LowBits(Shr(r, j), 8)
  {
    ShiftUnder(b, r, d, j, m);
    ShiftUnder(b, Shr(r, j), d - 8, 8, d);
  }

  /** Cutting at bit `j` below a shifted number. */
  lemma ShiftUnder(b: nat, r: nat, d: nat, j: nat, m: nat)
    requires m == d + j
    ensures Shr(Shl(b, m) + r, j) == Shl(b, d) + Shr(r, j) && LowBits(Shl(b, m) + r, j) == LowBits(r, j)
  {
    ShrLow(r, j);
    ShlShl(b, d, j);
    ShlAdd(Shl(b, d), Shr(r, j), j);
    CutUnique(Shl(b, m) + r, Shl(b, d) + Shr(r, j), LowBits(r, j), j);
  }
}
