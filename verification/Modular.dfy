/** Integers modulo `2^w`, one bit at a time. */
module Modular {
  import opened Powers
  import opened Words

  /** `n mod 2^w`. */
  function Wrap(w: nat, n: int): (r: nat)
    ensures r < Pow2(w)
  {
    if w == 0 then 0 else n % 2 + 2 * Wrap(w - 1, n / 2)
  }

  /** `floor(n / 2^k)`, of negative numbers too. */
  function Sar(n: int, k: nat): int
    decreases k
  {
    if k == 0 then n else Sar(n / 2, k - 1)
  }

  lemma {:induction false} WrapParts(w: nat, n: int)
    ensures n == Shl(Sar(n, w), w) + Wrap(w, n)
  {
    if w > 0 {
      WrapParts(w - 1, n / 2);
      ShlDouble(Sar(n / 2, w - 1), w - 1);
    }
  }

  /** `Wrap` and `Sar` are the remainder and quotient of division by `2^w`. */
  lemma WrapIs(w: nat, n: int)
    ensures Wrap(w, n) == n % Pow2(w) && Sar(n, w) == n / Pow2(w)
  {
    WrapParts(w, n);
    ShlIs(Sar(n, w), w);
    DivModUnique(n, Pow2(w), Sar(n, w), Wrap(w, n));
  }

  /** Any split into a multiple of `2^w` and a rest in range is that one. */
  lemma {:induction false} WrapUnique(w: nat, n: int, hi: int, lo: nat)
    requires lo < Pow2(w) && n == Shl(hi, w) + lo
    ensures Wrap(w, n) == lo && Sar(n, w) == hi
  {
    if w > 0 { WrapUnique(w - 1, n / 2, hi, lo / 2); }
  }

  lemma {:induction false} WrapNat(w: nat, n: nat)
    ensures Wrap(w, n) == LowBits(n, w) && Sar(n, w) == Shr(n, w)
  {
    if w > 0 { WrapNat(w - 1, n / 2); }
  }

  lemma WrapSmall(w: nat, n: int)
    requires 0 <= n < Pow2(w)
    ensures Wrap(w, n) == n && Sar(n, w) == 0
  {
    ShlOrder(0, 0, w);
    WrapUnique(w, n, 0, n);
  }

  /** Multiples of `2^w` vanish. */
  lemma {:induction false} WrapShift(w: nat, n: int, k: int)
    ensures Wrap(w, n + Shl(k, w)) == Wrap(w, n)
  {
    if w > 0 {
      WrapShift(w - 1, n / 2, k);
      HalfShift(n, Shl(k, w - 1));
    }
  }

  lemma HalfShift(n: int, s: int)
    ensures (n + 2 * s) % 2 == n % 2 && (n + 2 * s) / 2 == n / 2 + s
  {
  }

  /** Numbers with the same remainder differ by a multiple of `2^w`. */
  lemma WrapDifference(w: nat, a: int, c: int) returns (i: int)
    requires Wrap(w, a) == Wrap(w, c)
    ensures a == c + Shl(i, w)
  {
    WrapParts(w, a);
    WrapParts(w, c);
    i := Sar(a, w) - Sar(c, w);
    ShlAdd(Sar(c, w), i, w);
  }

  lemma WrapSum(w: nat, a: int, b: int, c: int, d: int)
    requires Wrap(w, a) == Wrap(w, c) && Wrap(w, b) == Wrap(w, d)
    ensures Wrap(w, a + b) == Wrap(w, c + d)
  {
    var i := WrapDifference(w, a, c);
    var j := WrapDifference(w, b, d);
    WrapShift(w, c + b, i);
    WrapShift(w, c + d, j);
  }

  lemma WrapMinus(w: nat, a: int, b: int, c: int, d: int)
    requires Wrap(w, a) == Wrap(w, c) && Wrap(w, b) == Wrap(w, d)
    ensures Wrap(w, a - b) == Wrap(w, c - d)
  {
    var i := WrapDifference(w, a, c);
    var j := WrapDifference(w, b, d);
    WrapShift(w, c - b, i);
    WrapShift(w, c - b, j);
  }

  lemma WrapFactor(w: nat, a: int, c: int, b: int)
    requires Wrap(w, a) == Wrap(w, c)
    ensures Wrap(w, a * b) == Wrap(w, c * b)
  {
    var i := WrapDifference(w, a, c);
    MulAdd(c, Shl(i, w), b);
    ShlMul(i, b, w);
    WrapShift(w, c * b, i * b);
  }

  lemma WrapProduct(w: nat, a: int, b: int, c: int, d: int)
    requires Wrap(w, a) == Wrap(w, c) && Wrap(w, b) == Wrap(w, d)
    ensures Wrap(w, a * b) == Wrap(w, c * d)
  {
    WrapFactor(w, a, c, b);
    WrapFactor(w, b, d, c);
    MulComm(b, c);
    MulComm(d, c);
  }

  lemma WrapIdem(w: nat, n: int)
    ensures Wrap(w, Wrap(w, n)) == Wrap(w, n)
  {
    WrapSmall(w, Wrap(w, n));
  }

  /** Signed and unsigned values agree modulo `2^w`. */
  lemma SignedCongruent(w: nat, x: nat)
    requires w > 0 && x < Pow2(w)
    ensures Wrap(w, Signed(w, x)) == x
    ensures 0 <= Signed(w, x) + Pow2(w - 1) < Pow2(w)
  {
    ShlOrder(0, 0, w);
    ShlAdd(-1, 1, w);
    WrapUnique(w, Signed(w, x), if Pow2(w - 1) <= x then -1 else 0, x);
  }

  lemma WrapSigned(w: nat, n: int)
    requires w > 0 && 0 <= n + Pow2(w - 1) < Pow2(w)
    ensures Wrap(w, n) == if n < 0 then n + Pow2(w) else n
    ensures Signed(w, Wrap(w, n)) == n
  {
    ShlOrder(0, 0, w);
    ShlAdd(-1, 1, w);
    WrapUnique(w, n, if n < 0 then -1 else 0, if n < 0 then n + Pow2(w) else n);
  }
}
