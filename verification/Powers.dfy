/** Powers of two, bit lengths, and the facts about products, quotients and remainders the
    rest of the project rests on. */
module Powers {

  // ----- naturals -----

  function Pow2(n: nat): (r: nat)
    ensures r >= 1
  {
    if n == 0 then 1 else 2 * Pow2(n - 1)
  }

  lemma {:induction false} Pow2Add(a: nat, b: nat)
    ensures Pow2(a + b) == Pow2(a) * Pow2(b)
  {
    if a > 0 {
      Pow2Add(a - 1, b);
      MulAssoc(2, Pow2(a - 1), Pow2(b));
    }
  }

  lemma {:induction false} Pow2Mono(a: nat, b: nat)
    requires a <= b
    ensures Pow2(a) <= Pow2(b)
    ensures a < b ==> 2 * Pow2(a) <= Pow2(b)
    decreases b
  {
    if a < b { Pow2Mono(a, b - 1); }
  }

  lemma {:induction false} Pow2Above(n: nat)
    ensures n < Pow2(n)
  {
    if n > 0 { Pow2Above(n - 1); }
  }

  // ----- products and quotients -----

  lemma MulAssoc(a: int, b: int, c: int)
    ensures a * b * c == a * (b * c)
  {
  }

  lemma MulComm(a: int, b: int)
    ensures a * b == b * a
  {
  }

  lemma MulAdd(a: int, b: int, c: int)
    ensures (a + b) * c == a * c + b * c
  {
  }

  lemma MulLe(a: int, b: int, c: int)
    requires a <= b && 0 <= c
    ensures a * c <= b * c
  {
  }

  lemma SquareMono(a: nat, b: nat)
    requires a <= b
    ensures a * a <= b * b
  {
    MulLe(a, b, a);
    MulLe(a, b, b);
  }

  lemma MulLt(a: int, b: int, c: int)
    requires a < b && 0 < c
    ensures a * c < b * c
  {
  }

  /** Quotient and remainder are the only pair with a remainder in range. */
  lemma DivModUnique(x: int, d: int, q: int, r: int)
    requires 0 <= r < d && x == q * d + r
    ensures x / d == q && x % d == r
  {
    var q', r' := x / d, x % d;
    assert x == d * q' + r';
    assert (q - q') * d == r' - r;
    if q > q' { MulLe(1, q - q', d); }
    if q < q' { MulLe(q - q', -1, d); }
  }

  // ----- shifts, one bit at a time -----

  /** `a * 2^k`. */
  function Shl(a: int, k: nat): (r: int)
    ensures a >= 0 ==> r >= a
  {
    if k == 0 then a else 2 * Shl(a, k - 1)
  }

  /** `floor(n / 2^k)`. */
  function Shr(n: nat, k: nat): nat
  {
    if k == 0 then n else Shr(n / 2, k - 1)
  }

  /** `n mod 2^k`. */
  function LowBits(n: nat, k: nat): nat
  {
    if k == 0 then 0 else n % 2 + 2 * LowBits(n / 2, k - 1)
  }

  /** Bit `i` of `n`. */
  predicate TestBit(n: nat, i: nat) { Shr(n, i) % 2 == 1 }

  lemma {:induction false} ShlAdd(a: int, b: int, k: nat)
    ensures Shl(a + b, k) == Shl(a, k) + Shl(b, k)
  {
    if k > 0 { ShlAdd(a, b, k - 1); }
  }

  lemma ShlDouble(a: int, k: nat)
    ensures Shl(a, k + 1) == Shl(2 * a, k) == 2 * Shl(a, k)
  {
    ShlAdd(a, a, k);
  }

  /** A shift keeps the order, and leaves room for `2^k - 1` between neighbours. */
  lemma ShlOrder(a: int, b: int, k: nat)
    ensures Shl(0, k) == 0 && Shl(1, k) == Pow2(k)
    ensures a < b <==> Shl(a, k) < Shl(b, k)
    ensures a == b <==> Shl(a, k) == Shl(b, k)
    ensures a < b ==> Shl(a, k) + Pow2(k) <= Shl(b, k)
  {
    ShlOne(k);
    ShlAdd(0, 0, k);
    ShlAdd(a, b - a, k);
    ShlAdd(b, a - b, k);
    if a < b { ShlAdd(b - a - 1, 1, k); }
    if b < a { ShlAdd(a - b - 1, 1, k); }
  }

  lemma {:induction false} ShlOne(k: nat)
    ensures Shl(1, k) == Pow2(k)
  {
    if k > 0 { ShlOne(k - 1); }
  }

  lemma {:induction false} ShlPow2(i: nat, k: nat)
    ensures Shl(Pow2(i), k) == Pow2(i + k)
  {
    if k > 0 { ShlPow2(i, k - 1); }
  }

  lemma {:induction false} ShlShl(a: int, i: nat, j: nat)
    ensures Shl(Shl(a, i), j) == Shl(a, i + j)
  {
    if j > 0 { ShlShl(a, i, j - 1); }
  }

  lemma {:induction false} ShlMul(a: int, b: int, k: nat)
    ensures Shl(a * b, k) == a * Shl(b, k) == Shl(a, k) * b
  {
    if k > 0 {
      ShlMul(a, b, k - 1);
      MulDouble(a, Shl(b, k - 1));
      MulDouble(Shl(a, k - 1), b);
    }
  }

  lemma MulDouble(a: int, b: int)
    ensures (2 * a) * b == 2 * (a * b) == a * (2 * b)
  {
  }

  lemma ShlIs(a: int, k: nat)
    ensures Shl(a, k) == a * Pow2(k)
  {
    ShlMul(a, 1, k);
    ShlOne(k);
  }

  /** The two parts of a number cut at bit `k`. */
  lemma {:induction false} ShrLow(n: nat, k: nat)
    ensures n == Shl(Shr(n, k), k) + LowBits(n, k)
    ensures LowBits(n, k) < Pow2(k)
  {
    if k > 0 {
      ShrLow(n / 2, k - 1);
      ShlDouble(Shr(n / 2, k - 1), k - 1);
    }
  }

  /** Any split into a multiple of `2^k` and a smaller rest is that one. */
  lemma {:induction false} CutUnique(n: nat, hi: nat, lo: nat, k: nat)
    requires lo < Pow2(k) && n == Shl(hi, k) + lo
    ensures Shr(n, k) == hi && LowBits(n, k) == lo
  {
    if k > 0 { CutUnique(n / 2, hi, lo / 2, k - 1); }
  }

  lemma ShrIs(n: nat, k: nat)
    ensures Shr(n, k) == n / Pow2(k) && LowBits(n, k) == n % Pow2(k)
  {
    ShrLow(n, k);
    ShlIs(Shr(n, k), k);
    DivModUnique(n, Pow2(k), Shr(n, k), LowBits(n, k));
  }

  lemma ShrBelow(n: nat, k: nat, b: nat)
    ensures n < Shl(b, k) <==> Shr(n, k) < b
  {
    ShrLow(n, k);
    ShlOrder(Shr(n, k), b, k);
  }

  /** Below `2^(k+1)` only bit `k` is left above `2^k`. */
  lemma TopBit(n: nat, k: nat)
    ensures n < Pow2(k + 1) <==> Shr(n, k) < 2
  {
    ShlDouble(1, k);
    ShlOne(k);
    ShrBelow(n, k, 2);
  }

  lemma {:induction false} ShrShr(n: nat, i: nat, j: nat)
    ensures Shr(Shr(n, i), j) == Shr(n, i + j)
  {
    if i > 0 { ShrShr(n / 2, i - 1, j); }
  }

  lemma LowBitsSmall(n: nat, k: nat)
    requires n < Pow2(k)
    ensures LowBits(n, k) == n && Shr(n, k) == 0
  {
    ShlOrder(0, 0, k);
    CutUnique(n, 0, n, k);
  }

  // ----- bit length -----

  /** The number of significant bits: 0 for 0, otherwise one more than floor(log2 n). */
  function BitLen(n: nat): nat
  {
    if n == 0 then 0 else 1 + BitLen(n / 2)
  }

  lemma {:induction false} BitLenBounds(n: nat)
    requires n > 0
    ensures BitLen(n) >= 1
    ensures Pow2(BitLen(n) - 1) <= n < Pow2(BitLen(n))
  {
    if n > 1 { BitLenBounds(n / 2); }
  }

  lemma BitLenIs(n: nat, k: nat)
    requires Pow2(k) <= n < Pow2(k + 1)
    ensures BitLen(n) == k + 1
  {
    BitLenBounds(n);
    if BitLen(n) <= k { Pow2Mono(BitLen(n), k); }
    if BitLen(n) > k + 1 { Pow2Mono(k + 1, BitLen(n) - 1); }
  }

  lemma BitLenAtMost(n: nat, k: nat)
    ensures n < Pow2(k) <==> BitLen(n) <= k
  {
    if n > 0 {
      BitLenBounds(n);
      if BitLen(n) <= k { Pow2Mono(BitLen(n), k); } else { Pow2Mono(k, BitLen(n) - 1); }
    }
  }

  lemma {:induction false} BitLenShl(c: nat, k: nat)
    requires c > 0
    ensures BitLen(Shl(c, k)) == BitLen(c) + k
  {
    if k > 0 { BitLenShl(c, k - 1); }
  }
}
