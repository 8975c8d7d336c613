/** The real numbers `n * 2^k` for integers `n` and `k`, defined by doubling and halving so that
    reasoning about them needs no nonlinear real arithmetic. */
module Dyadics {
  import opened Powers

  /** `n * 2^k`. */
  function Dyadic(n: int, k: int): real
    decreases if k < 0 then -k else k
  {
    if k == 0 then n as real
    else if k > 0 then Dyadic(2 * n, k - 1)
    else Dyadic(n, k + 1) / 2.0
  }

  lemma {:induction false} DyadicAdd(a: int, b: int, k: int)
    ensures Dyadic(a + b, k) == Dyadic(a, k) + Dyadic(b, k)
    decreases if k < 0 then -k else k
  {
    if k > 0 {
      DyadicAdd(2 * a, 2 * b, k - 1);
      assert 2 * (a + b) == 2 * a + 2 * b;
    } else if k < 0 {
      DyadicAdd(a, b, k + 1);
    }
  }

  lemma DyadicNeg(a: int, k: int)
    ensures Dyadic(0, k) == 0.0
    ensures Dyadic(-a, k) == -Dyadic(a, k)
  {
    DyadicAdd(0, 0, k);
    DyadicAdd(a, -a, k);
  }

  lemma {:induction false} DyadicPositive(a: int, k: int)
    requires a > 0
    ensures Dyadic(a, k) > 0.0
    decreases if k < 0 then -k else k
  {
    if k > 0 { DyadicPositive(2 * a, k - 1); } else if k < 0 { DyadicPositive(a, k + 1); }
  }

  /** At a common exponent dyadics are ordered as their significands. */
  lemma DyadicOrder(a: int, b: int, k: int)
    ensures a < b <==> Dyadic(a, k) < Dyadic(b, k)
    ensures a == b <==> Dyadic(a, k) == Dyadic(b, k)
  {
    DyadicNeg(0, k);
    DyadicAdd(a, b - a, k);
    DyadicNeg(b - a, k);
    if a < b { DyadicPositive(b - a, k); }
    if b < a { DyadicPositive(a - b, k); DyadicNeg(a - b, k); }
  }

  lemma DyadicDouble(a: int, k: int)
    ensures Dyadic(2 * a, k) == Dyadic(a, k + 1) == 2.0 * Dyadic(a, k)
  {
    DyadicAdd(a, a, k);
  }

  /** A dyadic written at a smaller exponent. */
  lemma {:induction false} DyadicShl(a: int, k: nat, j: int)
    ensures Dyadic(Shl(a, k), j) == Dyadic(a, j + k)
  {
    if k > 0 {
      DyadicShl(a, k - 1, j);
      DyadicDouble(Shl(a, k - 1), j);
      DyadicDouble(a, j + k - 1);
    }
  }

  /** Comparison of dyadics by integers at any common exponent. */
  lemma DyadicCompare(a: int, x: int, b: int, y: int, s: int)
    requires s <= x && s <= y
    ensures Dyadic(a, x) < Dyadic(b, y) <==> Shl(a, x - s) < Shl(b, y - s)
    ensures Dyadic(a, x) == Dyadic(b, y) <==> Shl(a, x - s) == Shl(b, y - s)
  {
    DyadicShl(a, x - s, s);
    DyadicShl(b, y - s, s);
    DyadicOrder(Shl(a, x - s), Shl(b, y - s), s);
  }

  lemma {:induction false} DyadicTimes(a: int, k: int, n: int)
    ensures Dyadic(a, k) * n as real == Dyadic(a * n, k)
    decreases if k < 0 then -k else k
  {
    if k == 0 {
      RealMul(a, n);
    } else if k > 0 {
      DyadicTimes(2 * a, k - 1, n);
      assert 2 * a * n == 2 * (a * n);
    } else {
      DyadicTimes(a, k + 1, n);
      HalfTimes(Dyadic(a, k + 1), n as real);
    }
  }

  lemma {:induction false} DyadicMul(a: int, x: int, b: int, y: int)
    ensures Dyadic(a, x) * Dyadic(b, y) == Dyadic(a * b, x + y)
    decreases if x < 0 then -x else x
  {
    if x == 0 {
      DyadicTimes(b, y, a);
      MulComm(a, b);
    } else if x > 0 {
      DyadicMul(2 * a, x - 1, b, y);
      MulDouble(a, b);
      DyadicDouble(a * b, x - 1 + y);
    } else {
      DyadicMul(a, x + 1, b, y);
      HalfTimes(Dyadic(a, x + 1), Dyadic(b, y));
      DyadicDouble(a * b, x + y);
    }
  }

  lemma HalfTimes(a: real, b: real)
    ensures (a / 2.0) * b == (a * b) / 2.0
  {
  }

  /** Conversion to reals commutes with products. */
  lemma {:induction false} RealMul(a: int, b: int)
    ensures (a * b) as real == a as real * b as real
    decreases if b < 0 then -b else b
  {
    if b > 0 {
      RealMul(a, b - 1);
      RealMulStep(a, b - 1);
    } else if b < 0 {
      RealMul(a, b + 1);
      RealMulStep(a, b);
    }
  }

  lemma RealMulStep(a: int, b: int)
    ensures a * (b + 1) == a * b + a
    ensures a as real * (b + 1) as real == a as real * b as real + a as real
  {
    var x, y := a as real, b as real;
    assert (b + 1) as real == y + 1.0;
    assert x * (y + 1.0) == x * y + x;
  }

  lemma RMulLt(a: real, b: real, c: real)
    requires a < b && 0.0 < c
    ensures a * c < b * c
  {
  }

  /** `n * x` as a sum of `n` terms, so that multiples need no nonlinear arithmetic either. */
  ghost function Times(n: nat, x: real): real
  {
    if n == 0 then 0.0 else Times(n - 1, x) + x
  }

  lemma {:induction false} TimesIsProduct(n: nat, x: real)
    ensures Times(n, x) == n as real * x
  {
    if n > 0 { TimesIsProduct(n - 1, x); }
  }

  lemma {:induction false} TimesDyadic(n: nat, j: int, e: int)
    ensures Times(n, Dyadic(j, e)) == Dyadic(n * j, e)
  {
    if n == 0 {
      DyadicNeg(0, e);
    } else {
      TimesDyadic(n - 1, j, e);
      DyadicAdd((n - 1) * j, j, e);
      assert n * j == (n - 1) * j + j;
    }
  }
}
