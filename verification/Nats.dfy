/** The operations of the floating-point oracle's big naturals that are more than one arithmetic
    operation, on Dafny's unbounded naturals. */
module Nats {
  import opened Powers
  import opened Dyadics

  datatype Ordering = Less | Equal | Greater {
    function Reverse(): Ordering {
      match this case Less => Greater case Equal => Equal case Greater => Less
    }
  }

  function Compare(a: int, b: int): Ordering
  {
    if a < b then Less else if a == b then Equal else Greater
  }

  ghost function CompareReal(a: real, b: real): Ordering
  {
    if a < b then Less else if a == b then Equal else Greater
  }

  function Min(a: int, b: int): int { if a <= b then a else b }

  function Max(a: int, b: int): int { if a <= b then b else a }

  function Magnitude(n: int): nat { if n < 0 then -n else n }

  /** Compares `a * 2^x` with `b * 2^y`: the positions of the top bits decide at once when they
      differ. */
  function CmpScaled(a: nat, x: int, b: nat, y: int): Ordering
    requires a > 0 && b > 0
  {
    var ta := BitLen(a) + x;
    var tb := BitLen(b) + y;
    if ta != tb then Compare(ta, tb)
    else
      var s := Min(x, y);
      Compare(Shl(a, x - s), Shl(b, y - s))
  }

  /** The comparison is exact. */
  lemma CmpScaledExact(a: nat, x: int, b: nat, y: int)
    requires a > 0 && b > 0
    ensures CmpScaled(a, x, b, y) == CompareReal(Dyadic(a, x), Dyadic(b, y))
  {
    var ta := BitLen(a) + x;
    var tb := BitLen(b) + y;
    if ta < tb {
      TopBelow(a, x, b, y);
    } else if tb < ta {
      TopBelow(b, y, a, x);
    } else {
      DyadicCompare(a, x, b, y, Min(x, y));
    }
  }

  lemma TopBelow(a: nat, x: int, b: nat, y: int)
    requires a > 0 && b > 0 && BitLen(a) + x < BitLen(b) + y
    ensures Dyadic(a, x) < Dyadic(b, y)
  {
    DyadicTop(a, x);
    DyadicTop(b, y);
    DyadicPowMono(BitLen(a) + x, BitLen(b) + y - 1);
  }

  /** A positive dyadic lies in the binade its top bit names. */
  lemma DyadicTop(a: nat, x: int)
    requires a > 0
    ensures Dyadic(1, BitLen(a) - 1 + x) <= Dyadic(a, x) < Dyadic(1, BitLen(a) + x)
  {
    BitLenBounds(a);
    DyadicPow2(BitLen(a) - 1, x);
    DyadicPow2(BitLen(a), x);
    DyadicOrder(Pow2(BitLen(a) - 1), a, x);
    DyadicOrder(a, Pow2(BitLen(a)), x);
  }

  lemma DyadicPow2(i: nat, x: int)
    ensures Dyadic(Pow2(i), x) == Dyadic(1, i + x)
  {
    DyadicShl(1, i, x);
    ShlOne(i);
  }

  lemma DyadicPowMono(x: int, y: int)
    ensures x < y <==> Dyadic(1, x) < Dyadic(1, y)
    ensures x <= y <==> Dyadic(1, x) <= Dyadic(1, y)
  {
    var s := Min(x, y);
    DyadicCompare(1, x, 1, y, s);
    ShlOne(x - s);
    ShlOne(y - s);
    if x < y { Pow2Mono(0, y - x); }
    if y < x { Pow2Mono(0, x - y); }
  }

  /** Whether `c * 2^k` is an integer. */
  predicate Exact(c: nat, k: int) { k < 0 ==> LowBits(c, -k) == 0 }

  /** Shifts by `k` in either direction, losing no set bit. */
  function ShiftExact(c: nat, k: int): nat
    requires Exact(c, k)
  {
    if k >= 0 then Shl(c, k) else Shr(c, -k)
  }

  /** An exact shift moves the top bit by `k` and keeps the value. */
  lemma ShiftExactFacts(c: nat, k: int, j: int, q: int)
    requires c > 0 && Exact(c, k) && q == k + j
    ensures ShiftExact(c, k) > 0
    ensures BitLen(ShiftExact(c, k)) == BitLen(c) + k
    ensures Dyadic(ShiftExact(c, k), j) == Dyadic(c, q)
  {
    if k >= 0 {
      BitLenShl(c, k);
      DyadicShl(c, k, j);
    } else {
      var r := Shr(c, -k);
      ShrLow(c, -k);
      ShlOrder(0, r, -k);
      BitLenShl(r, -k);
      DyadicShl(r, -k, k + j);
    }
  }

  predicate IsFloorRoot(n: nat, r: nat) { r * r <= n < (r + 1) * (r + 1) }

  /** The integer square root. */
  function Isqrt(n: nat): (r: nat)
    ensures IsFloorRoot(n, r)
  {
    if n == 0 then 0
    else
      var h := Isqrt(n / 4);
      IsqrtStep(n, h);
      LastDigit(n, 2 * h)
  }

  /** `r` or `r + 1`, whichever has the larger square within `n`. */
  function LastDigit(n: nat, r: nat): nat
  {
    if (r + 1) * (r + 1) <= n then r + 1 else r
  }

  lemma IsqrtStep(n: nat, h: nat)
    requires IsFloorRoot(n / 4, h)
    ensures IsFloorRoot(n, LastDigit(n, 2 * h))
  {
    var r := 2 * h;
    assert r * r == 4 * (h * h);
    assert (r + 2) * (r + 2) == 4 * ((h + 1) * (h + 1));
  }

  /** Quotient and remainder, by repeated subtraction. */
  function Quot(n: nat, d: nat): nat
    requires d > 0
  {
    if n < d then 0 else 1 + Quot(n - d, d)
  }

  function Rem(n: nat, d: nat): nat
    requires d > 0
  {
    if n < d then n else Rem(n - d, d)
  }

  lemma {:induction false} QuotRem(n: nat, d: nat)
    requires d > 0
    ensures n == Quot(n, d) * d + Rem(n, d) && Rem(n, d) < d
  {
    if n >= d {
      QuotRem(n - d, d);
      MulSucc(Quot(n - d, d), d);
    }
  }

  lemma MulSucc(a: int, b: int)
    ensures (1 + a) * b == a * b + b
  {
  }

  /** The product of two naturals, by repeated addition. */
  function Mult(x: nat, y: nat): nat
  {
    if y == 0 then 0 else x + Mult(x, y - 1)
  }

  lemma {:induction false} MultIs(x: nat, y: nat)
    ensures Mult(x, y) == x * y
  {
    if y > 0 {
      MultIs(x, y - 1);
      MulSucc(y - 1, x);
      MulComm(x, y);
      MulComm(x, y - 1);
    }
  }

  lemma {:induction false} MultOrder(x: nat, a: nat, b: nat)
    ensures a <= b ==> Mult(x, a) <= Mult(x, b)
    ensures a < b ==> Mult(x, a) + x <= Mult(x, b)
  {
    if a > 0 && b > 0 { MultOrder(x, a - 1, b - 1); }
    if a == 0 && b > 0 { MultOrder(x, 0, b - 1); }
  }

  /** They are the quotient and remainder of Euclidean division. */
  lemma QuotRemIs(n: nat, d: nat)
    requires d > 0
    ensures Quot(n, d) == n / d && Rem(n, d) == n % d
  {
    QuotRem(n, d);
    DivModUnique(n, d, Quot(n, d), Rem(n, d));
  }

  /** Dividing a number with one more bit. */
  lemma {:induction false} LongDivisionStep(p: nat, bit: nat, n: nat, d: nat, r: nat, taken: nat)
    requires bit < 2 && d > 0 && n == bit + 2 * p
    requires r == 2 * Rem(p, d) + bit && taken == (if r >= d then 1 else 0)
    ensures Quot(n, d) == 2 * Quot(p, d) + taken
    ensures Rem(n, d) == if r >= d then r - d else r
    decreases p
  {
    if p >= d {
      LongDivisionStep(p - d, bit, n - d - d, d, r, taken);
    } else {
      QuotRem(p, d);
    }
  }
}
