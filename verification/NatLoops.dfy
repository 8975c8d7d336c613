/** The loops of the floating-point oracle's big naturals: the integer square root by Newton's
    iteration, short division limb by limb, and binary long division. */
module NatLoops {
  import opened Powers
  import opened Nats

  // ----- the square root -----

  /** A step from any `x > 0` stays at or above the root: the mean of `x` and `n / x` is at least
      the root, rounding down included. */
  lemma NewtonAbove(n: nat, x: nat, q: nat, y: nat)
    requires n > 0 && x > 0 && n < (q + 1) * x && y == (x + q) / 2
    ensures y > 0 && n < (y + 1) * (y + 1)
  {
    var s := x + q + 1;
    var p := (q + 1) * x;
    MeanSquare(x, q + 1, s, p);
    SquareMono(s, 2 * (y + 1));
    TwiceSquared(y + 1);
    if y == 0 { OneTimes(x, q, n); }
  }

  lemma OneTimes(x: nat, q: nat, n: nat)
    requires x == 1 && q == 0 && n < (q + 1) * x
    ensures n == 0
  {
  }

  lemma MeanSquare(a: int, b: int, s: int, p: int)
    requires s == a + b && p == b * a
    ensures 4 * p <= s * s
  {
    assert s * s - 4 * p == (a - b) * (a - b);
    if a >= b { MulLe(0, a - b, a - b); } else { MulLe(0, b - a, b - a); }
  }

  lemma TwiceSquared(z: nat)
    ensures (2 * z) * (2 * z) == 4 * (z * z)
  {
  }

  /** When a step no longer decreases, `x` is at or below the root. */
  lemma NewtonStops(n: nat, x: nat, q: nat)
    requires q * x <= n && (x + q) / 2 >= x
    ensures x * x <= n
  {
    MulLe(x, q, x);
  }

  lemma FloorRootUnique(n: nat, a: nat, b: nat)
    requires IsFloorRoot(n, a) && IsFloorRoot(n, b)
    ensures a == b
  {
    if a < b { SquareMono(a + 1, b); }
    if b < a { SquareMono(b + 1, a); }
  }

  /** A power of two at or above the root: `2^ceil(len / 2)`. */
  lemma NewtonStart(n: nat, x: nat)
    requires n > 0 && x == Pow2((BitLen(n) + 1) / 2)
    ensures n < (x + 1) * (x + 1)
  {
    var k := (BitLen(n) + 1) / 2;
    BelowPower(n, k + k);
    PowerSquared(n, k, x);
  }

  lemma BelowPower(n: nat, j: nat)
    requires n > 0 && BitLen(n) <= j
    ensures n < Pow2(j)
  {
    BitLenAtMost(n, j);
  }

  lemma PowerSquared(n: nat, k: nat, x: nat)
    requires n < Pow2(k + k) && x == Pow2(k)
    ensures n < (x + 1) * (x + 1)
  {
    Pow2Add(k, k);
    WithinSquare(n, x);
  }

  lemma WithinSquare(n: nat, x: nat)
    requires n < x * x
    ensures n < (x + 1) * (x + 1)
  {
    SquareMono(x, x + 1);
  }

  /** Newton's iteration ends at the integer root, so the source's final check never fails. */
  method NewtonIsqrt(n: nat) returns (x: nat)
    ensures x == Isqrt(n) && IsFloorRoot(n, x)
  {
    if n == 0 { return 0; }
    x := Pow2((BitLen(n) + 1) / 2);
    NewtonStart(n, x);
    while true
      invariant x > 0 && n < (x + 1) * (x + 1)
      decreases x
    {
      var q := Quot(n, x);
      var y := (x + q) / 2;
      QuotRem(n, x);
      MulSucc(q, x);
      NewtonAbove(n, x, q, y);
      if y >= x {
        NewtonStops(n, x, q);
        break;
      }
      x := y;
    }
    FloorRootUnique(n, x, Isqrt(n));
  }

  // ----- division -----

  const LIMB_BITS := 64

  /** The top bits of `n`, fewer than `d` has, are below `d`. */
  lemma TopBelowDivisor(n: nat, d: nat, steps: nat)
    requires n >= d > 0 && steps == BitLen(n) - BitLen(d) + 1
    ensures Shr(n, steps) < d
  {
    BitLenBounds(n);
    BitLenBounds(d);
    ShiftedBelow(n, BitLen(d) - 1, steps);
  }

  lemma ShiftedBelow(n: nat, top: nat, steps: nat)
    requires n < Pow2(top + steps)
    ensures Shr(n, steps) < Pow2(top)
  {
    ShlPow2(top, steps);
    ShrBelow(n, steps, Pow2(top));
  }

  /** One more bit of the dividend. */
  lemma NextBit(n: nat, i: nat)
    ensures Shr(n, i) == 2 * Shr(n, i + 1) + Shr(n, i) % 2
  {
    ShrShr(n, i, 1);
    assert Shr(Shr(n, i), 1) == Shr(n, i) / 2;
  }

  /** A power of two divides by shifting. */
  lemma DivideByPower(n: nat, k: nat)
    ensures Quot(n, Pow2(k)) == Shr(n, k) && Rem(n, Pow2(k)) == LowBits(n, k)
  {
    ShrIs(n, k);
    QuotRemIs(n, Pow2(k));
  }

  /** The number with the given limbs of `w` bits, least significant first. */
  function Number(w: nat, limbs: seq<nat>): nat
  {
    if |limbs| == 0 then 0 else limbs[0] + Shl(Number(w, limbs[1..]), w)
  }

  predicate Limbs(w: nat, s: seq<nat>) { forall i :: 0 <= i < |s| ==> s[i] < Pow2(w) }

  /** The limbs of a number, without leading zero limbs. */
  function LimbsOf(w: nat, n: nat): (s: seq<nat>)
    requires w > 0
    decreases n
  {
    ShrShrinks(w, n);
    if n == 0 then [] else [LowBits(n, w)] + LimbsOf(w, Shr(n, w))
  }

  lemma ShrShrinks(w: nat, n: nat)
    requires w > 0
    ensures n > 0 ==> Shr(n, w) < n
  {
    ShrLow(n, w);
    ShlShrinks(Shr(n, w), w);
  }

  lemma ShlShrinks(a: nat, w: nat)
    requires w > 0
    ensures Shl(a, w) >= 2 * a
  {
  }

  lemma {:induction false} LimbsOfNumber(w: nat, n: nat)
    requires w > 0
    ensures Number(w, LimbsOf(w, n)) == n && Limbs(w, LimbsOf(w, n))
    decreases n
  {
    if n > 0 {
      ShrShrinks(w, n);
      ShrLow(n, w);
      LimbsOfNumber(w, Shr(n, w));
    }
  }

  /** Short division by one limb, from the most significant limb down. */
  method ShortDivision(w: nat, n: seq<nat>, d: nat) returns (q: seq<nat>, r: nat)
    requires Limbs(w, n) && 0 < d < Pow2(w)
    ensures Limbs(w, q) && |q| == |n|
    ensures Number(w, q) == Quot(Number(w, n), d) && r == Rem(Number(w, n), d)
  {
    var limbs := new nat[|n|](_ => 0);
    r := 0;
    var i := |n|;
    ghost var done := 0;
    while i > 0
      invariant 0 <= i <= |n| && r < d
      invariant Limbs(w, limbs[i..]) && done == Number(w, limbs[i..])
      invariant Number(w, n[i..]) == done * d + r
    {
      i := i - 1;
      var cur := Shl(r, w) + n[i];
      ghost var above := limbs[i + 1..];
      QuotRem(cur, d);
      QuotientLimb(w, d, r, n[i], cur, Quot(cur, d), Rem(cur, d));
      ShortStep(w, n, i, done, d, r, cur, Quot(cur, d), Rem(cur, d));
      limbs[i], r := Quot(cur, d), Rem(cur, d);
      assert limbs[i..] == [limbs[i]] + above;
      done := limbs[i] + Shl(done, w);
    }
    q := limbs[..];
    assert q == limbs[0..] && n == n[0..];
    QuotRemUnique(Number(w, n), d, done, r);
  }

  /** A quotient limb is a limb, since the running remainder is below the divisor. */
  lemma QuotientLimb(w: nat, d: nat, r: nat, limb: nat, cur: nat, qi: nat, rest: nat)
    requires r < d && limb < Pow2(w) && cur == Shl(r, w) + limb && cur == qi * d + rest
    ensures qi < Pow2(w)
  {
    ShlOrder(r, d, w);
    ShlIs(d, w);
    MulComm(d, Pow2(w));
    if qi >= Pow2(w) { MulLe(Pow2(w), qi, d); }
  }

  lemma ShortStep(w: nat, n: seq<nat>, i: nat, done: nat, d: nat, r: nat, cur: nat, qi: nat, rest: nat)
    requires i < |n| && Number(w, n[i + 1..]) == done * d + r
    requires cur == Shl(r, w) + n[i] && cur == qi * d + rest
    ensures Number(w, n[i..]) == (qi + Shl(done, w)) * d + rest
  {
    assert n[i..][1..] == n[i + 1..];
    ShlAdd(done * d, r, w);
    ShlMul(done, d, w);
    MulAdd(qi, Shl(done, w), d);
  }

  lemma QuotRemUnique(n: nat, d: nat, q: nat, r: nat)
    requires r < d && n == q * d + r
    ensures Quot(n, d) == q && Rem(n, d) == r
  {
    QuotRemIs(n, d);
    DivModUnique(n, d, q, r);
  }

  /** Quotient and remainder: at once for a small dividend or a power of two, by short division for a
      divisor of one limb, otherwise by shifting in the dividend's bits and subtracting the divisor when
      it fits. */
  method DivRem(n: nat, d: nat) returns (q: nat, r: nat)
    requires d > 0
    ensures q == Quot(n, d) && r == Rem(n, d)
  {
    if n < d { return 0, n; }
    if d == Pow2(BitLen(d) - 1) {
      var k := BitLen(d) - 1;
      DivideByPower(n, k);
      return Shr(n, k), LowBits(n, k);
    }
    if BitLen(d) <= LIMB_BITS {
      BitLenAtMost(d, LIMB_BITS);
      LimbsOfNumber(LIMB_BITS, n);
      var limbs;
      limbs, r := ShortDivision(LIMB_BITS, LimbsOf(LIMB_BITS, n), d);
      return Number(LIMB_BITS, limbs), r;
    }
    var i := BitLen(n) - BitLen(d) + 1;
    BitLenOrder(n, d);
    TopBelowDivisor(n, d, i);
    q, r := 0, Shr(n, i);
    ShlOrder(0, 0, i);
    while i > 0
      invariant i >= 0
      invariant q == Shl(Quot(Shr(n, i), d), i) && r == Rem(Shr(n, i), d)
    {
      i := i - 1;
      NextBit(n, i);
      ghost var high := Quot(Shr(n, i + 1), d);
      var bit := Shr(n, i) % 2;
      r := 2 * r + bit;
      ghost var taken := if r >= d then 1 else 0;
      LongDivisionStep(Shr(n, i + 1), bit, Shr(n, i), d, r, taken);
      QuotientBit(high, taken, i);
      if r >= d {
        r := r - d;
        q := q + Pow2(i);
      }
    }
  }

  lemma QuotientBit(high: nat, taken: nat, i: nat)
    requires taken < 2
    ensures Shl(2 * high + taken, i) == Shl(high, i + 1) + if taken == 1 then Pow2(i) else 0
  {
    ShlDouble(high, i);
    ShlOrder(0, 0, i);
    ShlAdd(2 * high, taken, i);
  }

  lemma BitLenOrder(n: nat, d: nat)
    requires n >= d
    ensures BitLen(n) >= BitLen(d)
  {
    BitLenAtMost(n, BitLen(n));
    BitLenAtMost(d, BitLen(n));
  }
}
