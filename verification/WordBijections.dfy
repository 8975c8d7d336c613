/** Invertible operations on `w`-bit words: xor with a word, xor with an own right shift,
    multiplication by an odd number, rotation. */
module WordBijections {
  import opened Powers
  import opened Nats
  import opened Modular
  import opened Bitwise
  import opened BvSpec
  import opened BitMoves

  // ----- exclusive or -----

  function XorV(w: nat, x: nat, y: nat): (r: nat)
    ensures r < Pow2(w)
  {
    Gated(Xor, w, x, y)
  }

  lemma {:induction false} XorCancels(w: nat, x: nat, y: nat)
    requires x < Pow2(w)
    ensures XorV(w, XorV(w, x, y), y) == x
  {
    if w > 0 { XorCancels(w - 1, x / 2, y / 2); }
  }

  lemma {:induction false} XorZero(w: nat)
    ensures XorV(w, 0, 0) == 0
  {
    if w > 0 { XorZero(w - 1); }
  }

  /** The gate does not see the zeros above small operands. */
  lemma {:induction false} XorWiden(w: nat, x: nat, y: nat)
    requires x < Pow2(w) && y < Pow2(w)
    ensures XorV(w + 1, x, y) == XorV(w, x, y)
  {
    if w > 0 { XorWiden(w - 1, x / 2, y / 2); }
  }

  lemma {:induction false} XorShr(w: nat, x: nat, y: nat, k: nat)
    requires x < Pow2(w) && y < Pow2(w)
    ensures Shr(XorV(w, x, y), k) == XorV(w, Shr(x, k), Shr(y, k))
    decreases k
  {
    if k > 0 {
      if w > 0 { XorWiden(w - 1, x / 2, y / 2); } else { XorZero(0); }
      XorShr(w, x / 2, y / 2, k - 1);
    }
  }

  lemma {:induction false} ShrSmaller(x: nat, k: nat)
    ensures Shr(x, k) <= x && (k > 0 && x > 0 ==> Shr(x, k) < x)
  {
    if k > 0 { ShrSmaller(x / 2, k - 1); }
  }

  // ----- xor with an own right shift -----

  function XorShift(w: nat, k: nat, x: nat): nat { XorV(w, x, Shr(x, k)) }

  /** Its inverse restores the bits from the top down, `k` at a time. */
  function UnXorShift(w: nat, k: nat, y: nat): nat
    requires k > 0
    decreases y
  {
    ShrSmaller(y, k);
    if y == 0 then 0 else XorV(w, y, UnXorShift(w, k, Shr(y, k)))
  }

  lemma {:induction false} UnXorShiftLeft(w: nat, k: nat, x: nat)
    requires k > 0 && x < Pow2(w)
    ensures UnXorShift(w, k, XorShift(w, k, x)) == x
    decreases x
  {
    ShrSmaller(x, k);
    var s, y := Shr(x, k), XorShift(w, k, x);
    ShrSmaller(s, k);
    XorShr(w, x, s, k);
    XorCancels(w, x, s);
    if x == 0 {
      XorZero(w);
    } else {
      UnXorShiftLeft(w, k, s);
      if y == 0 { XorOfEqual(w, x, s); }
    }
  }

  /** Only equal words have a zero exclusive or. */
  lemma {:induction false} XorOfEqual(w: nat, x: nat, y: nat)
    requires x < Pow2(w) && y < Pow2(w) && XorV(w, x, y) == 0
    ensures x == y
  {
    if w > 0 { XorOfEqual(w - 1, x / 2, y / 2); }
  }

  lemma {:induction false} UnXorShiftRight(w: nat, k: nat, y: nat)
    requires k > 0 && y < Pow2(w)
    ensures UnXorShift(w, k, y) < Pow2(w) && XorShift(w, k, UnXorShift(w, k, y)) == y
    decreases y
  {
    ShrSmaller(y, k);
    if y == 0 {
      ShrSmaller(0, k);
      XorZero(w);
    } else {
      var u := UnXorShift(w, k, Shr(y, k));
      UnXorShiftRight(w, k, Shr(y, k));
      ShrSmaller(u, k);
      XorShr(w, y, u, k);
      XorCancels(w, u, Shr(u, k));
      XorCancels(w, y, u);
    }
  }

  /** Xor with the upper part shifted down by an amount the topmost bits choose. */
  function SelfFold(w: nat, i: nat, j: nat, t: nat): (r: nat)
    ensures r < Pow2(w)
  {
    XorV(w, t, Shr(Shr(t, i), Shr(t, j)))
  }

  /** When at least half the word is shifted out, the fold leaves the bits that choose it alone and
      so undoes itself. */
  lemma SelfFoldTwice(w: nat, i: nat, j: nat, t: nat)
    requires t < Pow2(w) && w <= 2 * i && i <= j
    ensures SelfFold(w, i, j, SelfFold(w, i, j, t)) == t
  {
    var s := Shr(Shr(t, i), Shr(t, j));
    ShiftedOut(w, i, t, Shr(t, j));
    XorKeepsTop(w, i, j, t, s);
    XorCancels(w, t, s);
  }

  /** Bits that are zero above position `i` leave the upper parts of the other operand. */
  lemma XorKeepsTop(w: nat, i: nat, j: nat, t: nat, s: nat)
    requires t < Pow2(w) && s < Pow2(w) && Shr(s, i) == 0 && i <= j
    ensures Shr(XorV(w, t, s), i) == Shr(t, i) && Shr(XorV(w, t, s), j) == Shr(t, j)
  {
    XorShr(w, t, s, i);
    ShrSmaller(t, i);
    XorWithZero(w, Shr(t, i));
    ShrShr(t, i, j - i);
    ShrShr(XorV(w, t, s), i, j - i);
  }

  lemma ShiftedOut(w: nat, i: nat, t: nat, n: nat)
    requires t < Pow2(w) && w <= 2 * i
    ensures Shr(Shr(Shr(t, i), n), i) == 0 && Shr(Shr(t, i), n) < Pow2(w)
  {
    ShrSmaller(t, i);
    ShrSmaller(Shr(t, i), n);
    ShlPow2(i, i);
    Pow2Mono(w, i + i);
    ShrBelow(t, i, Pow2(i));
    LowBitsSmall(Shr(Shr(t, i), n), i);
  }

  lemma {:induction false} XorWithZero(w: nat, x: nat)
    requires x < Pow2(w)
    ensures XorV(w, x, 0) == x
  {
    if w > 0 { XorWithZero(w - 1, x / 2); }
  }

  // ----- multiplication by an odd number -----

  /** The product modulo `2^w`. */
  function MulV(w: nat, x: nat, y: nat): (r: nat)
    ensures r < Pow2(w)
  {
    Wrap(w, Mult(x, y))
  }

  lemma MulVIs(w: nat, x: nat, y: nat)
    ensures MulV(w, x, y) == Wrap(w, x * y)
  {
    MultIs(x, y);
  }

  /** `i` is the inverse of `c` in its `k` low bits. */
  predicate InverseTo(k: nat, c: nat, i: nat) { MulV(k, c, i) == Wrap(k, 1) }

  /** One step of Newton's iteration. */
  function NewtonStep(w: nat, c: nat, i: nat): nat { MulV(w, i, Wrap(w, 2 - MulV(w, c, i))) }

  /** An odd number is its own inverse in three bits. */
  lemma OddSquareInverse(c: nat)
    requires Odd(c)
    ensures InverseTo(3, c, c)
  {
    var j := c / 2;
    OddSquareIs(j, c);
    MulVIs(3, c, c);
    var t := j * (j + 1) / 2;
    Consecutive(j);
    WrapShift(3, 1, t);
    ShlDouble(2 * t, 1);
    ShlDouble(t, 2);
    assert Shl(t, 3) == 8 * t;
  }

  lemma OddSquareIs(j: nat, c: nat)
    requires c == 2 * j + 1
    ensures c * c == 4 * (j * (j + 1)) + 1
  {
  }

  lemma {:induction false} Consecutive(j: nat)
    ensures j * (j + 1) % 2 == 0
  {
    if j > 0 {
      Consecutive(j - 1);
      assert j * (j + 1) == (j - 1) * j + 2 * j;
    }
  }

  /** Fewer bits than agreed on agree too. */
  lemma {:induction false} WrapNarrow(k: nat, n: nat, x: int)
    requires k <= n
    ensures Wrap(k, Wrap(n, x)) == Wrap(k, x)
  {
    if k > 0 { WrapNarrow(k - 1, n - 1, x / 2); }
  }

  lemma NarrowEqual(k: nat, n: nat, x: int, y: int)
    requires k <= n && Wrap(n, x) == Wrap(n, y)
    ensures Wrap(k, x) == Wrap(k, y)
  {
    WrapNarrow(k, n, x);
    WrapNarrow(k, n, y);
  }

  /** Each step doubles the number of correct bits, up to the word size. */
  lemma NewtonDoubles(w: nat, k: nat, c: nat, i: nat)
    requires k <= w && InverseTo(k, c, i)
    ensures InverseTo(Min(2 * k, w), c, NewtonStep(w, c, i))
  {
    var m := Min(2 * k, w);
    var p := c * i;
    MulVIs(k, c, i);
    MulVIs(m, c, NewtonStep(w, c, i));
    var q := NewtonError(k, 2 * k, p);
    WrapShift(2 * k, 1, q);
    NarrowEqual(m, 2 * k, p * (2 - p), 1);
    StepProduct(w, c, i, p);
    NarrowEqual(m, w, c * NewtonStep(w, c, i), p * (2 - p));
  }

  /** The error is squared: `p (2 - p) = 1 - (p - 1)^2`. */
  lemma NewtonError(k: nat, n: nat, p: int) returns (q: int)
    requires Wrap(k, p) == Wrap(k, 1) && n == 2 * k
    ensures p * (2 - p) == 1 + Shl(q, n)
  {
    var t := WrapDifference(k, p, 1);
    var e := Shl(t, k);
    q := 0 - t * t;
    OneMinusSquare(p, e);
    SquareShl(t, k, e, n);
    ShlAdd(t * t, q, n);
    ShlOrder(0, 0, n);
  }

  lemma OneMinusSquare(p: int, e: int)
    requires p == 1 + e
    ensures p * (2 - p) == 1 - e * e
  {
  }

  lemma SquareShl(t: int, k: nat, e: int, n: nat)
    requires e == Shl(t, k) && n == 2 * k
    ensures e * e == Shl(t * t, n)
  {
    ShlMul(t, e, k);
    ShlMul(t, t, k);
    ShlShl(t * t, k, k);
  }

  lemma StepProduct(w: nat, c: nat, i: nat, p: int)
    requires p == c * i
    ensures Wrap(w, c * NewtonStep(w, c, i)) == Wrap(w, p * (2 - p))
  {
    var f := Wrap(w, 2 - MulV(w, c, i));
    MulVIs(w, c, i);
    MulVIs(w, i, f);
    WrapIdem(w, p);
    WrapMinus(w, 2, Wrap(w, p), 2, p);
    WrapIdem(w, 2 - Wrap(w, p));
    WrapIdem(w, i * f);
    WrapProduct(w, c, Wrap(w, i * f), c, i * f);
    MulAssoc(c, i, f);
    WrapProduct(w, p, f, p, 2 - p);
  }

  /** The inverse of an odd number after `n` steps, starting from the number itself. */
  function NewtonIter(w: nat, c: nat, n: nat): nat
  {
    if n == 0 then c else NewtonStep(w, c, NewtonIter(w, c, n - 1))
  }

  method NewtonLoop(w: nat, c: nat, steps: nat) returns (i: nat)
    ensures i == NewtonIter(w, c, steps)
  {
    i := c;
    for n := 0 to steps
      invariant i == NewtonIter(w, c, n)
    {
      i := MulV(w, i, Wrap(w, 2 - MulV(w, c, i)));
    }
  }

  /** Three bits are correct at the start and each step doubles them. */
  lemma {:induction false} NewtonBits(w: nat, c: nat, n: nat)
    requires Odd(c) && w >= 3
    ensures InverseTo(Min(Shl(3, n), w), c, NewtonIter(w, c, n))
  {
    if n == 0 {
      OddSquareInverse(c);
    } else {
      NewtonBits(w, c, n - 1);
      NewtonDoubles(w, Min(Shl(3, n - 1), w), c, NewtonIter(w, c, n - 1));
    }
  }

  /** Multiplying by an inverse undoes a multiplication. */
  lemma MulCancels(w: nat, x: nat, c: nat, i: nat)
    requires x < Pow2(w) && InverseTo(w, c, i)
    ensures MulV(w, MulV(w, x, c), i) == x
    ensures MulV(w, MulV(w, c, x), i) == x
    ensures MulV(w, MulV(w, x, i), c) == x
  {
    MulVComm(w, c, x);
    MulVComm(w, c, i);
    MulBack(w, x, c, i);
    MulBack(w, x, i, c);
  }

  lemma MulVComm(w: nat, x: nat, y: nat)
    ensures MulV(w, x, y) == MulV(w, y, x)
  {
    MulVIs(w, x, y);
    MulVIs(w, y, x);
    MulComm(x, y);
  }

  lemma MulBack(w: nat, x: nat, c: nat, i: nat)
    requires x < Pow2(w) && InverseTo(w, c, i)
    ensures MulV(w, MulV(w, x, c), i) == x
  {
    MulVIs(w, c, i);
    MulVIs(w, x, c);
    MulVIs(w, Wrap(w, x * c), i);
    WrapIdem(w, x * c);
    WrapFactor(w, Wrap(w, x * c), x * c, i);
    MulAssoc(x, c, i);
    WrapProduct(w, x, c * i, x, 1);
    WrapSmall(w, x);
  }

  // ----- rotation -----

  /** Rotating right undoes rotating left. */
  lemma {:induction false} RotRUndoes(w: nat, x: nat, y: nat)
    requires w > 0 && x < Pow2(w)
    ensures RotLV(w, x, y) < Pow2(w) && RotRV(w, RotLV(w, x, y), y) == x
  {
    if y > 0 {
      RotRUndoes(w, x, y - 1);
      var z := RotLV(w, x, y - 1);
      RotOneUndoes(w, z);
      RotRCompose(w, RotLOne(w, z), 1, y - 1);
      assert RotRV(w, RotLOne(w, z), 1) == RotROne(w, RotLOne(w, z));
    }
  }

  lemma RotOneUndoes(w: nat, z: nat)
    requires w > 0 && z < Pow2(w)
    ensures RotLOne(w, z) < Pow2(w) && RotROne(w, RotLOne(w, z)) == z
  {
    ShrLow(z, w - 1);
    TopBit(z, w - 1);
  }

  /** Rotating left undoes rotating right. */
  lemma {:induction false} RotLUndoes(w: nat, x: nat, y: nat)
    requires w > 0 && x < Pow2(w)
    ensures RotRV(w, x, y) < Pow2(w) && RotLV(w, RotRV(w, x, y), y) == x
  {
    if y > 0 {
      RotLUndoes(w, x, y - 1);
      var z := RotRV(w, x, y - 1);
      RotOneRestores(w, z);
      RotLCompose(w, RotROne(w, z), 1, y - 1);
      assert RotLV(w, RotROne(w, z), 1) == RotLOne(w, RotROne(w, z));
    }
  }

  lemma RotOneRestores(w: nat, z: nat)
    requires w > 0 && z < Pow2(w)
    ensures RotROne(w, z) < Pow2(w) && RotLOne(w, RotROne(w, z)) == z
  {
    ShlOrder(0, 0, w - 1);
    CutUnique(RotROne(w, z), z % 2, z / 2, w - 1);
  }

  // ----- addition -----

  lemma AddCancels(w: nat, x: nat, g: int)
    requires x < Pow2(w)
    ensures Wrap(w, Wrap(w, x + g) - g) == x
  {
    WrapIdem(w, x + g);
    WrapMinus(w, Wrap(w, x + g), g, x + g, g);
    WrapSmall(w, x);
  }

  lemma SubCancels(w: nat, x: nat, g: int)
    requires x < Pow2(w)
    ensures Wrap(w, Wrap(w, x - g) + g) == x
  {
    WrapIdem(w, x - g);
    WrapSum(w, Wrap(w, x - g), g, x - g, g);
    WrapSmall(w, x);
  }

  /** Xor from the left undoes itself. */
  lemma XorCancelsLeft(w: nat, x: nat, y: nat)
    requires y < Pow2(w)
    ensures XorV(w, x, XorV(w, x, y)) == y
  {
    GatedCommutes(Xor, w, x, y);
    GatedCommutes(Xor, w, x, XorV(w, x, y));
    XorCancels(w, y, x);
  }

  /** Adds `g` to a word and xors it with another. */
  function Masked(w: nat, x: nat, v: nat, g: nat): (r: nat)
    ensures r < Pow2(w)
  {
    XorV(w, x, Wrap(w, v + g))
  }

  function Unmasked(w: nat, x: nat, y: nat, g: nat): (r: nat)
    ensures r < Pow2(w)
  {
    Wrap(w, XorV(w, x, y) - g)
  }

  lemma UnmaskedMasked(w: nat, x: nat, v: nat, g: nat)
    requires v < Pow2(w)
    ensures Unmasked(w, x, Masked(w, x, v, g), g) == v
  {
    XorCancelsLeft(w, x, Wrap(w, v + g));
    AddCancels(w, v, g);
  }

  lemma MaskedUnmasked(w: nat, x: nat, y: nat, g: nat)
    requires y < Pow2(w)
    ensures Masked(w, x, Unmasked(w, x, y, g), g) == y
  {
    SubCancels(w, XorV(w, x, y), g);
    XorCancelsLeft(w, x, y);
  }

  /** One addition in words. */
  function Step(w: nat, x: nat, g: nat): (r: nat)
    ensures r < Pow2(w)
  {
    Wrap(w, x + g)
  }

  /** The word reached from `s` by adding `g` `n` times. */
  function StepsFrom(w: nat, s: nat, g: nat, n: nat): (r: nat)
    ensures r < Pow2(w)
  {
    if n == 0 then Wrap(w, s) else Step(w, StepsFrom(w, s, g, n - 1), g)
  }

  lemma {:induction false} StepsFromIs(w: nat, s: nat, g: nat, n: nat)
    ensures StepsFrom(w, s, g, n) == Wrap(w, s + Mult(g, n))
  {
    if n > 0 {
      StepsFromIs(w, s, g, n - 1);
      StepWrapped(w, s + Mult(g, n - 1), g);
    }
  }

  lemma StepWrapped(w: nat, t: nat, g: nat)
    ensures Step(w, Wrap(w, t), g) == Wrap(w, t + g)
  {
    WrapIdem(w, t);
    WrapSum(w, Wrap(w, t), g, t, g);
  }

  /** Adding an odd step again and again visits every word before one repeats. */
  lemma StepsDistinct(w: nat, s: nat, g: nat, i: nat, m: nat, n: nat)
    requires InverseTo(w, g, i) && m < Pow2(w) && n < Pow2(w)
    requires StepsFrom(w, s, g, m) == StepsFrom(w, s, g, n)
    ensures m == n
  {
    StepsFromIs(w, s, g, m);
    StepsFromIs(w, s, g, n);
    WrapMinus(w, s + Mult(g, m), s, s + Mult(g, n), s);
    MulCancels(w, m, g, i);
    MulCancels(w, n, g, i);
  }
}
