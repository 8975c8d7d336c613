/** The bitwise gates on bit vectors and on the numbers below `2^w` they denote. */
module Bitwise {
  import opened Powers
  import opened Words

  datatype Gate = And | Or | Xor

  predicate Apply(g: Gate, p: bool, q: bool)
  {
    match g case And => p && q case Or => p || q case Xor => p != q
  }

  function Zip(g: Gate, a: Bits, b: Bits): (r: Bits)
    requires |a| == |b|
    ensures |r| == |a|
  {
    seq(|a|, i requires 0 <= i < |a| => Apply(g, a[i], b[i]))
  }

  predicate Odd(n: nat) { n % 2 == 1 }

  /** The gate applied to the `w` low bits of two numbers. */
  function Gated(g: Gate, w: nat, x: nat, y: nat): (r: nat)
    ensures r < Pow2(w)
  {
    if w == 0 then 0
    else
      var rest := Gated(g, w - 1, x / 2, y / 2);
      Bit(Apply(g, Odd(x), Odd(y))) + 2 * rest
  }

  lemma {:induction false} ZipIsGated(g: Gate, a: Bits, b: Bits)
    requires |a| == |b|
    ensures UVal(Zip(g, a, b)) == Gated(g, |a|, UVal(a), UVal(b))
  {
    if |a| > 0 {
      var r := Zip(g, a, b);
      assert r[1..] == Zip(g, a[1..], b[1..]);
      ZipIsGated(g, a[1..], b[1..]);
      HalfOf(a);
      HalfOf(b);
      assert r[0] == Apply(g, a[0], b[0]);
    }
  }

  /** A gate works on each bit separately. */
  lemma {:induction false} GatedBit(g: Gate, w: nat, x: nat, y: nat, i: nat)
    requires i < w
    ensures TestBit(Gated(g, w, x, y), i) <==> Apply(g, TestBit(x, i), TestBit(y, i))
  {
    if i > 0 { GatedBit(g, w - 1, x / 2, y / 2, i - 1); }
  }

  lemma {:induction false} GatedCommutes(g: Gate, w: nat, x: nat, y: nat)
    ensures Gated(g, w, x, y) == Gated(g, w, y, x)
  {
    if w > 0 { GatedCommutes(g, w - 1, x / 2, y / 2); }
  }

  /** A sum counts each common bit twice. */
  lemma {:induction false} SumOfGates(w: nat, x: nat, y: nat)
    requires x < Pow2(w) && y < Pow2(w)
    ensures x + y == Gated(Xor, w, x, y) + 2 * Gated(And, w, x, y)
    ensures x + y == Gated(Or, w, x, y) + Gated(And, w, x, y)
    ensures Gated(Or, w, x, y) == Gated(Xor, w, x, y) + Gated(And, w, x, y)
  {
    if w > 0 { SumOfGates(w - 1, x / 2, y / 2); }
  }
}
