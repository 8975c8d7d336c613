/** The benchmark's obfuscator: a random rewriting of expressions by mixed boolean-arithmetic
    identities, and the corpus of expressions with hidden zeros it builds. Both keep the meaning of
    every expression they touch. */
module Mba {
  import opened Powers
  import opened Nats
  import opened Modular
  import opened Bitwise
  import opened WordBijections
  import opened Hashing

  // ----- the generator that drives the choices -----

  /** The state after `n` draws from `s`. */
  function StateAfter(s: nat, n: nat): (r: nat)
    ensures IsWord(r)
  {
    StepsFrom(BITS, s, GAMMA, n)
  }

  /** The words drawn from `s`, the first at index one. */
  type Stream = nat -> nat

  /** The states passed through from `s`. */
  ghost predicate IsRun(f: nat -> nat, s: nat)
  {
    forall i: nat {:trigger StateAfter(s, i)} :: f(i) == StateAfter(s, i)
  }

  ghost predicate IsStream(d: Stream, s: nat)
  {
    forall i: nat {:trigger Mix64(StateAfter(s, i))} :: d(i) == Mix64(StateAfter(s, i))
  }

  /** The `i`-th draw, below `n`. */
  function Draw(d: Stream, i: nat, n: nat): (r: nat)
    ensures r < Max(n, 1)
  {
    QuotRem(d(i), Max(n, 1));
    Rem(d(i), Max(n, 1))
  }

  lemma MixIsWord(s: nat)
    requires IsWord(s)
    ensures IsWord(Mix64(s))
  {
    UnmixMix(s);
  }

  lemma NextState(s: nat, n: nat, m: nat)
    requires m == n + 1
    ensures StateAfter(s, m) == Step(BITS, StateAfter(s, n), GAMMA)
  {
  }

  /** SplitMix64; the ghost fields record where it started, the states it passes through, the words it
      yields, and how often it was drawn from. */
  class Rng {
    var state: nat
    ghost const seed: nat
    ghost const states: nat -> nat
    ghost const stream: Stream
    ghost var draws: nat

    constructor (seed: nat)
      requires IsWord(seed)
      ensures Valid() && this.seed == seed && draws == 0
    {
      state := seed;
      this.seed := seed;
      states := i => StateAfter(seed, i);
      stream := i => Mix64(StateAfter(seed, i));
      draws := 0;
      WrapSmall(BITS, seed);
    }

    ghost predicate Valid()
      reads this
    {
      state == states(draws) && IsRun(states, seed) && IsStream(stream, seed)
    }

    method Next() returns (z: nat)
      requires Valid()
      modifies this
      ensures Valid() && draws == old(draws) + 1
      ensures z == stream(draws) && IsWord(z)
    {
      NextState(seed, draws, draws + 1);
      state := Step(BITS, state, GAMMA);
      draws := draws + 1;
      MixIsWord(state);
      z := Mix64(state);
    }

    method Below(n: nat) returns (r: nat)
      requires Valid()
      modifies this
      ensures Valid() && draws == old(draws) + 1
      ensures r == Draw(stream, draws, n) == Rem(stream(draws), Max(n, 1)) < Max(n, 1)
    {
      var z := Next();
      QuotRem(z, Max(n, 1));
      r := Rem(z, Max(n, 1));
    }

    method Pick<X>(items: seq<X>) returns (x: X)
      requires Valid() && |items| > 0
      modifies this
      ensures Valid() && draws == old(draws) + 1
      ensures x == items[Draw(stream, draws, |items|)]
    {
      var i := Below(|items|);
      x := items[i];
    }
  }

  /** The generator has full period: the first `2^64` words `Next` returns are all different. */
  lemma FullPeriod(s: nat, m: nat, n: nat)
    requires IsWord(m) && IsWord(n)
    requires Mix64(StateAfter(s, m)) == Mix64(StateAfter(s, n))
    ensures m == n
  {
    UnmixMix(StateAfter(s, m));
    UnmixMix(StateAfter(s, n));
    InverseIs(GAMMA);
    StepsDistinct(BITS, s, GAMMA, Inverse(GAMMA), m, n);
  }

  // ----- expressions -----

  datatype Op = Plus | Minus | Times | BitAnd | BitOr | BitXor | Other(name: string)

  datatype T = V(name: string) | C(value: nat) | Bin(op: Op, a: T, b: T) | Not(a: T)

  /** The values of the variables and the meaning of every other operator. */
  datatype Env = Env(vars: string -> nat, other: (string, nat, nat) -> nat)

  /** The complement. */
  function NotV(w: nat, x: int): (r: nat)
    ensures r < Pow2(w)
  {
    Wrap(w, -1 - x)
  }

  function AddV(w: nat, x: nat, y: nat): (r: nat)
    ensures r < Pow2(w)
  {
    Wrap(w, x + y)
  }

  function SubV(w: nat, x: nat, y: nat): (r: nat)
    ensures r < Pow2(w)
  {
    Wrap(w, x - y)
  }

  function OpValue(w: nat, env: Env, op: Op, x: nat, y: nat): (r: nat)
    ensures r < Pow2(w)
  {
    match op
    case Plus => AddV(w, x, y)
    case Minus => SubV(w, x, y)
    case Times => MulV(w, x, y)
    case BitAnd => Gated(And, w, x, y)
    case BitOr => Gated(Or, w, x, y)
    case BitXor => Gated(Xor, w, x, y)
    case Other(name) => Wrap(w, env.other(name, x, y))
  }

  /** The value of an expression at `w` bits. */
  function Eval(w: nat, env: Env, t: T): (r: nat)
    ensures r < Pow2(w)
  {
    match t
    case V(name) => Wrap(w, env.vars(name))
    case C(value) => Wrap(w, value)
    case Bin(op, a, b) => OpValue(w, env, op, Eval(w, env, a), Eval(w, env, b))
    case Not(a) => NotV(w, Eval(w, env, a))
  }

  ghost predicate SameAt(w: nat, s: T, t: T) { forall env: Env :: Eval(w, env, s) == Eval(w, env, t) }

  /** Equal at every width and for all variables and operators. */
  ghost predicate Same(s: T, t: T) { forall w: nat :: SameAt(w, s, t) }

  // ----- the identities on numbers -----

  /** Values already in range are unchanged by wrapping. */
  lemma WrapValue(w: nat, x: nat)
    requires x < Pow2(w)
    ensures Wrap(w, x) == x
  {
    WrapSmall(w, x);
  }

  /** Masking with `b` and with its complement splits `a`. */
  lemma {:induction false} MaskSplit(w: nat, a: nat, b: nat, nb: nat)
    requires a < Pow2(w) && b < Pow2(w) && nb == Pow2(w) - 1 - b
    ensures a == Gated(And, w, a, b) + Gated(And, w, a, nb)
  {
    if w > 0 { MaskSplit(w - 1, a / 2, b / 2, nb / 2); }
  }

  lemma Complement(w: nat, b: nat)
    requires b < Pow2(w)
    ensures NotV(w, b) == Pow2(w) - 1 - b
  {
    ShlAdd(-1, 1, w);
    ShlOrder(0, 0, w);
    WrapUnique(w, -1 - b, -1, Pow2(w) - 1 - b);
  }

  /** `a + b = (a ^ b) + 2(a & b)`. */
  lemma PlusByXor(w: nat, a: nat, b: nat)
    requires a < Pow2(w) && b < Pow2(w)
    ensures AddV(w, Gated(Xor, w, a, b), MulV(w, Wrap(w, 2), Gated(And, w, a, b))) == AddV(w, a, b)
  {
    SumOfGates(w, a, b);
    AddProduct(w, Gated(Xor, w, a, b), 2, Gated(And, w, a, b), 2 * Gated(And, w, a, b));
  }

  lemma AddProduct(w: nat, x: nat, c: nat, m: nat, cm: nat)
    requires cm == c * m
    ensures AddV(w, x, MulV(w, Wrap(w, c), m)) == Wrap(w, x + cm)
  {
    MulVIs(w, Wrap(w, c), m);
    WrapIdem(w, c);
    WrapFactor(w, Wrap(w, c), c, m);
    WrapIdem(w, cm);
    WrapSum(w, x, Wrap(w, cm), x, cm);
  }

  /** `a - b = a + ~b + 1`. */
  lemma MinusByNot(w: nat, a: nat, b: nat)
    requires a < Pow2(w) && b < Pow2(w)
    ensures AddV(w, AddV(w, a, NotV(w, b)), Wrap(w, 1)) == SubV(w, a, b)
  {
    AddNot(w, a, b);
    AddWrapped(w, a - 1 - b, 1, a - b);
  }

  lemma AddNot(w: nat, a: nat, b: nat)
    ensures AddV(w, a, NotV(w, b)) == Wrap(w, a - 1 - b)
  {
    WrapIdem(w, -1 - (b as int));
    WrapSum(w, a, NotV(w, b), a, -1 - (b as int));
  }

  lemma AddWrapped(w: nat, m: int, k: int, n: int)
    requires n == m + k
    ensures Wrap(w, Wrap(w, m) + Wrap(w, k)) == Wrap(w, n)
  {
    WrapIdem(w, m);
    WrapIdem(w, k);
    WrapSum(w, Wrap(w, m), Wrap(w, k), m, k);
  }

  /** `a b = (a & b)(a | b) + (a & ~b)(~a & b)`. */
  lemma TimesByMasks(w: nat, a: nat, b: nat, na: nat, nb: nat)
    requires a < Pow2(w) && b < Pow2(w) && na == NotV(w, a) && nb == NotV(w, b)
    ensures AddV(w, MulV(w, Gated(And, w, a, b), Gated(Or, w, a, b)),
                    MulV(w, Gated(And, w, a, nb), Gated(And, w, na, b))) == MulV(w, a, b)
  {
    var p, q, r := Gated(And, w, a, b), Gated(And, w, a, nb), Gated(And, w, na, b);
    MaskParts(w, a, b, na, nb);
    SumOfProducts(w, p, q, r, a, b, Gated(Or, w, a, b));
  }

  lemma MaskParts(w: nat, a: nat, b: nat, na: nat, nb: nat)
    requires a < Pow2(w) && b < Pow2(w) && na == NotV(w, a) && nb == NotV(w, b)
    ensures var p, q, r := Gated(And, w, a, b), Gated(And, w, a, nb), Gated(And, w, na, b);
      a == p + q && b == p + r && Gated(Or, w, a, b) == p + q + r
  {
    Complement(w, a);
    Complement(w, b);
    MaskSplit(w, a, b, nb);
    MaskSplit(w, b, a, na);
    GatedCommutes(And, w, b, a);
    GatedCommutes(And, w, b, na);
    SumOfGates(w, a, b);
  }

  lemma SumOfProducts(w: nat, p: nat, q: nat, r: nat, a: nat, b: nat, o: nat)
    requires a == p + q && b == p + r && o == p + q + r
    ensures AddV(w, MulV(w, p, o), MulV(w, q, r)) == MulV(w, a, b)
  {
    ProductOfParts(p, q, r, a, b, o);
    MulVIs(w, p, o);
    MulVIs(w, q, r);
    MulVIs(w, a, b);
    WrapIdem(w, p * o);
    WrapIdem(w, q * r);
    WrapSum(w, Wrap(w, p * o), Wrap(w, q * r), p * o, q * r);
  }

  lemma ProductOfParts(p: int, q: int, r: int, a: int, b: int, o: int)
    requires a == p + q && b == p + r && o == p + q + r
    ensures p * o + q * r == a * b
  {
    assert a * b == p * b + q * b;
    assert p * b == p * p + p * r;
    assert q * b == q * p + q * r;
    assert p * o == p * p + p * q + p * r;
  }

  // ----- the rewriting rules -----

  /** The replacement of `a op b` by one of its identities; addition has two. */
  function Rewrite(op: Op, a: T, b: T, first: bool): T
  {
    match op
    case Plus =>
      if first then Bin(Plus, Bin(BitXor, a, b), Bin(Times, C(2), Bin(BitAnd, a, b)))
      else Bin(Plus, Bin(BitOr, a, b), Bin(BitAnd, a, b))
    case Minus => Bin(Plus, Bin(Plus, a, Not(b)), C(1))
    case Times =>
      Bin(Plus, Bin(Times, Bin(BitAnd, a, b), Bin(BitOr, a, b)),
                Bin(Times, Bin(BitAnd, a, Not(b)), Bin(BitAnd, Not(a), b)))
    case BitXor => Bin(Minus, Bin(BitOr, a, b), Bin(BitAnd, a, b))
    case BitAnd => Bin(Minus, Bin(BitOr, a, b), Bin(BitXor, a, b))
    case BitOr => Bin(Plus, Bin(BitXor, a, b), Bin(BitAnd, a, b))
    case Other(_) => Bin(op, a, b)
  }

  /** Each identity is exact for all operands at every width. */
  lemma RewriteSound(w: nat, env: Env, op: Op, a: T, b: T, first: bool)
    ensures Eval(w, env, Rewrite(op, a, b, first)) == Eval(w, env, Bin(op, a, b))
  {
    match op {
      case Plus => if first { RewritePlus(w, env, a, b); } else { RewriteGate(w, env, op, a, b, first); }
      case Minus => RewriteMinus(w, env, a, b);
      case Times => RewriteTimes(w, env, a, b);
      case BitAnd | BitOr | BitXor => RewriteGate(w, env, op, a, b, first);
      case Other(_) =>
    }
  }

  predicate ArithmeticOp(op: Op) { op.Plus? || op.Minus? || op.Times? }

  predicate BitwiseOp(op: Op) { op.BitAnd? || op.BitOr? || op.BitXor? }

  function Size(t: T): nat
  {
    match t
    case V(_) => 1
    case C(_) => 1
    case Bin(_, a, b) => 1 + Size(a) + Size(b)
    case Not(a) => 1 + Size(a)
  }

  predicate UsesArithmetic(t: T)
  {
    match t
    case V(_) => false
    case C(_) => false
    case Bin(op, a, b) => ArithmeticOp(op) || UsesArithmetic(a) || UsesArithmetic(b)
    case Not(a) => UsesArithmetic(a)
  }

  predicate UsesBitwise(t: T)
  {
    match t
    case V(_) => false
    case C(_) => false
    case Bin(op, a, b) => BitwiseOp(op) || UsesBitwise(a) || UsesBitwise(b)
    case Not(_) => true
  }

  /** Every identity mixes arithmetic with bitwise operators, whatever the operands, and grows the
      expression. */
  lemma RewriteMixes(op: Op, a: T, b: T, first: bool)
    requires ArithmeticOp(op) || BitwiseOp(op)
    ensures UsesArithmetic(Rewrite(op, a, b, first)) && UsesBitwise(Rewrite(op, a, b, first))
    ensures Size(Rewrite(op, a, b, first)) > Size(Bin(op, a, b))
  {
    RewriteUses(op, a, b, first);
    RewriteGrows(op, a, b, first);
  }

  lemma RewriteUses(op: Op, a: T, b: T, first: bool)
    requires ArithmeticOp(op) || BitwiseOp(op)
    ensures UsesArithmetic(Rewrite(op, a, b, first)) && UsesBitwise(Rewrite(op, a, b, first))
  {
    var r := Rewrite(op, a, b, first);
    assert r.Bin? && ArithmeticOp(r.op);
    if op.Times? {
      UsesEither(r.a.op, r.a.a, r.a.b);
      UsesEither(BitAnd, a, b);
    } else if op.Minus? {
      UsesEither(Plus, a, Not(b));
    } else {
      assert r.a.Bin? && BitwiseOp(r.a.op);
      UsesEither(r.a.op, r.a.a, r.a.b);
    }
    UsesEither(r.op, r.a, r.b);
  }

  lemma UsesEither(op: Op, a: T, b: T)
    ensures UsesBitwise(Bin(op, a, b)) <==> BitwiseOp(op) || UsesBitwise(a) || UsesBitwise(b)
    ensures UsesArithmetic(Bin(op, a, b)) <==> ArithmeticOp(op) || UsesArithmetic(a) || UsesArithmetic(b)
  {
  }

  lemma RewriteGrows(op: Op, a: T, b: T, first: bool)
    requires ArithmeticOp(op) || BitwiseOp(op)
    ensures Size(Rewrite(op, a, b, first)) > Size(Bin(op, a, b))
  {
    var r := Rewrite(op, a, b, first);
    SizeBin(op, a, b);
    SizeBin(r.op, r.a, r.b);
    if op.Minus? { SizeBin(Plus, a, Not(b)); } else {
      SizeBin(r.a.op, r.a.a, r.a.b);
      if op.Times? { SizeBin(BitAnd, a, b); }
    }
  }

  lemma SizeBin(op: Op, a: T, b: T)
    ensures Size(Bin(op, a, b)) == 1 + Size(a) + Size(b) && Size(a) > 0 && Size(b) > 0
  {
  }

  /** The value of one operator. */
  lemma EvalBin(w: nat, env: Env, op: Op, a: T, b: T, x: nat, y: nat)
    requires x == Eval(w, env, a) && y == Eval(w, env, b)
    ensures Eval(w, env, Bin(op, a, b)) == OpValue(w, env, op, x, y)
  {
  }

  lemma RewritePlus(w: nat, env: Env, a: T, b: T)
    ensures Eval(w, env, Rewrite(Plus, a, b, true)) == Eval(w, env, Bin(Plus, a, b))
  {
    var x, y := Eval(w, env, a), Eval(w, env, b);
    PlusByXor(w, x, y);
    EvalBin(w, env, BitAnd, a, b, x, y);
    EvalBin(w, env, Times, C(2), Bin(BitAnd, a, b), Wrap(w, 2), Gated(And, w, x, y));
    EvalBin(w, env, BitXor, a, b, x, y);
  }

  lemma RewriteMinus(w: nat, env: Env, a: T, b: T)
    ensures Eval(w, env, Rewrite(Minus, a, b, true)) == Eval(w, env, Bin(Minus, a, b))
  {
    var x, y := Eval(w, env, a), Eval(w, env, b);
    MinusByNot(w, x, y);
    EvalBin(w, env, Plus, a, Not(b), x, NotV(w, y));
  }

  lemma RewriteTimes(w: nat, env: Env, a: T, b: T)
    ensures Eval(w, env, Rewrite(Times, a, b, true)) == Eval(w, env, Bin(Times, a, b))
  {
    var x, y := Eval(w, env, a), Eval(w, env, b);
    EvalMasks(w, env, a, b, x, y);
    TimesByMasks(w, x, y, NotV(w, x), NotV(w, y));
  }

  /** The value of `(a & ~b)(~a & b)` and of `(a & b)(a | b)`. */
  lemma EvalMasks(w: nat, env: Env, a: T, b: T, x: nat, y: nat)
    requires x == Eval(w, env, a) && y == Eval(w, env, b)
    ensures Eval(w, env, Bin(Times, Bin(BitAnd, a, b), Bin(BitOr, a, b))) ==
      MulV(w, Gated(And, w, x, y), Gated(Or, w, x, y))
    ensures Eval(w, env, Bin(Times, Bin(BitAnd, a, Not(b)), Bin(BitAnd, Not(a), b))) ==
      MulV(w, Gated(And, w, x, NotV(w, y)), Gated(And, w, NotV(w, x), y))
  {
    EvalBin(w, env, BitAnd, a, b, x, y);
    EvalBin(w, env, BitOr, a, b, x, y);
    EvalBin(w, env, BitAnd, a, Not(b), x, NotV(w, y));
    EvalBin(w, env, BitAnd, Not(a), b, NotV(w, x), y);
  }

  lemma RewriteGate(w: nat, env: Env, op: Op, a: T, b: T, first: bool)
    requires op.BitAnd? || op.BitOr? || op.BitXor? || (op.Plus? && !first)
    ensures Eval(w, env, Rewrite(op, a, b, first)) == Eval(w, env, Bin(op, a, b))
  {
    EvalGates(w, env, a, b, Eval(w, env, a), Eval(w, env, b));
  }

  /** The bitwise operators and the two sums and differences they are rewritten to. */
  lemma EvalGates(w: nat, env: Env, a: T, b: T, x: nat, y: nat)
    requires x == Eval(w, env, a) && y == Eval(w, env, b)
    ensures Eval(w, env, Bin(Plus, Bin(BitOr, a, b), Bin(BitAnd, a, b))) == Eval(w, env, Bin(Plus, a, b))
    ensures Eval(w, env, Bin(Plus, Bin(BitXor, a, b), Bin(BitAnd, a, b))) == Eval(w, env, Bin(BitOr, a, b))
    ensures Eval(w, env, Bin(Minus, Bin(BitOr, a, b), Bin(BitAnd, a, b))) == Eval(w, env, Bin(BitXor, a, b))
    ensures Eval(w, env, Bin(Minus, Bin(BitOr, a, b), Bin(BitXor, a, b))) == Eval(w, env, Bin(BitAnd, a, b))
  {
    EvalBin(w, env, BitAnd, a, b, x, y);
    EvalBin(w, env, BitOr, a, b, x, y);
    EvalBin(w, env, BitXor, a, b, x, y);
    GateIdentities(w, x, y);
  }

  lemma GateIdentities(w: nat, x: nat, y: nat)
    requires x < Pow2(w) && y < Pow2(w)
    ensures AddV(w, Gated(Or, w, x, y), Gated(And, w, x, y)) == AddV(w, x, y)
    ensures AddV(w, Gated(Xor, w, x, y), Gated(And, w, x, y)) == Gated(Or, w, x, y)
    ensures SubV(w, Gated(Or, w, x, y), Gated(And, w, x, y)) == Gated(Xor, w, x, y)
    ensures SubV(w, Gated(Or, w, x, y), Gated(Xor, w, x, y)) == Gated(And, w, x, y)
  {
    SumOfGates(w, x, y);
    SameSum(w, Gated(Or, w, x, y), Gated(And, w, x, y), x, y);
    PartsOfSum(w, Gated(Or, w, x, y), Gated(Xor, w, x, y), Gated(And, w, x, y));
  }

  lemma SameSum(w: nat, a: nat, b: nat, c: nat, d: nat)
    requires a + b == c + d
    ensures AddV(w, a, b) == AddV(w, c, d)
  {
  }

  lemma PartsOfSum(w: nat, o: nat, x: nat, a: nat)
    requires o == x + a && o < Pow2(w)
    ensures AddV(w, x, a) == o && SubV(w, o, a) == x && SubV(w, o, x) == a
  {
    WrapValue(w, a);
    WrapValue(w, o);
    WrapValue(w, x);
  }

  // ----- the obfuscator -----

  /** `r` is `e` with identities applied at some of the operators at most `depth` deep: the results
      all the random choices can lead to. */
  ghost predicate Rewriting(e: T, r: T, depth: nat)
  {
    if !e.Bin? || depth == 0 then r == e
    else
      exists a: T, b: T ::
        && Rewriting(e.a, a, depth - 1) && Rewriting(e.b, b, depth - 1)
        && KeptOrRewritten(e.op, a, b, r)
  }

  predicate KeptOrRewritten(op: Op, a: T, b: T, r: T)
  {
    r == Bin(op, a, b) || r == Rewrite(op, a, b, true) || r == Rewrite(op, a, b, false)
  }

  /** Every rewriting has the meaning of the original at every width. */
  lemma {:induction false} RewritingSound(w: nat, env: Env, e: T, r: T, depth: nat)
    requires Rewriting(e, r, depth)
    ensures Eval(w, env, r) == Eval(w, env, e)
    decreases depth
  {
    if e.Bin? && depth > 0 {
      var a: T, b: T :|
        && Rewriting(e.a, a, depth - 1) && Rewriting(e.b, b, depth - 1)
        && KeptOrRewritten(e.op, a, b, r);
      RewritingSound(w, env, e.a, a, depth - 1);
      RewritingSound(w, env, e.b, b, depth - 1);
      RewriteSound(w, env, e.op, a, b, true);
      RewriteSound(w, env, e.op, a, b, false);
    }
  }

  /** What the draws after the first `n` make of an expression, and how many draws there are
      then. */
  function Obfuscated(d: Stream, n: nat, e: T, depth: nat): (T, nat)
    decreases depth
  {
    if !e.Bin? || depth == 0 then (e, n)
    else
      var (a, i) := Obfuscated(d, n, e.a, depth - 1);
      var (b, j) := Obfuscated(d, i, e.b, depth - 1);
      if Draw(d, j + 1, 3) == 0 then (Bin(e.op, a, b), j + 1)
      else if e.op.Plus? then (Rewrite(e.op, a, b, Draw(d, j + 2, 2) == 0), j + 2)
      else (Rewrite(e.op, a, b, true), j + 1)
  }

  /** Whatever the draws, the result is one of the rewritings. */
  lemma {:induction false} ObfuscatedRewrites(d: Stream, n: nat, e: T, depth: nat)
    ensures Rewriting(e, Obfuscated(d, n, e, depth).0, depth)
    decreases depth
  {
    if e.Bin? && depth > 0 {
      var (a, i) := Obfuscated(d, n, e.a, depth - 1);
      var (b, j) := Obfuscated(d, i, e.b, depth - 1);
      ObfuscatedRewrites(d, n, e.a, depth - 1);
      ObfuscatedRewrites(d, i, e.b, depth - 1);
      RewritingNode(e, Obfuscated(d, n, e, depth).0, depth, a, b);
    }
  }

  /** Rewrites at random nodes. Whatever the generator yields, the result is one of the rewritings
      and equals the input at every width. */
  method Obfuscate(rng: Rng, e: T, depth: nat) returns (r: T)
    requires rng.Valid()
    modifies rng
    ensures rng.Valid()
    ensures (r, rng.draws) == Obfuscated(rng.stream, old(rng.draws), e, depth)
    ensures Rewriting(e, r, depth) && Same(r, e)
    decreases depth
  {
    r := Choose(rng, e, depth);
    ObfuscatedRewrites(rng.stream, old(rng.draws), e, depth);
    forall w: nat, env: Env ensures Eval(w, env, r) == Eval(w, env, e) {
      RewritingSound(w, env, e, r, depth);
    }
  }

  method Choose(rng: Rng, e: T, depth: nat) returns (r: T)
    requires rng.Valid()
    modifies rng
    ensures rng.Valid()
    ensures (r, rng.draws) == Obfuscated(rng.stream, old(rng.draws), e, depth)
    decreases depth
  {
    if !e.Bin? { return e; }
    var a, b := e.a, e.b;
    if depth > 0 {
      a := Choose(rng, a, depth - 1);
      b := Choose(rng, b, depth - 1);
    }
    if depth == 0 { return Bin(e.op, a, b); }
    var keep := rng.Below(3);
    var coin := 0;
    if keep != 0 && e.op.Plus? { coin := rng.Below(2); }
    r := if keep == 0 then Bin(e.op, a, b) else Rewrite(e.op, a, b, coin == 0);
  }

  lemma RewritingNode(e: T, r: T, depth: nat, a: T, b: T)
    requires e.Bin? && depth > 0 && Rewriting(e.a, a, depth - 1) && Rewriting(e.b, b, depth - 1)
    requires KeptOrRewritten(e.op, a, b, r)
    ensures Rewriting(e, r, depth)
  {
  }

  // ----- terms that are zero -----

  datatype Zero = Triangle | Products | Masks

  /** Half the modulus times an even number, a product less its four masked parts, or a sum's two
      masked parts less the sum. */
  function ZeroTerm(kind: Zero, half: nat, u: T, v: T, c: T): T
  {
    match kind
    case Triangle => Bin(Times, C(half), Bin(Plus, Bin(Times, u, u), u))
    case Products =>
      Bin(Minus,
        Bin(Minus, Bin(Times, u, v), Bin(Times, Bin(BitAnd, u, v), Bin(BitOr, u, v))),
        Bin(Times, Bin(BitAnd, u, Not(v)), Bin(BitAnd, Not(u), v)))
    case Masks =>
      var s := Bin(Plus, u, v);
      Bin(Minus, Bin(Plus, Bin(BitAnd, s, c), Bin(BitAnd, s, Not(c))), s)
  }

  /** `u^2 + u` is even, so half the modulus times it vanishes. */
  lemma TriangleIsZero(w: nat, u: nat, half: nat)
    requires w > 0 && u < Pow2(w) && half == Wrap(w, Pow2(w - 1))
    ensures MulV(w, half, AddV(w, MulV(w, u, u), u)) == 0
  {
    EvenSquareSum(u);
    SquareSum(w, u, u * u);
    WrapValue(w, Pow2(w - 1));
    HalfTimesEven(w, half, (u * u + u) / 2, u * u + u);
  }

  lemma SquareSum(w: nat, u: nat, square: nat)
    requires square == u * u
    ensures AddV(w, MulV(w, u, u), u) == Wrap(w, square + u)
  {
    MulVIs(w, u, u);
    WrapIdem(w, square);
    WrapSum(w, Wrap(w, square), u, square, u);
  }

  lemma {:induction false} EvenSquareSum(u: nat)
    ensures (u * u + u) % 2 == 0
  {
    if u > 0 {
      EvenSquareSum(u - 1);
      assert u * u + u == (u - 1) * (u - 1) + (u - 1) + 2 * u;
    }
  }

  lemma HalfTimesEven(w: nat, h: nat, t: nat, n: nat)
    requires w > 0 && h == Pow2(w - 1) && n == 2 * t
    ensures MulV(w, h, Wrap(w, n)) == 0
  {
    MulVIs(w, h, Wrap(w, n));
    WrapIdem(w, n);
    WrapProduct(w, h, Wrap(w, n), h, n);
    MulDouble(h, t);
    MulComm(Pow2(w), t);
    ShlIs(t, w);
    WrapShift(w, 0, t);
    WrapValue(w, 0);
  }

  lemma ProductsIsZero(w: nat, u: nat, v: nat, nu: nat, nv: nat)
    requires u < Pow2(w) && v < Pow2(w) && nu == NotV(w, u) && nv == NotV(w, v)
    ensures SubV(w, SubV(w, MulV(w, u, v), MulV(w, Gated(And, w, u, v), Gated(Or, w, u, v))),
                    MulV(w, Gated(And, w, u, nv), Gated(And, w, nu, v))) == 0
  {
    TimesByMasks(w, u, v, nu, nv);
    SumThenSubtract(w, MulV(w, u, v), MulV(w, Gated(And, w, u, v), Gated(Or, w, u, v)),
      MulV(w, Gated(And, w, u, nv), Gated(And, w, nu, v)));
  }

  lemma SumThenSubtract(w: nat, n: nat, p: nat, q: nat)
    requires n == AddV(w, p, q)
    ensures SubV(w, SubV(w, n, p), q) == 0
  {
    SubtractFirst(w, n, p + q, p, q);
    WrapIdem(w, q);
    WrapMinus(w, Wrap(w, q), q, q, q);
    WrapValue(w, 0);
  }

  lemma SubtractFirst(w: nat, n: nat, sum: nat, p: nat, q: nat)
    requires n == Wrap(w, sum) && sum == p + q
    ensures SubV(w, n, p) == Wrap(w, q)
  {
    WrapIdem(w, sum);
    WrapMinus(w, n, p, sum, p);
    assert sum - p == q;
  }

  lemma MasksIsZero(w: nat, s: nat, c: nat)
    requires s < Pow2(w) && c < Pow2(w)
    ensures SubV(w, AddV(w, Gated(And, w, s, c), Gated(And, w, s, NotV(w, c))), s) == 0
  {
    Complement(w, c);
    MaskSplit(w, s, c, Pow2(w) - 1 - c);
    WrapValue(w, s);
    WrapValue(w, 0);
  }

  /** Each is zero at its width, for all subterms and all values of the variables. */
  lemma ZeroTermIsZero(w: nat, env: Env, kind: Zero, u: T, v: T, c: T)
    requires w > 0
    ensures Eval(w, env, ZeroTerm(kind, Pow2(w - 1), u, v, c)) == 0
  {
    var x, y := Eval(w, env, u), Eval(w, env, v);
    match kind {
      case Triangle =>
        EvalBin(w, env, Times, u, u, x, x);
        EvalBin(w, env, Plus, Bin(Times, u, u), u, MulV(w, x, x), x);
        TriangleIsZero(w, x, Wrap(w, Pow2(w - 1)));
      case Products =>
        EvalMasks(w, env, u, v, x, y);
        EvalBin(w, env, Times, u, v, x, y);
        ProductsIsZero(w, x, y, NotV(w, x), NotV(w, y));
      case Masks =>
        MaskTermIsZero(w, env, Bin(Plus, u, v), c);
    }
  }

  lemma MaskTermIsZero(w: nat, env: Env, s: T, c: T)
    ensures Eval(w, env, Bin(Minus, Bin(Plus, Bin(BitAnd, s, c), Bin(BitAnd, s, Not(c))), s)) == 0
  {
    var x, y := Eval(w, env, s), Eval(w, env, c);
    EvalBin(w, env, BitAnd, s, c, x, y);
    EvalBin(w, env, BitAnd, s, Not(c), x, NotV(w, y));
    MasksIsZero(w, x, y);
  }

  // ----- the corpus -----

  const X := V("x")
  const Y := V("y")
  const Z := V("z")

  /** The expressions hidden in the corpus. */
  function Targets(): (ts: seq<T>)
    ensures |ts| == 8
  {
    [ Bin(Times, X, Y),
      Bin(Plus, Bin(Times, X, Y), Z),
      Bin(Times, Bin(Plus, X, Y), Z),
      Bin(Minus, Bin(Times, X, X), Y),
      Bin(Plus, X, Y),
      Bin(BitXor, Bin(Times, X, Z), Y),
      Bin(Times, Bin(BitAnd, X, Y), Bin(BitOr, X, Z)),
      Bin(Minus, X, Bin(Times, Y, Z)) ]
  }

  function Vars(): (vs: seq<T>)
    ensures |vs| == 3
  {
    [X, Y, Z]
  }

  /** The zero term the draws after the first `n` pick, and how many draws there are then. */
  function DrawnZero(d: Stream, n: nat, bits: nat): (T, nat)
    requires bits > 0
  {
    var u, v := Vars()[Draw(d, n + 1, 3)], Vars()[Draw(d, n + 2, 3)];
    var k := Draw(d, n + 3, 3);
    if k == 0 then (ZeroTerm(Triangle, Pow2(bits - 1), u, v, X), n + 3)
    else if k == 1 then (ZeroTerm(Products, Pow2(bits - 1), u, v, X), n + 3)
    else (ZeroTerm(Masks, Pow2(bits - 1), u, v, Vars()[Draw(d, n + 4, 3)]), n + 4)
  }

  /** `e` with `k` drawn zero terms added. */
  function WithZeros(d: Stream, n: nat, bits: nat, e: T, k: nat): (T, nat)
    requires bits > 0
  {
    if k == 0 then (e, n)
    else
      var (r, i) := WithZeros(d, n, bits, e, k - 1);
      var (z, j) := DrawnZero(d, i, bits);
      (Bin(Plus, r, z), j)
  }

  /** The rewritten target the draws after the first `n` make. */
  function DrawnBase(ts: seq<T>, d: Stream, n: nat, depth: nat): (T, nat)
    requires |ts| > 0
  {
    Obfuscated(d, n + 1, ts[Draw(d, n + 1, |ts|)], depth)
  }

  /** The entry they make. */
  function DrawnEntry(ts: seq<T>, d: Stream, n: nat, bits: nat, depth: nat): (T, nat)
    requires |ts| > 0 && bits > 0
  {
    var (e, i) := DrawnBase(ts, d, n, depth);
    WithZeros(d, i + 1, bits, e, 1 + Draw(d, i + 1, 2))
  }

  /** What the draws after the first `n` make, and how many there are then, for every `n`. */
  type Drawn = nat -> (T, nat)

  function EntryFrom(ts: seq<T>, d: Stream, bits: nat, depth: nat): Drawn
    requires |ts| > 0 && bits > 0
  {
    n => DrawnEntry(ts, d, n, bits, depth)
  }

  /** The number of draws made before item `k`. */
  function DrawsBefore(item: Drawn, k: nat): nat
  {
    if k == 0 then 0 else item(DrawsBefore(item, k - 1)).1
  }

  /** The items the draws make, one after the other. */
  predicate OneByOne(item: Drawn, corpus: seq<T>)
  {
    forall i :: 0 <= i < |corpus| ==> corpus[i] == item(DrawsBefore(item, i)).0
  }

  predicate IsZeroTerm(bits: nat, z: T, kind: Zero, u: T, v: T, c: T)
    requires bits > 0
  {
    && z == ZeroTerm(kind, Pow2(bits - 1), u, v, c)
    && u in Vars() && v in Vars() && c in Vars()
  }

  /** `r` is `e` plus one of the zero terms, over variables. */
  ghost predicate AddsZero(bits: nat, e: T, r: T)
    requires bits > 0
  {
    && r.Bin? && r.op.Plus? && r.a == e
    && exists kind: Zero, u: T, v: T, c: T :: IsZeroTerm(bits, r.b, kind, u, v, c)
  }

  /** A rewriting `e` of the target `t`, plus one or two zero terms. */
  ghost predicate HidesAs(ts: seq<T>, bits: nat, depth: nat, r: T, t: T, e: T)
    requires bits > 0
  {
    && t in ts && Rewriting(t, e, depth)
    && (AddsZero(bits, e, r) || exists e': T :: AddsZero(bits, e, e') && AddsZero(bits, e', r))
  }

  ghost predicate Hides(ts: seq<T>, bits: nat, depth: nat, r: T)
    requires bits > 0
  {
    exists t: T, e: T :: HidesAs(ts, bits, depth, r, t, e)
  }

  lemma VarDrawn(i: nat)
    requires i < 3
    ensures Vars()[i] in Vars() && X in Vars()
  {
    assert Vars()[0] == X;
  }

  lemma ZeroIsDrawn(d: Stream, n: nat, bits: nat, e: T)
    requires bits > 0
    ensures AddsZero(bits, e, Bin(Plus, e, DrawnZero(d, n, bits).0))
  {
    var i, j, k := Draw(d, n + 1, 3), Draw(d, n + 2, 3), Draw(d, n + 3, 3);
    VarDrawn(i);
    VarDrawn(j);
    var z := DrawnZero(d, n, bits).0;
    if k == 0 {
      assert IsZeroTerm(bits, z, Triangle, Vars()[i], Vars()[j], X);
    } else if k == 1 {
      assert IsZeroTerm(bits, z, Products, Vars()[i], Vars()[j], X);
    } else {
      VarDrawn(Draw(d, n + 4, 3));
      assert IsZeroTerm(bits, z, Masks, Vars()[i], Vars()[j], Vars()[Draw(d, n + 4, 3)]);
    }
  }

  /** Every entry is a rewritten target plus one or two zero terms. */
  lemma EntryHides(ts: seq<T>, d: Stream, n: nat, bits: nat, depth: nat)
    requires |ts| > 0 && bits > 0
    ensures Hides(ts, bits, depth, DrawnEntry(ts, d, n, bits, depth).0)
  {
    var target := ts[Draw(d, n + 1, |ts|)];
    var (e, i) := DrawnBase(ts, d, n, depth);
    ObfuscatedRewrites(d, n + 1, target, depth);
    ZerosHide(ts, d, i + 1, bits, depth, target, e, Draw(d, i + 1, 2));
  }

  lemma ZerosHide(ts: seq<T>, d: Stream, n: nat, bits: nat, depth: nat, target: T, e: T, extra: nat)
    requires bits > 0 && target in ts && Rewriting(target, e, depth) && extra < 2
    ensures Hides(ts, bits, depth, WithZeros(d, n, bits, e, 1 + extra).0)
  {
    ZeroStep(d, n, bits, e, 0);
    if extra > 0 { ZeroStep(d, n, bits, e, 1); }
    assert HidesAs(ts, bits, depth, WithZeros(d, n, bits, e, 1 + extra).0, target, e);
  }

  lemma ZeroStep(d: Stream, n: nat, bits: nat, e: T, k: nat)
    requires bits > 0
    ensures WithZeros(d, n, bits, e, 0).0 == e
    ensures AddsZero(bits, WithZeros(d, n, bits, e, k).0, WithZeros(d, n, bits, e, k + 1).0)
  {
    var (r, i) := WithZeros(d, n, bits, e, k);
    ZeroIsDrawn(d, i, bits, r);
  }

  /** So it equals that target at the corpus width, for all values of the variables. */
  lemma HiddenTarget(ts: seq<T>, bits: nat, depth: nat, r: T) returns (t: T)
    requires bits > 0 && Hides(ts, bits, depth, r)
    ensures t in ts && SameAt(bits, r, t)
  {
    var e: T;
    t, e :| HidesAs(ts, bits, depth, r, t, e);
    forall env: Env ensures Eval(bits, env, r) == Eval(bits, env, t) {
      RewritingSound(bits, env, t, e, depth);
      ZerosAdded(bits, env, e, r);
    }
  }

  lemma ZerosAdded(bits: nat, env: Env, e: T, r: T)
    requires bits > 0
    requires AddsZero(bits, e, r) || exists e': T :: AddsZero(bits, e, e') && AddsZero(bits, e', r)
    ensures Eval(bits, env, r) == Eval(bits, env, e)
  {
    if AddsZero(bits, e, r) {
      ZeroAdded(bits, env, e, r);
    } else {
      var e': T :| AddsZero(bits, e, e') && AddsZero(bits, e', r);
      ZeroAdded(bits, env, e, e');
      ZeroAdded(bits, env, e', r);
    }
  }

  lemma ZeroAdded(bits: nat, env: Env, e: T, r: T)
    requires bits > 0 && AddsZero(bits, e, r)
    ensures Eval(bits, env, r) == Eval(bits, env, e)
  {
    var kind: Zero, u: T, v: T, c: T :| IsZeroTerm(bits, r.b, kind, u, v, c);
    ZeroTermIsZero(bits, env, kind, u, v, c);
    AddZero(bits, env, e, r.b);
  }

  lemma AddZero(w: nat, env: Env, e: T, z: T)
    requires Eval(w, env, z) == 0
    ensures Eval(w, env, Bin(Plus, e, z)) == Eval(w, env, e)
  {
    WrapValue(w, Eval(w, env, e));
  }

  method PickZero(rng: Rng, bits: nat) returns (z: T)
    requires rng.Valid() && bits > 0
    modifies rng
    ensures rng.Valid()
    ensures (z, rng.draws) == DrawnZero(rng.stream, old(rng.draws), bits)
  {
    var u := rng.Pick(Vars());
    var v := rng.Pick(Vars());
    var n := rng.Below(3);
    var kind, c := if n == 0 then Triangle else if n == 1 then Products else Masks, X;
    if kind.Masks? { c := rng.Pick(Vars()); }
    z := ZeroTerm(kind, Pow2(bits - 1), u, v, c);
  }

  /** The entries are determined by the seed, and each hides a target rewritten at most two deep. */
  method NonlinearMbaCorpus(seed: nat, count: nat, bits: nat) returns (corpus: seq<T>)
    requires IsWord(seed) && bits > 0
    ensures |corpus| == count
    ensures exists d: Stream :: IsStream(d, seed) && OneByOne(EntryFrom(Targets(), d, bits, 2), corpus)
    ensures forall i :: 0 <= i < count ==> Hides(Targets(), bits, 2, corpus[i])
  {
    var rng := new Rng(seed);
    corpus := Entries(rng, Targets(), count, bits, 2);
  }

  method Entries(rng: Rng, ts: seq<T>, count: nat, bits: nat, depth: nat) returns (corpus: seq<T>)
    requires rng.Valid() && rng.draws == 0 && |ts| > 0 && bits > 0
    modifies rng
    ensures rng.Valid() && |corpus| == count && OneByOne(EntryFrom(ts, rng.stream, bits, depth), corpus)
    ensures forall i :: 0 <= i < count ==> Hides(ts, bits, depth, corpus[i])
  {
    corpus := [];
    ghost var item := EntryFrom(ts, rng.stream, bits, depth);
    while |corpus| < count
      invariant rng.Valid() && |corpus| <= count
      invariant rng.draws == DrawsBefore(item, |corpus|) && OneByOne(item, corpus)
      decreases count - |corpus|
    {
      var e := NextEntry(rng, ts, bits, depth);
      OneMore(item, corpus, e, rng.draws);
      corpus := corpus + [e];
    }
    forall i | 0 <= i < count ensures Hides(ts, bits, depth, corpus[i]) {
      EntryHides(ts, rng.stream, DrawsBefore(item, i), bits, depth);
    }
  }

  lemma OneMore(item: Drawn, corpus: seq<T>, e: T, n: nat)
    requires OneByOne(item, corpus) && (e, n) == item(DrawsBefore(item, |corpus|))
    ensures OneByOne(item, corpus + [e]) && n == DrawsBefore(item, |corpus + [e]|)
  {
  }

  method NextEntry(rng: Rng, ts: seq<T>, bits: nat, depth: nat) returns (e: T)
    requires rng.Valid() && |ts| > 0 && bits > 0
    modifies rng
    ensures rng.Valid()
    ensures (e, rng.draws) == DrawnEntry(ts, rng.stream, old(rng.draws), bits, depth)
  {
    var base := NextBase(rng, ts, depth);
    var extra := rng.Below(2);
    e := AddZeros(rng, bits, base, 1 + extra);
  }

  method NextBase(rng: Rng, ts: seq<T>, depth: nat) returns (e: T)
    requires rng.Valid() && |ts| > 0
    modifies rng
    ensures rng.Valid()
    ensures (e, rng.draws) == DrawnBase(ts, rng.stream, old(rng.draws), depth)
  {
    var k := rng.Below(|ts|);
    e := Obfuscate(rng, ts[k], depth);
  }

  method AddZeros(rng: Rng, bits: nat, e: T, count: nat) returns (r: T)
    requires rng.Valid() && bits > 0
    modifies rng
    ensures rng.Valid()
    ensures (r, rng.draws) == WithZeros(rng.stream, old(rng.draws), bits, e, count)
  {
    r := e;
    for j := 0 to count
      invariant rng.Valid()
      invariant (r, rng.draws) == WithZeros(rng.stream, old(rng.draws), bits, e, j)
    {
      var zero := PickZero(rng, bits);
      r := Bin(Plus, r, zero);
    }
  }
}
