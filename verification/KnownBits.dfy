/** Which bits of an expression come out the same whatever its symbols stand for, as the rule-case
    tool works it out. */
module KnownBits {
  import opened Words
  import opened BitSerial
  import opened Terms

  // ----- expressions -----

  /** What an expression looks like once simplification markers are dropped and constants folded. */
  datatype Text =
    | TNumber(value: Bits)
    | TMasked(name: string, free: Bits, one: Bits)
    | TOpaque(name: string, w: nat)
    | TNot(t: Text)
    | TNeg(t: Text)

  /** What a slot stands for: an expression, the bits claimed clear and set in it, and its value if
      that is a constant. */
  datatype Binding = Binding(text: Text, zero: Bits, one: Bits, value: Option<Bits>)

  datatype Node =
    | Slot(b: Binding)
    | Number(n: int, w: nat)
    | Opaque(name: string, w: nat)
    | Simplify(a: Node)
    | Not(a: Node)
    | Neg(a: Node)

  function Both(a: Bits, b: Bits): (r: Bits)
    requires |a| == |b|
    ensures |r| == |a|
  {
    seq(|a|, i requires 0 <= i < |a| => a[i] && b[i])
  }

  function Either(a: Bits, b: Bits): (r: Bits)
    requires |a| == |b|
    ensures |r| == |a|
  {
    seq(|a|, i requires 0 <= i < |a| => a[i] || b[i])
  }

  function Negated(a: Bits): (r: Bits)
    ensures |r| == |a|
  {
    OfVal(|a|, 0 - UVal(a))
  }

  /** The claims about a binding's expression are right for every assignment. */
  ghost predicate Correct(b: Binding)
  {
    && |b.zero| == |b.one| == TextWidth(b.text)
    && (b.value.Some? ==> |b.value.value| == |b.one|)
    && forall env: string -> nat ::
      && Consistent(Concrete(b.text, env), b.zero, b.one)
      && (b.value.Some? ==> Concrete(b.text, env) == b.value.value)
  }

  /** Correct bindings all the way down. */
  ghost predicate Valid(n: Node)
  {
    match n
    case Slot(b) => Correct(b)
    case Number(_, _) => true
    case Opaque(_, _) => true
    case Simplify(a) => Valid(a)
    case Not(a) => Valid(a)
    case Neg(a) => Valid(a)
  }

  function Width(n: Node): nat
  {
    match n
    case Slot(b) => |b.one|
    case Number(_, w) => w
    case Opaque(_, w) => w
    case Simplify(a) => Width(a)
    case Not(a) => Width(a)
    case Neg(a) => Width(a)
  }

  /** The constant the tool folds an expression to, if it does. */
  function Value(n: Node): (r: Option<Bits>)
    requires Valid(n)
    ensures r.Some? ==> |r.value| == Width(n)
  {
    match n
    case Slot(b) => b.value
    case Number(k, w) => Some(OfVal(w, k))
    case Opaque(_, _) => None
    case Simplify(a) => Value(a)
    case Not(a) => if Value(a).Some? then Some(NotBits(Value(a).value)) else None
    case Neg(a) => if Value(a).Some? then Some(Negated(Value(a).value)) else None
  }

  function TextOf(n: Node): Text
    requires Valid(n)
  {
    match n
    case Slot(b) => b.text
    case Number(_, _) => TNumber(Value(n).value)
    case Opaque(name, w) => TOpaque(name, w)
    case Simplify(a) => TextOf(a)
    case Not(a) => if Value(n).Some? then TNumber(Value(n).value) else TNot(TextOf(a))
    case Neg(a) => if Value(n).Some? then TNumber(Value(n).value) else TNeg(TextOf(a))
  }

  function TextWidth(t: Text): nat
  {
    match t
    case TNumber(v) => |v|
    case TMasked(_, _, one) => |one|
    case TOpaque(_, w) => w
    case TNot(t) => TextWidth(t)
    case TNeg(t) => TextWidth(t)
  }

  /** The value of an expression when its symbols have the values `env`. */
  function Concrete(t: Text, env: string -> nat): (v: Bits)
    ensures |v| == TextWidth(t)
  {
    match t
    case TNumber(v) => v
    case TMasked(name, free, one) =>
      if |free| == |one| then Either(Both(OfVal(|one|, env(name)), free), one) else one
    case TOpaque(name, w) => OfVal(w, env(name))
    case TNot(t) => NotBits(Concrete(t, env))
    case TNeg(t) => Negated(Concrete(t, env))
  }

  /** What an expression stands for, before anything is folded or printed. */
  function Meaning(n: Node, env: string -> nat): (v: Bits)
    requires Valid(n)
    ensures |v| == Width(n)
  {
    match n
    case Slot(b) => Concrete(b.text, env)
    case Number(k, w) => OfVal(w, k)
    case Opaque(name, w) => OfVal(w, env(name))
    case Simplify(a) => Meaning(a, env)
    case Not(a) => NotBits(Meaning(a, env))
    case Neg(a) => Negated(Meaning(a, env))
  }

  /** The text means what the expression does, and a folded constant is its value for every
      assignment. */
  lemma {:induction false} TextMeans(n: Node, env: string -> nat)
    requires Valid(n)
    ensures Concrete(TextOf(n), env) == Meaning(n, env)
    ensures Value(n).Some? ==> Value(n).value == Meaning(n, env)
  {
    match n {
      case Slot(_) | Number(_, _) | Opaque(_, _) =>
      case Simplify(a) => TextMeans(a, env);
      case Not(a) => TextMeans(a, env);
      case Neg(a) => TextMeans(a, env);
    }
  }

  /** The expression without its simplification markers. */
  function Bare(n: Node): Node
  {
    match n
    case Slot(_) => n
    case Number(_, _) => n
    case Opaque(_, _) => n
    case Simplify(a) => Bare(a)
    case Not(a) => Node.Not(Bare(a))
    case Neg(a) => Node.Neg(Bare(a))
  }

  /** Nothing the tool computes sees the markers. */
  lemma {:induction false} MarkersInvisible(n: Node)
    requires Valid(n)
    ensures Valid(Bare(n)) && Width(Bare(n)) == Width(n)
    ensures Value(Bare(n)) == Value(n) && TextOf(Bare(n)) == TextOf(n) && KnownOf(Bare(n)) == KnownOf(n)
  {
    match n {
      case Slot(_) | Number(_, _) | Opaque(_, _) =>
      case Simplify(a) => MarkersInvisible(a);
      case Not(a) => MarkersInvisible(a);
      case Neg(a) => MarkersInvisible(a);
    }
  }

  // ----- masks -----

  /** `v` has the bits the masks claim. */
  predicate Consistent(v: Bits, zero: Bits, one: Bits)
  {
    && |v| == |zero| == |one|
    && forall i :: 0 <= i < |v| ==> (one[i] ==> v[i]) && (zero[i] ==> !v[i])
  }

  predicate Disjoint(zero: Bits, one: Bits)
  {
    |zero| == |one| && forall i :: 0 <= i < |one| ==> !(zero[i] && one[i])
  }

  // ----- negation bit by bit -----

  /** The carry into bit `k` of `~v + 1`: set while all lower bits of `v` are clear. */
  predicate Carry(v: Bits, k: nat)
    requires k <= |v|
  {
    forall j :: 0 <= j < k ==> !v[j]
  }

  /** Bit `i` of `-v`. */
  predicate NegBit(v: Bits, i: nat)
    requires i < |v|
  {
    !v[i] != Carry(v, i)
  }

  lemma {:induction false} NegatedBits(v: Bits)
    ensures forall i :: 0 <= i < |v| ==> Negated(v)[i] == NegBit(v, i)
  {
    if |v| > 0 {
      var t, r := v[1..], Negated(v);
      NegatedTail(v);
      if v[0] {
        forall i | 0 <= i < |v| ensures r[i] == NegBit(v, i) {
          if i > 0 { assert r[i] == r[1..][i - 1] && !v[i] == NotBits(t)[i - 1]; }
        }
      } else {
        NegatedBits(t);
        forall i | 0 <= i < |v| ensures r[i] == NegBit(v, i) {
          if i > 0 {
            assert r[i] == r[1..][i - 1] && v[i] == t[i - 1];
            CarryTail(v, i);
          }
        }
      }
    }
  }

  lemma CarryTail(v: Bits, i: nat)
    requires 0 < i <= |v| && !v[0]
    ensures Carry(v, i) == Carry(v[1..], i - 1)
  {
    if Carry(v[1..], i - 1) {
      forall j | 0 <= j < i ensures !v[j] { if j > 0 { assert !v[1..][j - 1]; } }
    }
  }

  /** Negating keeps the lowest bit and complements or negates the rest. */
  lemma NegatedTail(v: Bits)
    requires |v| > 0
    ensures Negated(v)[0] == v[0]
    ensures Negated(v)[1..] == if v[0] then NotBits(v[1..]) else Negated(v[1..])
  {
    var n, t := 0 - UVal(v), v[1..];
    HalfOfNegative(Bit(v[0]), UVal(t), n, 0 - UVal(t) - Bit(v[0]));
    assert Negated(v)[1..] == OfVal(|t|, n / 2);
    if v[0] { NotAsNumber(t, n / 2); }
  }

  lemma HalfOfNegative(b: nat, t: nat, n: int, m: int)
    requires b < 2 && n == 0 - (b + 2 * t) && m == 0 - t - b
    ensures n / 2 == m && n % 2 == b
  {
  }

  lemma {:induction false} NotAsNumber(t: Bits, n: int)
    requires n == -1 - UVal(t)
    ensures OfVal(|t|, n) == NotBits(t)
  {
    if |t| > 0 {
      HalfOfNegative(1 - Bit(t[0]), UVal(t[1..]) + Bit(t[0]), n, -1 - UVal(t[1..]));
      NotAsNumber(t[1..], n / 2);
      NotBitsTail(t);
      assert NotBits(t) == [!t[0]] + NotBits(t[1..]);
    }
  }

  /** Bit `i` of the negation is `b` for every value with the claimed bits. */
  ghost predicate NegAlways(zero: Bits, one: Bits, i: nat, b: bool)
  {
    forall v: Bits :: Consistent(v, zero, one) && i < |v| ==> NegBit(v, i) == b
  }

  /** The values the complement's bit can take. */
  function Choices(zero: bool, one: bool): set<nat>
  {
    if one then {0} else if zero then {1} else {0, 1}
  }

  function Sums(choices: set<nat>, carries: set<nat>): set<nat>
  {
    set v, c | v in choices && c in carries :: v + c
  }

  /** The carries that some consistent value produces, and no others. */
  ghost predicate Reachable(zero: Bits, one: Bits, k: nat, carries: set<nat>)
    requires |zero| == |one| && k <= |one|
  {
    && carries <= {0, 1}
    && (forall v: Bits :: Consistent(v, zero, one) ==> Bit(Carry(v, k)) in carries)
    && (0 in carries ==> exists v: Bits :: Consistent(v, zero, one) && !Carry(v, k))
    && (1 in carries ==> exists v: Bits :: Consistent(v, zero, one) && Carry(v, k))
  }

  /** One consistent value. */
  lemma Witness(zero: Bits, one: Bits)
    requires Disjoint(zero, one)
    ensures Consistent(one, zero, one)
  {
  }

  /** A bit can be chosen freely without disturbing the carry into it. */
  lemma Splice(zero: Bits, one: Bits, k: nat, v: Bits, choice: nat) returns (u: Bits)
    requires Disjoint(zero, one) && k < |one| && Consistent(v, zero, one)
    requires choice in Choices(zero[k], one[k])
    ensures Consistent(u, zero, one) && Carry(u, k) == Carry(v, k) && Bit(!u[k]) == choice
    ensures NegBit(u, k) == ((choice + Bit(Carry(v, k))) % 2 == 1)
    ensures Bit(Carry(u, k + 1)) == (choice + Bit(Carry(v, k))) / 2
  {
    u := v[k := choice == 0];
    assert forall j :: 0 <= j < k ==> u[j] == v[j];
  }

  /** Every sum at bit `k` comes from a consistent value, and the other way round. */
  lemma SumsReachable(zero: Bits, one: Bits, k: nat, carries: set<nat>, s: nat) returns (u: Bits)
    requires Disjoint(zero, one) && k < |one| && Reachable(zero, one, k, carries)
    requires s in Sums(Choices(zero[k], one[k]), carries)
    ensures Consistent(u, zero, one) && NegBit(u, k) == (s % 2 == 1) && Bit(Carry(u, k + 1)) == s / 2
  {
    var choice, c :| choice in Choices(zero[k], one[k]) && c in carries && s == choice + c;
    var v: Bits;
    if c == 0 { v :| Consistent(v, zero, one) && !Carry(v, k); } else { v :| Consistent(v, zero, one) && Carry(v, k); }
    u := Splice(zero, one, k, v, choice);
  }

  lemma SumOf(zero: Bits, one: Bits, k: nat, carries: set<nat>, v: Bits)
    requires Disjoint(zero, one) && k < |one| && Reachable(zero, one, k, carries)
    requires Consistent(v, zero, one)
    ensures var s := Bit(!v[k]) + Bit(Carry(v, k));
      && s in Sums(Choices(zero[k], one[k]), carries)
      && NegBit(v, k) == (s % 2 == 1) && Bit(Carry(v, k + 1)) == s / 2
  {
    assert Bit(!v[k]) in Choices(zero[k], one[k]) && Bit(Carry(v, k)) in carries;
  }

  function CarriesOf(sums: set<nat>): set<nat> { set s | s in sums :: s / 2 }

  lemma FirstCarry(zero: Bits, one: Bits)
    requires Disjoint(zero, one)
    ensures Reachable(zero, one, 0, {1})
  {
    Witness(zero, one);
    assert Carry(one, 0);
  }

  /** One step: the new carries are again exactly the reachable ones. */
  lemma NextCarries(zero: Bits, one: Bits, k: nat, carries: set<nat>, next: set<nat>)
    requires Disjoint(zero, one) && k < |one| && Reachable(zero, one, k, carries)
    requires next == CarriesOf(Sums(Choices(zero[k], one[k]), carries))
    ensures Reachable(zero, one, k + 1, next)
  {
    forall v: Bits | Consistent(v, zero, one) ensures Bit(Carry(v, k + 1)) in next {
      NextCarryIn(zero, one, k, carries, v);
    }
    if 0 in next { var u := NextCarryFrom(zero, one, k, carries, 0); }
    if 1 in next { var u := NextCarryFrom(zero, one, k, carries, 1); }
  }

  lemma NextCarryIn(zero: Bits, one: Bits, k: nat, carries: set<nat>, v: Bits)
    requires Disjoint(zero, one) && k < |one| && Reachable(zero, one, k, carries)
    requires Consistent(v, zero, one)
    ensures Bit(Carry(v, k + 1)) in CarriesOf(Sums(Choices(zero[k], one[k]), carries))
  {
    SumOf(zero, one, k, carries, v);
    var s := Bit(!v[k]) + Bit(Carry(v, k));
    assert s / 2 in CarriesOf(Sums(Choices(zero[k], one[k]), carries));
  }

  lemma NextCarryFrom(zero: Bits, one: Bits, k: nat, carries: set<nat>, c: nat) returns (u: Bits)
    requires Disjoint(zero, one) && k < |one| && Reachable(zero, one, k, carries)
    requires c in CarriesOf(Sums(Choices(zero[k], one[k]), carries))
    ensures Consistent(u, zero, one) && c == Bit(Carry(u, k + 1))
  {
    var s :| s in Sums(Choices(zero[k], one[k]), carries) && c == s / 2;
    u := SumsReachable(zero, one, k, carries, s);
  }

  /** The bit is known exactly when all sums have it. */
  lemma NegKnownBit(zero: Bits, one: Bits, k: nat, carries: set<nat>, values: set<nat>, b: bool)
    requires Disjoint(zero, one) && k < |one| && Reachable(zero, one, k, carries)
    requires values == set s | s in Sums(Choices(zero[k], one[k]), carries) :: s % 2
    ensures values == {Bit(b)} <==> NegAlways(zero, one, k, b)
  {
    Witness(zero, one);
    SumOf(zero, one, k, carries, one);
    if values == {Bit(b)} {
      forall v: Bits | Consistent(v, zero, one) ensures NegBit(v, k) == b {
        SumOf(zero, one, k, carries, v);
        assert (Bit(!v[k]) + Bit(Carry(v, k))) % 2 in values;
      }
    }
    if NegAlways(zero, one, k, b) {
      forall x | x in values ensures x == Bit(b) {
        var s :| s in Sums(Choices(zero[k], one[k]), carries) && x == s % 2;
        var u := SumsReachable(zero, one, k, carries, s);
      }
      assert (Bit(!one[k]) + Bit(Carry(one, k))) % 2 in values;
    }
  }

  /** The first `k` bits of a mask are those on which all consistent values agree to be `b`. */
  ghost predicate Reports(zero: Bits, one: Bits, b: bool, out: Bits, k: nat)
  {
    |out| == k && forall i :: 0 <= i < k ==> (out[i] <==> NegAlways(zero, one, i, b))
  }

  lemma ReportsNext(zero: Bits, one: Bits, b: bool, out: Bits, k: nat, bit: bool)
    requires Reports(zero, one, b, out, k) && bit == NegAlways(zero, one, k, b)
    ensures Reports(zero, one, b, out + [bit], k + 1)
  {
  }

  /** From an operand's known bits to those of its negation, keeping every carry that may come in. A
      bit is reported exactly when all values with the operand's known bits agree on it. */
  method NegKnown(zero: Bits, one: Bits) returns (outZero: Bits, outOne: Bits)
    requires Disjoint(zero, one)
    ensures Reports(zero, one, false, outZero, |one|)
    ensures Reports(zero, one, true, outOne, |one|)
  {
    outZero, outOne := [], [];
    var carries := {1};
    FirstCarry(zero, one);
    for bit := 0 to |one|
      invariant Reachable(zero, one, bit, carries)
      invariant Reports(zero, one, false, outZero, bit)
      invariant Reports(zero, one, true, outOne, bit)
    {
      var sums := Sums(Choices(zero[bit], one[bit]), carries);
      var values := set s | s in sums :: s % 2;
      NegKnownBit(zero, one, bit, carries, values, false);
      NegKnownBit(zero, one, bit, carries, values, true);
      ReportsNext(zero, one, false, outZero, bit, values == {0});
      ReportsNext(zero, one, true, outOne, bit, values == {1});
      outZero := outZero + [values == {0}];
      outOne := outOne + [values == {1}];
      NextCarries(zero, one, bit, carries, CarriesOf(sums));
      carries := CarriesOf(sums);
    }
  }

  // ----- the analysis -----

  datatype Known = Known(zero: Bits, one: Bits)

  /** The best possible masks for the negation of an operand with the given masks. */
  ghost function BestNeg(k: Known): (r: Known)
    ensures |r.zero| == |r.one| == |k.one|
  {
    Known(seq(|k.one|, i => i >= 0 && NegAlways(k.zero, k.one, i, false)),
          seq(|k.one|, i => i >= 0 && NegAlways(k.zero, k.one, i, true)))
  }

  /** The masks of known clear and known set bits. */
  ghost function KnownOf(n: Node): (k: Known)
    requires Valid(n)
    ensures |k.zero| == |k.one| == Width(n)
  {
    if Value(n).Some? then Known(NotBits(Value(n).value), Value(n).value)
    else
      match n
      case Slot(b) => Known(b.zero, b.one)
      case Number(_, w) => Known(Zeros(w), Zeros(w))
      case Opaque(_, w) => Known(Zeros(w), Zeros(w))
      case Simplify(a) => KnownOf(a)
      case Not(a) => Known(KnownOf(a).one, KnownOf(a).zero)
      case Neg(a) => BestNeg(KnownOf(a))
  }

  /** The claimed bits are right for every assignment. */
  lemma {:induction false} KnownSound(n: Node, env: string -> nat)
    requires Valid(n)
    ensures Consistent(Meaning(n, env), KnownOf(n).zero, KnownOf(n).one)
  {
    if Value(n).Some? {
      TextMeans(n, env);
      ConstantSound(Value(n).value);
    } else {
      match n {
        case Slot(_) | Number(_, _) | Opaque(_, _) =>
        case Simplify(a) => KnownSound(a, env);
        case Not(a) =>
          KnownSound(a, env);
          NotSound(Meaning(a, env), KnownOf(a));
        case Neg(a) =>
          KnownSound(a, env);
          NegSound(Meaning(a, env), KnownOf(a));
      }
    }
  }

  lemma ConstantSound(v: Bits)
    ensures Consistent(v, NotBits(v), v)
  {
  }

  lemma NotSound(v: Bits, k: Known)
    requires Consistent(v, k.zero, k.one)
    ensures Consistent(NotBits(v), k.one, k.zero)
  {
  }

  lemma NegSound(v: Bits, k: Known)
    requires Consistent(v, k.zero, k.one)
    ensures Consistent(Negated(v), BestNeg(k).zero, BestNeg(k).one)
  {
    NegatedBits(v);
  }

  /** No bit is claimed both clear and set. */
  lemma KnownDisjoint(n: Node)
    requires Valid(n)
    ensures Disjoint(KnownOf(n).zero, KnownOf(n).one)
  {
    KnownSound(n, _ => 0);
  }

  method Analyse(n: Node) returns (zero: Bits, one: Bits)
    requires Valid(n)
    ensures Known(zero, one) == KnownOf(n)
    decreases n
  {
    var value := Value(n);
    if value.Some? { return NotBits(value.value), value.value; }
    match n {
      case Slot(b) => return b.zero, b.one;
      case Number(_, w) => return Zeros(w), Zeros(w);
      case Opaque(_, w) => return Zeros(w), Zeros(w);
      case Simplify(a) => zero, one := Analyse(a);
      case Not(a) =>
        zero, one := Analyse(a);
        return one, zero;
      case Neg(a) =>
        var z, o := Analyse(a);
        KnownDisjoint(a);
        zero, one := NegKnown(z, o);
        assert zero == BestNeg(Known(z, o)).zero && one == BestNeg(Known(z, o)).one;
    }
  }

  // ----- the bindings the tool builds -----

  /** A symbol with the bits of `one` forced on and those outside `free` and `one` forced off. */
  function Masked(name: string, free: Bits, one: Bits): Binding
    requires |free| == |one|
  {
    var free' := Both(free, NotBits(one));
    var value := if free' == Zeros(|free|) then Some(one) else None;
    Binding(TMasked(name, free', one), NotBits(Either(free', one)), one, value)
  }

  /** The symbol's bits where `free` has them, with those of `one` set; a constant exactly when no
      bit is left to the symbol. */
  lemma MaskedCorrect(name: string, free: Bits, one: Bits)
    requires |free| == |one|
    ensures Correct(Masked(name, free, one))
    ensures forall env: string -> nat, i: nat :: i < |one| ==>
      (Concrete(Masked(name, free, one).text, env)[i] <==> one[i] || (free[i] && OfVal(|one|, env(name))[i]))
    ensures Masked(name, free, one).value.Some? <==> forall i :: 0 <= i < |one| && free[i] ==> one[i]
  {
    var b := Masked(name, free, one);
    assert forall i :: 0 <= i < |one| ==> b.text.free[i] == (free[i] && !one[i]);
    if forall i :: 0 <= i < |one| && free[i] ==> one[i] { assert b.text.free == Zeros(|one|); }
    forall env: string -> nat
      ensures Consistent(Concrete(b.text, env), b.zero, b.one)
      ensures b.value.Some? ==> Concrete(b.text, env) == b.value.value
    {
      var v := Concrete(b.text, env);
      if b.value.Some? {
        forall i | 0 <= i < |v| ensures v[i] == one[i] { assert b.text.free[i] == Zeros(|free|)[i]; }
      }
    }
  }

  /** A symbol one above a multiple of four... */
  function Positive(name: string, w: nat): Binding
    requires w >= 3
  {
    Masked(name, [false, false] + Ones(w - 2), [true] + Zeros(w - 1))
  }

  /** ... and its negation, of which the tool claims by hand that the two low bits are set. */
  function Negative(name: string, w: nat): Binding
    requires w >= 3
  {
    Binding(TNeg(Positive(name, w).text), Zeros(w), [true, true] + Zeros(w - 2), None)
  }

  lemma NegativeCorrect(name: string, w: nat)
    requires w >= 3
    ensures Correct(Negative(name, w)) && Negative(name, w).one[0] && Negative(name, w).one[1]
    ensures forall env: string -> nat ::
      Concrete(Negative(name, w).text, env) == Negated(Concrete(Positive(name, w).text, env))
  {
    var p, b := Positive(name, w), Negative(name, w);
    PositiveBits(name, w);
    forall env: string -> nat ensures Consistent(Concrete(b.text, env), b.zero, b.one) {
      NegatedLowBits(Concrete(p.text, env));
      LowBitsSet(Concrete(b.text, env), w);
    }
  }

  lemma PositiveBits(name: string, w: nat)
    requires w >= 3
    ensures TextWidth(Positive(name, w).text) == w
    ensures forall env: string -> nat :: var v := Concrete(Positive(name, w).text, env); v[0] && !v[1]
  {
    MaskedCorrect(name, [false, false] + Ones(w - 2), [true] + Zeros(w - 1));
    assert Positive(name, w).one[0] && Positive(name, w).zero[1];
  }

  lemma LowBitsSet(v: Bits, w: nat)
    requires |v| == w >= 2 && v[0] && v[1]
    ensures Consistent(v, Zeros(w), [true, true] + Zeros(w - 2))
  {
  }

  lemma NegatedLowBits(v: Bits)
    requires |v| >= 2 && v[0] && !v[1]
    ensures Negated(v)[0] && Negated(v)[1]
  {
    NegatedTail(v);
    assert Negated(v)[1..][0] == !v[1..][0];
  }

  /** A slot standing for another expression: its value if it folds, and nothing claimed otherwise. */
  function Alias(n: Node): Binding
    requires Valid(n)
  {
    Binding(TextOf(n), Zeros(Width(n)), Zeros(Width(n)), Value(n))
  }

  /** The alias means the same and folds to the same. */
  lemma AliasCorrect(n: Node)
    requires Valid(n)
    ensures Correct(Alias(n)) && Width(Slot(Alias(n))) == Width(n)
    ensures Value(Slot(Alias(n))) == Value(n) && TextOf(Slot(Alias(n))) == TextOf(n)
    ensures forall env: string -> nat :: Meaning(Slot(Alias(n)), env) == Meaning(n, env)
  {
    TextMeans(n, _ => 0);
    forall env: string -> nat
      ensures Consistent(Concrete(TextOf(n), env), Zeros(Width(n)), Zeros(Width(n)))
      ensures Concrete(TextOf(n), env) == Meaning(n, env)
      ensures Value(n).Some? ==> Concrete(TextOf(n), env) == Value(n).value
    {
      TextMeans(n, env);
    }
  }

  // ----- how much the analysis finds -----

  /** Built from masked symbols, unmasked ones and numbers. */
  ghost predicate Plain(n: Node)
  {
    match n
    case Slot(b) => exists name: string, free: Bits, one: Bits :: |free| == |one| && b == Masked(name, free, one)
    case Number(_, _) => true
    case Opaque(_, _) => true
    case Simplify(a) => Plain(a)
    case Not(a) => Plain(a)
    case Neg(a) => Plain(a)
  }

  function Negations(n: Node): nat
  {
    match n
    case Slot(_) => 0
    case Number(_, _) => 0
    case Opaque(_, _) => 0
    case Simplify(a) => Negations(a)
    case Not(a) => Negations(a)
    case Neg(a) => 1 + Negations(a)
  }

  /** Every assignment gives bit `i` the value `b`. */
  ghost predicate Agreed(n: Node, i: nat, b: bool)
    requires Valid(n) && i < Width(n)
  {
    forall env: string -> nat :: Meaning(n, env)[i] == b
  }

  /** Without negation every value the masks allow is that of some assignment. */
  lemma {:induction false} Covers(n: Node, v: Bits) returns (env: string -> nat)
    requires Valid(n) && Plain(n) && Negations(n) == 0 && Value(n).None?
    requires Consistent(v, KnownOf(n).zero, KnownOf(n).one)
    ensures Meaning(n, env) == v
  {
    match n {
      case Slot(b) =>
        var name: string, free: Bits, one: Bits :| |free| == |one| && b == Masked(name, free, one);
        OfValUVal(v);
        env := _ => UVal(v);
        MaskedReaches(name, free, one, v, env);
      case Opaque(_, _) =>
        OfValUVal(v);
        env := _ => UVal(v);
      case Simplify(a) => env := Covers(a, v);
      case Not(a) =>
        env := Covers(a, NotBits(v));
        NotTwice(v);
    }
  }

  lemma MaskedReaches(name: string, free: Bits, one: Bits, v: Bits, env: string -> nat)
    requires |free| == |one| == |v| && OfVal(|v|, env(name)) == v
    requires var b := Masked(name, free, one); Consistent(v, b.zero, b.one)
    ensures Concrete(Masked(name, free, one).text, env) == v
  {
    var b := Masked(name, free, one);
    var r := Concrete(b.text, env);
    assert r == Either(Both(v, b.text.free), one);
    forall i | 0 <= i < |v| ensures r[i] == v[i] {
      assert b.zero[i] == !(b.text.free[i] || one[i]);
    }
  }

  lemma NotTwice(v: Bits)
    ensures NotBits(NotBits(v)) == v
  {
  }

  /** With at most one negation the analysis misses nothing: a bit is reported exactly when all
      assignments agree on it. */
  lemma {:induction false} KnownExact(n: Node, i: nat)
    requires Valid(n) && Plain(n) && Negations(n) <= 1 && i < Width(n)
    ensures KnownOf(n).zero[i] <==> Agreed(n, i, false)
    ensures KnownOf(n).one[i] <==> Agreed(n, i, true)
  {
    if Value(n).Some? {
      ConstantExact(n, i);
    } else if Negations(n) == 0 {
      CoveredExact(n, i);
    } else {
      match n {
        case Simplify(a) =>
          KnownExact(a, i);
          AgreedSame(n, a, i);
        case Not(a) =>
          KnownExact(a, i);
          AgreedNot(a, i);
        case Neg(a) => NegationExact(a, i);
      }
    }
  }

  lemma ConstantExact(n: Node, i: nat)
    requires Valid(n) && Value(n).Some? && i < Width(n)
    ensures KnownOf(n).zero[i] <==> Agreed(n, i, false)
    ensures KnownOf(n).one[i] <==> Agreed(n, i, true)
  {
    forall env: string -> nat ensures Meaning(n, env) == Value(n).value { TextMeans(n, env); }
    assert Meaning(n, _ => 0) == Value(n).value;
  }

  lemma CoveredExact(n: Node, i: nat)
    requires Valid(n) && Plain(n) && Negations(n) == 0 && Value(n).None? && i < Width(n)
    ensures KnownOf(n).zero[i] <==> Agreed(n, i, false)
    ensures KnownOf(n).one[i] <==> Agreed(n, i, true)
  {
    var k := KnownOf(n);
    forall env: string -> nat ensures Consistent(Meaning(n, env), k.zero, k.one) { KnownSound(n, env); }
    KnownDisjoint(n);
    var low := Covers(n, k.one);
    var high := Covers(n, NotBits(k.zero));
    assert Meaning(n, low)[i] == k.one[i] && Meaning(n, high)[i] == !k.zero[i];
  }

  lemma AgreedSame(n: Node, a: Node, i: nat)
    requires Valid(n) && n == Simplify(a) && i < Width(n)
    ensures forall b: bool :: Agreed(n, i, b) <==> Agreed(a, i, b)
  {
    assert forall env: string -> nat :: Meaning(n, env) == Meaning(a, env);
  }

  lemma AgreedNot(a: Node, i: nat)
    requires Valid(a) && i < Width(a)
    ensures forall b: bool :: Agreed(Node.Not(a), i, b) <==> Agreed(a, i, !b)
  {
    forall env: string -> nat ensures Meaning(Node.Not(a), env)[i] == !Meaning(a, env)[i] { }
  }

  lemma NegationExact(a: Node, i: nat)
    requires Valid(a) && Plain(a) && Negations(a) == 0 && Value(a).None? && i < Width(a)
    ensures BestNeg(KnownOf(a)).zero[i] <==> Agreed(Node.Neg(a), i, false)
    ensures BestNeg(KnownOf(a)).one[i] <==> Agreed(Node.Neg(a), i, true)
  {
    NegationAgrees(a, i, false);
    NegationAgrees(a, i, true);
  }

  lemma NegationAgrees(a: Node, i: nat, b: bool)
    requires Valid(a) && Plain(a) && Negations(a) == 0 && Value(a).None? && i < Width(a)
    ensures NegAlways(KnownOf(a).zero, KnownOf(a).one, i, b) <==> Agreed(Node.Neg(a), i, b)
  {
    var k := KnownOf(a);
    if NegAlways(k.zero, k.one, i, b) {
      forall env: string -> nat ensures Meaning(Node.Neg(a), env)[i] == b {
        KnownSound(a, env);
        NegatedBits(Meaning(a, env));
      }
    }
    if Agreed(Node.Neg(a), i, b) {
      forall v: Bits | Consistent(v, k.zero, k.one) ensures NegBit(v, i) == b {
        var env := Covers(a, v);
        NegatedBits(v);
        assert Meaning(Node.Neg(a), env)[i] == b;
      }
    }
  }

  /** A second negation can lose a bit: of `-(-p)` with `p` below two, bit one is always clear, and
      the analysis does not find it. */
  lemma TwoNegationsLose()
    ensures var n := Node.Neg(Node.Neg(Slot(Masked("p", [true, false], [false, false]))));
      Valid(n) && Plain(n) && Agreed(n, 1, false) && !KnownOf(n).zero[1]
  {
    var b := Masked("p", [true, false], [false, false]);
    MaskedCorrect("p", [true, false], [false, false]);
    assert b.zero == [false, true] && b.one == [false, false];
    var s := Slot(b);
    assert [true, false][0] && ![false, false][0];
    assert Valid(s) && Plain(s) && Value(s).None?;
    LosesBit(s, Node.Neg(s));
  }

  lemma LosesBit(s: Node, m: Node)
    requires Valid(s) && Value(s).None? && KnownOf(s) == Known([false, true], [false, false]) && m == Node.Neg(s)
    ensures Valid(Node.Neg(m)) && Width(m) == 2 && Agreed(Node.Neg(m), 1, false) && !KnownOf(Node.Neg(m)).zero[1]
  {
    NothingLeft([false, true], [false, false]);
    NothingFound();
    assert KnownOf(m) == Known([false, false], [false, false]);
    forall env: string -> nat ensures Meaning(Node.Neg(m), env)[1] == false {
      KnownSound(s, env);
      NegatedSmall(Meaning(s, env));
    }
  }

  /** Of the negation of a number below two no bit is known... */
  lemma NothingLeft(zero: Bits, one: Bits)
    requires zero == [false, true] && one == [false, false]
    ensures BestNeg(Known(zero, one)) == Known([false, false], [false, false])
  {
    assert Consistent([false, false], zero, one) && Consistent([true, false], zero, one);
    assert [true, false][0];
    assert !NegBit([false, false], 0) && NegBit([true, false], 0);
    assert !NegBit([false, false], 1) && NegBit([true, false], 1);
    var k := BestNeg(Known(zero, one));
    forall i | 0 <= i < 2 ensures !k.zero[i] && !k.one[i] { if i == 0 { } else { assert i == 1; } }
    assert k.zero == [false, false] && k.one == [false, false];
  }

  /** ... and then none of the negation of that. */
  lemma NothingFound()
    ensures !BestNeg(Known([false, false], [false, false])).zero[1]
  {
    var v := [true, false];
    assert v[0] && Consistent(v, [false, false], [false, false]) && NegBit(v, 1);
  }

  lemma NegatedSmall(v: Bits)
    requires |v| == 2 && !v[1]
    ensures Negated(Negated(v)) == v
  {
    NegatedBits(v);
    NegatedBits(Negated(v));
  }

  /** A folded expression is one all assignments agree on, and no other is. */
  lemma FoldsExactly(n: Node)
    requires Valid(n) && Plain(n) && Width(n) > 0
    ensures Value(n).Some? <==> forall e: string -> nat, f: string -> nat :: Meaning(n, e) == Meaning(n, f)
  {
    if Value(n).Some? {
      forall e: string -> nat, f: string -> nat ensures Meaning(n, e) == Meaning(n, f) {
        TextMeans(n, e);
        TextMeans(n, f);
      }
    } else {
      var e, f := Varies(n);
    }
  }

  lemma {:induction false} Varies(n: Node) returns (e: string -> nat, f: string -> nat)
    requires Valid(n) && Plain(n) && Width(n) > 0 && Value(n).None?
    ensures Meaning(n, e) != Meaning(n, f)
  {
    match n {
      case Slot(b) =>
        KnownDisjoint(n);
        MaskedLeavesBit(b);
        e := Covers(n, b.one);
        f := Covers(n, NotBits(b.zero));
      case Opaque(name, w) =>
        e, f := _ => 0, _ => 1;
        assert Meaning(n, e)[0] != Meaning(n, f)[0];
      case Simplify(a) => e, f := Varies(a);
      case Not(a) =>
        e, f := Varies(a);
        NotTwice(Meaning(a, e));
        NotTwice(Meaning(a, f));
      case Neg(a) =>
        e, f := Varies(a);
        if Negated(Meaning(a, e)) == Negated(Meaning(a, f)) { NegatedInjective(Meaning(a, e), Meaning(a, f)); }
    }
  }

  lemma MaskedLeavesBit(b: Binding)
    requires Plain(Slot(b)) && b.value.None?
    ensures b.one != NotBits(b.zero)
  {
    var name: string, free: Bits, one: Bits :| |free| == |one| && b == Masked(name, free, one);
    MaskedCorrect(name, free, one);
    var i :| 0 <= i < |one| && free[i] && !one[i];
    assert !b.zero[i];
  }

  lemma {:induction false} NegatedInjective(u: Bits, v: Bits)
    requires |u| == |v| && Negated(u) == Negated(v)
    ensures u == v
  {
    if |u| > 0 {
      NegatedTail(u);
      NegatedTail(v);
      if u[0] {
        NotTwice(u[1..]);
        NotTwice(v[1..]);
      } else {
        NegatedInjective(u[1..], v[1..]);
      }
      assert u == [u[0]] + u[1..] && v == [v[0]] + v[1..];
    }
  }

  // ----- guards -----

  datatype Guard = Compare(op: CmpOp, a: Node, b: Node) | GuardAnd(g: Guard, h: Guard) | GuardOr(g: Guard, h: Guard)

  ghost predicate ValidGuard(g: Guard)
  {
    match g
    case Compare(_, a, b) => Valid(a) && Valid(b)
    case GuardAnd(g, h) => ValidGuard(g) && ValidGuard(h)
    case GuardOr(g, h) => ValidGuard(g) && ValidGuard(h)
  }

  predicate Holds(g: Guard, env: string -> nat)
    requires ValidGuard(g)
  {
    match g
    case Compare(op, a, b) =>
      CmpV(op, Width(a), UVal(Meaning(a, env)), UVal(Meaning(b, env)))
    case GuardAnd(g, h) => Holds(g, env) && Holds(h, env)
    case GuardOr(g, h) => Holds(g, env) || Holds(h, env)
  }

  /** Some bit is known set on one side and known clear on the other. */
  predicate Conflict(a: Known, b: Known)
    requires |a.zero| == |a.one| == |b.zero| == |b.one|
  {
    exists i :: 0 <= i < |a.one| && ((a.zero[i] && b.one[i]) || (b.zero[i] && a.one[i]))
  }

  /** Comparisons that hold of equal operands. */
  predicate Reflexive(op: CmpOp) { op.Eq? || op.Ule? || op.Uge? || op.Sle? || op.Sge? }

  method Conflicting(a: Node, b: Node) returns (c: bool)
    requires Valid(a) && Valid(b) && Width(a) == Width(b)
    ensures c <==> Conflict(KnownOf(a), KnownOf(b))
  {
    var az, ao := Analyse(a);
    var bz, bo := Analyse(b);
    c := exists i :: 0 <= i < |ao| && ((az[i] && bo[i]) || (bz[i] && ao[i]));
  }

  /** Neither folded constants nor identical expressions nor conflicting bits settle the comparison,
      or the widths differ. */
  ghost predicate Unsettled(op: CmpOp, a: Node, b: Node)
    requires Valid(a) && Valid(b)
  {
    || Width(a) != Width(b)
    || (&& (Value(a).None? || Value(b).None?) && TextOf(a) != TextOf(b)
        && (op.Eq? || op.Ne? ==> !Conflict(KnownOf(a), KnownOf(b))))
  }

  /** Decides a comparison from folded constants, identical expressions or conflicting bits; None
      when it refuses. */
  method DecideCompare(op: CmpOp, a: Node, b: Node) returns (r: Option<bool>)
    requires Valid(a) && Valid(b)
    ensures r.Some? ==> forall env: string -> nat :: Holds(Compare(op, a, b), env) == r.value
    ensures r.None? <==> Unsettled(op, a, b)
  {
    if Width(a) != Width(b) { return None; }
    var va, vb := Value(a), Value(b);
    if va.Some? && vb.Some? {
      Constants(op, a, b);
      return Some(CmpV(op, Width(a), UVal(va.value), UVal(vb.value)));
    }
    r := DecideSymbolic(op, a, b);
  }

  method DecideSymbolic(op: CmpOp, a: Node, b: Node) returns (r: Option<bool>)
    requires Valid(a) && Valid(b) && Width(a) == Width(b) && (Value(a).None? || Value(b).None?)
    ensures r.Some? ==> forall env: string -> nat :: Holds(Compare(op, a, b), env) == r.value
    ensures r.None? <==> Unsettled(op, a, b)
  {
    if TextOf(a) == TextOf(b) {
      SameText(op, a, b);
      return Some(Reflexive(op));
    }
    if op.Eq? || op.Ne? {
      var conflict := Conflicting(a, b);
      if conflict {
        Conflicts(op, a, b);
        return Some(op.Ne?);
      }
    }
    return None;
  }

  lemma Constants(op: CmpOp, a: Node, b: Node)
    requires Valid(a) && Valid(b) && Value(a).Some? && Value(b).Some?
    ensures forall env: string -> nat ::
      Holds(Compare(op, a, b), env) == CmpV(op, Width(a), UVal(Value(a).value), UVal(Value(b).value))
  {
    forall env: string -> nat ensures Meaning(a, env) == Value(a).value && Meaning(b, env) == Value(b).value {
      TextMeans(a, env);
      TextMeans(b, env);
    }
  }

  /** Identical texts have the same value for every assignment. */
  lemma SameText(op: CmpOp, a: Node, b: Node)
    requires Valid(a) && Valid(b) && TextOf(a) == TextOf(b)
    ensures forall env: string -> nat :: Holds(Compare(op, a, b), env) == Reflexive(op)
  {
    forall env: string -> nat ensures Meaning(a, env) == Meaning(b, env) {
      TextMeans(a, env);
      TextMeans(b, env);
    }
  }

  lemma Conflicts(op: CmpOp, a: Node, b: Node)
    requires Valid(a) && Valid(b) && Width(a) == Width(b) && (op.Eq? || op.Ne?)
    requires Conflict(KnownOf(a), KnownOf(b))
    ensures forall env: string -> nat :: Holds(Compare(op, a, b), env) == op.Ne?
  {
    forall env: string -> nat ensures UVal(Meaning(a, env)) != UVal(Meaning(b, env)) {
      ConflictDiffers(a, b, env);
    }
  }

  /** Conflicting bits make the values differ for every assignment. */
  lemma ConflictDiffers(a: Node, b: Node, env: string -> nat)
    requires Valid(a) && Valid(b) && Width(a) == Width(b)
    requires Conflict(KnownOf(a), KnownOf(b))
    ensures UVal(Meaning(a, env)) != UVal(Meaning(b, env))
  {
    KnownSound(a, env);
    KnownSound(b, env);
    var x, y := Meaning(a, env), Meaning(b, env);
    if UVal(x) == UVal(y) { UValInjective(x, y); }
  }

  /** A guard is refused for an unsettled comparison that the short circuit does not skip. */
  ghost predicate Refused(g: Guard)
    requires ValidGuard(g)
  {
    match g
    case Compare(op, a, b) => Unsettled(op, a, b)
    case GuardAnd(x, y) => Refused(x) || (Refused(y) && forall env: string -> nat :: Holds(x, env))
    case GuardOr(x, y) => Refused(x) || (Refused(y) && forall env: string -> nat :: !Holds(x, env))
  }

  /** A decided guard holds, or fails, for every assignment. */
  method Decide(g: Guard) returns (r: Option<bool>)
    requires ValidGuard(g)
    ensures r.Some? ==> forall env: string -> nat :: Holds(g, env) == r.value
    ensures r.None? <==> Refused(g)
    decreases g
  {
    match g {
      case Compare(op, a, b) => r := DecideCompare(op, a, b);
      case GuardAnd(x, y) =>
        r := Decide(x);
        assert r.Some? ==> Holds(x, _ => 0) == r.value;
        if r == Some(true) { r := Decide(y); }
      case GuardOr(x, y) =>
        r := Decide(x);
        assert r.Some? ==> Holds(x, _ => 0) == r.value;
        if r == Some(false) { r := Decide(y); }
    }
  }
}
