/** The reference evaluator's operators and expression terms. Evaluation bit by bit is proved equal
    to the integer denotation of the term. */
module Terms {
  import opened Powers
  import opened Words
  import opened Modular
  import opened Bitwise
  import opened BvSpec
  import opened BitSerial
  import opened BitMoves

  datatype UnOp = Not | Neg | Popcnt | Clz | Ctz | Bswap | BitRev

  datatype BinOp =
    | Add | Sub | Mul | UMulHi | SMulHi | UDiv | URem | SDiv | SRem
    | And | Or | Xor | Shl | LShr | AShr | RotL | RotR | Pdep | Pext

  datatype CmpOp = Eq | Ne | Ult | Ule | Ugt | Uge | Slt | Sle | Sgt | Sge

  datatype Term =
    | Const(bits: Bits)
    | Var(index: nat, w: nat)
    | Un(un: UnOp, a: Term)
    | Bin(bin: BinOp, a: Term, b: Term)
    | Cmp(cmp: CmpOp, a: Term, b: Term)
    | Zext(a: Term, w: nat)
    | Sext(a: Term, w: nat)
    | Extract(a: Term, lo: nat, n: nat)
    | Concat(hi: Term, low: Term)
    | Select(c: Term, t: Term, f: Term)

  // ----- typing -----

  function Width(t: Term): nat
  {
    match t
    case Const(b) => |b|
    case Var(_, w) => w
    case Un(_, a) => Width(a)
    case Bin(_, a, _) => Width(a)
    case Cmp(_, _, _) => 1
    case Zext(_, w) => w
    case Sext(_, w) => w
    case Extract(_, _, n) => n
    case Concat(hi, low) => Width(hi) + Width(low)
    case Select(_, t, _) => Width(t)
  }

  /** What the evaluator asserts of a term and its environment. */
  predicate WellTyped(t: Term, env: seq<Bits>)
  {
    match t
    case Const(b) => |b| > 0
    case Var(i, w) => i < |env| && |env[i]| == w > 0
    case Un(_, a) => WellTyped(a, env)
    case Bin(_, a, b) => WellTyped(a, env) && WellTyped(b, env) && Width(a) == Width(b)
    case Cmp(_, a, b) => WellTyped(a, env) && WellTyped(b, env) && Width(a) == Width(b)
    case Zext(a, w) => WellTyped(a, env) && Width(a) <= w
    case Sext(a, w) => WellTyped(a, env) && Width(a) <= w
    case Extract(a, lo, n) => WellTyped(a, env) && n >= 1 && lo + n <= Width(a)
    case Concat(hi, low) => WellTyped(hi, env) && WellTyped(low, env)
    case Select(c, t, f) =>
      WellTyped(c, env) && WellTyped(t, env) && WellTyped(f, env) && Width(c) == 1 && Width(t) == Width(f)
  }

  /** Some subterm swaps the bytes of a width that is not a number of bytes. */
  predicate HasBadBswap(t: Term)
  {
    match t
    case Const(_) => false
    case Var(_, _) => false
    case Un(op, a) => HasBadBswap(a) || (op.Bswap? && Width(a) % 8 != 0)
    case Bin(_, a, b) => HasBadBswap(a) || HasBadBswap(b)
    case Cmp(_, a, b) => HasBadBswap(a) || HasBadBswap(b)
    case Zext(a, _) => HasBadBswap(a)
    case Sext(a, _) => HasBadBswap(a)
    case Extract(a, _, _) => HasBadBswap(a)
    case Concat(hi, low) => HasBadBswap(hi) || HasBadBswap(low)
    case Select(c, t, f) => HasBadBswap(c) || HasBadBswap(t) || HasBadBswap(f)
  }

  // ----- what the operators mean -----

  function UnV(op: UnOp, w: nat, x: nat): nat
  {
    match op
    case Not => Wrap(w, -1 - x)
    case Neg => Wrap(w, 0 - x)
    case Popcnt => Popcount(x)
    case Clz => if BitLen(x) <= w then w - BitLen(x) else 0
    case Ctz => TrailingZeros(w, x)
    case Bswap => SwapV(w / 8, x)
    case BitRev => ReverseV(w, x)
  }

  function BinV(op: BinOp, w: nat, x: nat, y: nat): nat
    requires w > 0
  {
    match op
    case Add => Wrap(w, x + y)
    case Sub => Wrap(w, x - y)
    case Mul => Wrap(w, x * y)
    case UMulHi => UMulHiV(w, x, y)
    case SMulHi => SMulHiV(w, x, y)
    case UDiv => UDivV(w, x, y)
    case URem => URemV(x, y)
    case SDiv => SDivV(w, x, y)
    case SRem => SRemV(w, x, y)
    case And => Gated(Gate.And, w, x, y)
    case Or => Gated(Gate.Or, w, x, y)
    case Xor => Gated(Gate.Xor, w, x, y)
    case Shl => ShlV(w, x, y)
    case LShr => LShrV(x, y)
    case AShr => AShrV(w, x, y)
    case RotL => RotLV(w, x, y)
    case RotR => RotRV(w, x, y)
    case Pdep => PdepV(x, y)
    case Pext => PextV(x, y)
  }

  predicate CmpV(op: CmpOp, w: nat, x: nat, y: nat)
  {
    match op
    case Eq => x == y
    case Ne => x != y
    case Ult => x < y
    case Ule => x <= y
    case Ugt => x > y
    case Uge => x >= y
    case Slt => Signed(w, x) < Signed(w, y)
    case Sle => Signed(w, x) <= Signed(w, y)
    case Sgt => Signed(w, x) > Signed(w, y)
    case Sge => Signed(w, x) >= Signed(w, y)
  }

  /** The integer a well-typed term stands for. */
  function Denote(t: Term, env: seq<Bits>): nat
    requires WellTyped(t, env)
  {
    WidthPositive(t, env);
    match t
    case Const(b) => UVal(b)
    case Var(i, _) => UVal(env[i])
    case Un(op, a) => UnV(op, Width(a), Denote(a, env))
    case Bin(op, a, b) => BinV(op, Width(a), Denote(a, env), Denote(b, env))
    case Cmp(op, a, b) => Bit(CmpV(op, Width(a), Denote(a, env), Denote(b, env)))
    case Zext(a, _) => Denote(a, env)
    case Sext(a, w) => Wrap(w, Signed(Width(a), Denote(a, env)))
    case Extract(a, lo, n) => LowBits(Shr(Denote(a, env), lo), n)
    case Concat(hi, low) => Denote(low, env) + Powers.Shl(Denote(hi, env), Width(low))
    case Select(c, t, f) => if Denote(c, env) == 1 then Denote(t, env) else Denote(f, env)
  }

  lemma {:induction false} WidthPositive(t: Term, env: seq<Bits>)
    requires WellTyped(t, env)
    ensures Width(t) > 0
  {
    match t {
      case Const(_) | Var(_, _) | Cmp(_, _, _) | Extract(_, _, _) =>
      case Un(_, a) => WidthPositive(a, env);
      case Bin(_, a, _) => WidthPositive(a, env);
      case Zext(a, _) => WidthPositive(a, env);
      case Sext(a, _) => WidthPositive(a, env);
      case Concat(hi, _) => WidthPositive(hi, env);
      case Select(_, t, _) => WidthPositive(t, env);
    }
  }

  // ----- operators -----

  /** None only for a byte swap at a width that is not a multiple of eight. */
  method EvalUn(op: UnOp, a: Bits) returns (r: Option<Bits>)
    requires |a| > 0
    ensures r.None? <==> op.Bswap? && |a| % 8 != 0
    ensures r.Some? ==> |r.value| == |a| && UVal(r.value) == UnV(op, |a|, UVal(a))
  {
    match op {
      case Not =>
        NotBitsIs(a);
        NotIsWrap(|a|, UVal(a), UVal(NotBits(a)));
        return Some(NotBits(a));
      case Neg =>
        var n := NegBits(a);
        return Some(n);
      case Popcnt =>
        CountTrueIs(a);
        return Some(Count(a, CountTrue(a)));
      case Clz =>
        LeadingRunIs(a);
        return Some(Count(a, LeadingRun(a)));
      case Ctz =>
        TrailingRunIs(a);
        return Some(Count(a, TrailingRun(a)));
      case Bswap =>
        if |a| % 8 != 0 { return None; }
        ByteSwapIs(a);
        return Some(ByteSwap(a));
      case BitRev =>
        BitRevIs(a);
        return Some(BitMoves.BitRev(a));
    }
  }

  /** A count of at most `|a|` bits fits in `|a|` bits. */
  function Count(a: Bits, n: nat): (r: Bits)
    requires n <= |a|
    ensures |r| == |a| && UVal(r) == n
  {
    Pow2Above(|a|);
    CountToBitsIs(|a|, n);
    CountToBits(|a|, n)
  }

  lemma NotIsWrap(w: nat, x: nat, r: nat)
    requires x < Pow2(w) && r == Pow2(w) - 1 - x
    ensures r == Wrap(w, -1 - x)
  {
    BorrowShift(w, 0);
    ShlOrder(0, 0, w);
    WrapUnique(w, -1 - x, -1, r);
  }

  method EvalBin(op: BinOp, a: Bits, b: Bits) returns (r: Bits)
    requires |a| == |b| > 0
    ensures |r| == |a| && UVal(r) == BinV(op, |a|, UVal(a), UVal(b))
  {
    match op {
      case Add => r := AddBits(a, b);
      case Sub => r := SubBits(a, b);
      case Mul => r := MulBits(a, b);
      case UMulHi => r := MulHiBits(a, b, false);
      case SMulHi => r := MulHiBits(a, b, true);
      case UDiv => r := UDivBits(a, b);
      case URem => r := URemBits(a, b);
      case SDiv => r := SDivBits(a, b);
      case SRem => r := SRemBits(a, b);
      case And =>
        ZipIsGated(Gate.And, a, b);
        r := Zip(Gate.And, a, b);
      case Or =>
        ZipIsGated(Gate.Or, a, b);
        r := Zip(Gate.Or, a, b);
      case Xor =>
        ZipIsGated(Gate.Xor, a, b);
        r := Zip(Gate.Xor, a, b);
      case Shl | LShr | AShr => r := EvalShift(op, a, b);
      case RotL =>
        var c := ValueMod(b, |b|);
        RotLByIs(a, UVal(b), c);
        r := RotLBy(a, c);
      case RotR =>
        var c := ValueMod(b, |b|);
        RotRByIs(a, UVal(b), c);
        r := RotRBy(a, c);
      case Pdep => r := PdepBits(a, b);
      case Pext => r := PextBits(a, b);
    }
  }

  /** Shifts: a count of `w` or more shifts everything out. */
  method EvalShift(op: BinOp, a: Bits, b: Bits) returns (r: Bits)
    requires |a| == |b| > 0 && (op.Shl? || op.LShr? || op.AShr?)
    ensures |r| == |a| && UVal(r) == BinV(op, |a|, UVal(a), UVal(b))
  {
    var c := CountBelow(b, |b|);
    match op {
      case Shl =>
        ShlByIs(a, UVal(b));
        r := if c.Some? then ShlBy(a, c.value) else Zeros(|a|);
        assert r == ShlBy(a, UVal(b));
      case LShr =>
        LShrByIs(a, UVal(b));
        r := if c.Some? then LShrBy(a, c.value) else Zeros(|a|);
        assert r == LShrBy(a, UVal(b));
      case AShr =>
        AShrByIs(a, UVal(b));
        r := if c.Some? then AShrBy(a, c.value) else Fill(|a|, a[|a| - 1]);
        assert r == AShrBy(a, UVal(b));
    }
  }

  method EvalCmp(op: CmpOp, a: Bits, b: Bits) returns (r: bool)
    requires |a| == |b| > 0
    ensures r <==> CmpV(op, |a|, UVal(a), UVal(b))
  {
    if UVal(a) == UVal(b) { UValInjective(a, b); }
    MsbIs(a);
    MsbIs(b);
    match op {
      case Eq => r := a == b;
      case Ne => r := a != b;
      case Ult => r := UltBits(a, b);
      case Ule => var g := UltBits(b, a); r := !g;
      case Ugt => r := UltBits(b, a);
      case Uge => var l := UltBits(a, b); r := !l;
      case Slt => r := SltBits(a, b);
      case Sle => var g := SltBits(b, a); r := !g;
      case Sgt => r := SltBits(b, a);
      case Sge => var l := SltBits(a, b); r := !l;
    }
  }

  // ----- terms -----

  /** Evaluates a term: a vector of the term's width whose value is its denotation, or None exactly
      when some subterm swaps the bytes of a width that is not a number of bytes. */
  method Eval(t: Term, env: seq<Bits>) returns (r: Option<Bits>)
    requires WellTyped(t, env)
    ensures r.None? <==> HasBadBswap(t)
    ensures r.Some? ==> |r.value| == Width(t) && UVal(r.value) == Denote(t, env)
    decreases t
  {
    WidthPositive(t, env);
    match t {
      case Const(b) => return Some(b);
      case Var(i, _) => return Some(env[i]);
      case Un(op, a) =>
        var va := Eval(a, env);
        if va.None? { return None; }
        WidthPositive(a, env);
        r := EvalUn(op, va.value);
      case Bin(op, a, b) =>
        var va := Eval(a, env);
        var vb := Eval(b, env);
        if va.None? || vb.None? { return None; }
        var v := EvalBin(op, va.value, vb.value);
        return Some(v);
      case Cmp(op, a, b) =>
        var va := Eval(a, env);
        var vb := Eval(b, env);
        if va.None? || vb.None? { return None; }
        WidthPositive(a, env);
        var v := EvalCmp(op, va.value, vb.value);
        assert [v][1..] == [];
        return Some([v]);
      case Zext(a, w) =>
        var va := Eval(a, env);
        if va.None? { return None; }
        ZextIs(va.value, w);
        return Some(ZextRaw(va.value, w));
      case Sext(a, w) =>
        var va := Eval(a, env);
        if va.None? { return None; }
        WidthPositive(a, env);
        SextIs(va.value, w);
        MsbIs(va.value);
        return Some(SextRaw(va.value, w));
      case Extract(a, lo, n) =>
        var va := Eval(a, env);
        if va.None? { return None; }
        ExtractIs(va.value, lo, n);
        return Some(ExtractRaw(va.value, lo, n));
      case Concat(hi, low) =>
        var vh := Eval(hi, env);
        var vl := Eval(low, env);
        if vh.None? || vl.None? { return None; }
        UValConcat(vl.value, vh.value);
        return Some(vl.value + vh.value);
      case Select(c, t1, f1) =>
        var vc := Eval(c, env);
        var vt := Eval(t1, env);
        var vf := Eval(f1, env);
        if vc.None? || vt.None? || vf.None? { return None; }
        HalfOf(vc.value);
        UValBound(vc.value);
        assert Pow2(1) == 2;
        return Some(if vc.value[0] then vt.value else vf.value);
    }
  }
}
