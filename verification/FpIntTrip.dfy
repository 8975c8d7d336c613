/** When converting an integer to floating point and back is the identity. */
module FpIntTrip {
  import opened Powers
  import opened Dyadics
  import opened Words
  import opened Nats
  import opened FpFormat
  import opened FpValues
  import opened FpLaws
  import opened FpConvert

  /** There and back, in the modes `rm` and `rm'`. */
  function ThereAndBack(fm: Fmt, rm: Rm, rm': Rm, x: Bits): Bits
    requires |x| > 0
  {
    ToSint(fm, rm', FromSint(fm, rm, x), |x|)
  }

  /** Every integer of `n` bits survives the round trip in every pair of modes. */
  ghost predicate AlwaysSurvives(fm: Fmt, n: nat)
    requires n > 0
  {
    forall rm: Rm, rm': Rm, x: Bits :: |x| == n ==> ThereAndBack(fm, rm, rm', x) == x
  }

  /** An integer survives when its magnitude is a value of the format. */
  lemma EncodableSurvives(fm: Fmt, rm: Rm, rm': Rm, x: Bits)
    requires |x| > 0
    requires SVal(x) != 0 ==> EncodeOk(fm, Magnitude(SVal(x)), 0)
    ensures ThereAndBack(fm, rm, rm', x) == x
  {
    var n, r := SVal(x), FromSint(fm, rm, x);
    FromSintIs(fm, rm, x);
    if n == 0 {
      DecodeSpecial(fm, false);
    } else {
      IntegerRounds(fm, rm, n < 0, Magnitude(n));
    }
    RoundIntOfInt(rm', n);
    ToIntClamps(fm, rm', r, |x|, n);
    MsbIs(x);
    SameSigned(x, ThereAndBack(fm, rm, rm', x));
  }

  /** At a given width a vector is determined by its two's-complement value. */
  lemma SameSigned(x: Bits, y: Bits)
    requires |x| == |y| > 0 && SVal(x) == SVal(y)
    ensures x == y
  {
    MsbIs(x);
    MsbIs(y);
    UValBound(x);
    UValBound(y);
    UValInjective(x, y);
  }

  /** No magnitude up to `2^min(sb, emax)` is lost. */
  lemma SmallIntegerEncodable(fm: Fmt, j: nat, k: nat)
    requires j <= fm.sb && j <= Emax(fm) && 0 < k <= Pow2(j)
    ensures EncodeOk(fm, k, 0)
  {
    QuantumRange(fm);
    BitLenAtMost(k, j);
    if k == Pow2(j) {
      Pow2Mono(j, j + 1);
      BitLenIs(k, j);
      MultipleOfPow(1, j, j - P(fm) + 1);
      ShlOne(j);
    }
  }

  /** Truncating both ways, an integer survives only if its magnitude is a value of the format. */
  lemma TruncatedSurvivor(fm: Fmt, x: Bits, n: int)
    requires |x| > 0 && n == SVal(x) && n != 0 && (n == SMin(|x|) || SMin(|x|) < n < SMax(|x|))
    requires ThereAndBack(fm, Rtz, Rtz, x) == x
    ensures Dyadic(Magnitude(n), 0) <= Omega(fm)
    ensures n > 0 ==> EncodeOk(fm, n, 0)
  {
    var r := FromSint(fm, Rtz, x);
    FromSintRounds(fm, Rtz, x);
    var v := RealVal(fm, r);
    FinRange(fm, r);
    ToIntClamps(fm, Rtz, r, |x|, RoundInt(Rtz, v));
    if n > 0 {
      assert v == n as real;
      EncodableIffRepresentable(fm, n, 0);
    }
  }

  /** The encoding of an integer. */
  lemma OfInteger(w: nat, n: int) returns (x: Bits)
    requires w > 0 && SMin(w) <= n <= SMax(w)
    ensures |x| == w && SVal(x) == n
  {
    SValOfMod(w, n, Encoded(w, n));
    x := OfVal(w, Encoded(w, n));
  }

  /** A power of two above the largest exponent exceeds every finite value. */
  lemma PowerTooLarge(fm: Fmt, j: nat)
    requires j > Emax(fm)
    ensures Dyadic(Pow2(j), 0) > Omega(fm)
  {
    if Dyadic(Pow2(j), 0) <= Omega(fm) {
      BelowOmega(fm, Pow2(j), 0);
      Pow2Mono(j, j + 1);
      BitLenIs(Pow2(j), j);
    }
  }

  /** One above `2^sb` needs one more bit than the format has. */
  lemma OneTooMany(fm: Fmt)
    ensures !EncodeOk(fm, Pow2(fm.sb) + 1, 0)
  {
    var c := Pow2(fm.sb) + 1;
    QuantumRange(fm);
    BitLenIs(c, fm.sb);
    assert LowBits(c, 1) == c % 2;
  }

  lemma NarrowSurvives(fm: Fmt, n: nat)
    requires 0 < n && n - 1 <= Min(fm.sb, Emax(fm))
    ensures AlwaysSurvives(fm, n)
  {
    forall rm: Rm, rm': Rm, x: Bits | |x| == n ensures ThereAndBack(fm, rm, rm', x) == x {
      MsbIs(x);
      if SVal(x) != 0 { SmallIntegerEncodable(fm, n - 1, Magnitude(SVal(x))); }
      EncodableSurvives(fm, rm, rm', x);
    }
  }

  lemma WideFails(fm: Fmt, n: nat)
    requires n - 1 > Min(fm.sb, Emax(fm))
    ensures !AlwaysSurvives(fm, n)
  {
    if n - 1 > Emax(fm) {
      PowerTooLarge(fm, n - 1);
      Lost(fm, n, SMin(n));
    } else {
      Pow2Mono(2, fm.sb);
      Pow2Mono(fm.sb + 1, n - 1);
      OneTooMany(fm);
      Lost(fm, n, Pow2(fm.sb) + 1);
    }
  }

  lemma Lost(fm: Fmt, n: nat, k: int)
    requires n > 0 && k != 0 && (k == SMin(n) || SMin(n) < k < SMax(n))
    requires Dyadic(Magnitude(k), 0) > Omega(fm) || (k > 0 && !EncodeOk(fm, k, 0))
    ensures !AlwaysSurvives(fm, n)
  {
    var x := OfInteger(n, k);
    if AlwaysSurvives(fm, n) { TruncatedSurvivor(fm, x, k); }
  }

  /** The identity holds for every integer of `n` bits and every pair of modes exactly when
      `n - 1 <= min(sb, emax)`. */
  lemma SurvivesIff(fm: Fmt, n: nat)
    requires n > 0
    ensures AlwaysSurvives(fm, n) <==> n - 1 <= Min(fm.sb, Emax(fm))
  {
    if n - 1 <= Min(fm.sb, Emax(fm)) { NarrowSurvives(fm, n); } else { WideFails(fm, n); }
  }

  // ----- unsigned integers -----

  function UnsignedTrip(fm: Fmt, rm: Rm, rm': Rm, x: Bits): Bits
    requires |x| > 0
  {
    ToUint(fm, rm', FromUint(fm, rm, x), |x|)
  }

  ghost predicate AlwaysSurvivesUnsigned(fm: Fmt, n: nat)
    requires n > 0
  {
    forall rm: Rm, rm': Rm, x: Bits :: |x| == n ==> UnsignedTrip(fm, rm, rm', x) == x
  }

  lemma EncodableSurvivesUnsigned(fm: Fmt, rm: Rm, rm': Rm, x: Bits)
    requires |x| > 0 && (UVal(x) != 0 ==> EncodeOk(fm, UVal(x), 0))
    ensures UnsignedTrip(fm, rm, rm', x) == x
  {
    FromUintExact(fm, rm, x, UVal(x));
    ToUintExact(fm, rm', FromUint(fm, rm, x), x, UVal(x));
  }

  lemma ToUintExact(fm: Fmt, rm: Rm, r: Bits, x: Bits, n: nat)
    requires IsFin(fm, r) && RealVal(fm, r) == n as real && |x| > 0 && n == UVal(x)
    ensures ToUint(fm, rm, r, |x|) == x
  {
    RoundIntOfInt(rm, n);
    ToIntClamps(fm, rm, r, |x|, n);
    UValBound(x);
    UValInjective(x, ToUint(fm, rm, r, |x|));
  }

  lemma FromUintExact(fm: Fmt, rm: Rm, x: Bits, n: nat)
    requires |x| > 0 && n == UVal(x) && (n != 0 ==> EncodeOk(fm, n, 0))
    ensures var r := FromUint(fm, rm, x); IsFin(fm, r) && RealVal(fm, r) == n as real
  {
    if n == 0 { DecodeSpecial(fm, false); } else { IntegerRounds(fm, rm, false, n); }
  }

  /** Every number of at most `min(sb, emax + 1)` bits is a value of the format. */
  lemma ShortEncodable(fm: Fmt, n: nat, k: nat)
    requires n <= fm.sb && n <= Emax(fm) + 1 && 0 < k < Pow2(n)
    ensures EncodeOk(fm, k, 0)
  {
    QuantumRange(fm);
    BitLenAtMost(k, n);
  }

  /** Truncating both ways, a number below the largest survives only if it is a value of the format. */
  lemma TruncatedSurvivorUnsigned(fm: Fmt, x: Bits, n: nat)
    requires |x| > 0 && n == UVal(x) && 0 < n < Pow2(|x|) - 1
    requires UnsignedTrip(fm, Rtz, Rtz, x) == x
    ensures EncodeOk(fm, n, 0)
  {
    var r := FromUint(fm, Rtz, x);
    FromUintRounds(fm, Rtz, x);
    var v := RealVal(fm, r);
    FinRange(fm, r);
    ToIntClamps(fm, Rtz, r, |x|, RoundInt(Rtz, v));
    assert v == n as real;
    EncodableIffRepresentable(fm, n, 0);
  }

  lemma OfNatural(w: nat, n: nat) returns (x: Bits)
    requires n < Pow2(w)
    ensures |x| == w && UVal(x) == n
  {
    x := OfVal(w, n);
    UValOfMod(w, n);
  }

  lemma WideFailsUnsigned(fm: Fmt, n: nat)
    requires n > Min(fm.sb, Emax(fm) + 1)
    ensures !AlwaysSurvivesUnsigned(fm, n)
  {
    if n > Emax(fm) + 1 {
      var j := Emax(fm) + 1;
      Pow2Mono(1, j);
      Pow2Mono(j + 1, n);
      PowerNotEncodable(fm, j);
      LostUnsigned(fm, n, Pow2(j));
    } else {
      Pow2Mono(2, fm.sb);
      Pow2Mono(fm.sb + 1, n);
      OneTooMany(fm);
      LostUnsigned(fm, n, Pow2(fm.sb) + 1);
    }
  }

  lemma LostUnsigned(fm: Fmt, n: nat, k: nat)
    requires n > 0 && 0 < k < Pow2(n) - 1 && !EncodeOk(fm, k, 0)
    ensures !AlwaysSurvivesUnsigned(fm, n)
  {
    var x := OfNatural(n, k);
    if AlwaysSurvivesUnsigned(fm, n) { TruncatedSurvivorUnsigned(fm, x, k); }
  }

  lemma PowerNotEncodable(fm: Fmt, j: nat)
    requires j > Emax(fm)
    ensures !EncodeOk(fm, Pow2(j), 0)
  {
    QuantumRange(fm);
    Pow2Mono(j, j + 1);
    BitLenIs(Pow2(j), j);
  }

  /** For unsigned integers of `n` bits the identity holds exactly when `n <= min(sb, emax + 1)`. */
  lemma SurvivesUnsignedIff(fm: Fmt, n: nat)
    requires n > 0
    ensures AlwaysSurvivesUnsigned(fm, n) <==> n <= Min(fm.sb, Emax(fm) + 1)
  {
    if n <= Min(fm.sb, Emax(fm) + 1) {
      forall rm: Rm, rm': Rm, x: Bits | |x| == n ensures UnsignedTrip(fm, rm, rm', x) == x {
        UValBound(x);
        if UVal(x) != 0 { ShortEncodable(fm, n, UVal(x)); }
        EncodableSurvivesUnsigned(fm, rm, rm', x);
      }
    } else {
      WideFailsUnsigned(fm, n);
    }
  }
}
