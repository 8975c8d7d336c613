/** The in-crate hash: a 64-bit finalizer, its folding step and the hash of a byte string. Each is a
    bijection of what it folds into, so equal lengths that differ in one chunk never collide. */
module Hashing {
  import opened Powers
  import opened Nats
  import opened Modular
  import opened Bitwise
  import opened BvSpec
  import opened WordBijections

  /** The word size. */
  const BITS: nat := 64

  /** Newton steps that reach a whole word from three correct bits. */
  const STEPS: nat := 6

  const MIX1: nat := 0xbf58476d1ce4e5b9
  const MIX2: nat := 0x94d049bb133111eb
  const GAMMA: nat := 0x9e3779b97f4a7c15

  predicate IsWord(x: nat) { x < Pow2(BITS) }

  // ----- Newton's iteration -----

  /** The inverse of an odd word. */
  function Inverse(c: nat): nat { NewtonIter(BITS, c, STEPS) }

  lemma InverseIs(c: nat)
    requires Odd(c)
    ensures InverseTo(BITS, c, Inverse(c))
  {
    NewtonBits(BITS, c, STEPS);
    ShlDouble(3, 5);
    ShlDouble(3, 4);
    ShlDouble(3, 3);
    ShlDouble(3, 2);
    ShlDouble(3, 1);
    assert Shl(3, 6) == 192;
  }

  method InverseOdd(c: nat) returns (i: nat)
    requires IsWord(c) && Odd(c)
    ensures i == Inverse(c) && InverseTo(BITS, c, i)
  {
    i := NewtonLoop(BITS, c, STEPS);
    InverseIs(c);
  }

  // ----- the finalizer -----

  function Mix64(z: nat): (r: nat)
  {
    var z1 := MulV(BITS, XorShift(BITS, 30, z), MIX1);
    var z2 := MulV(BITS, XorShift(BITS, 27, z1), MIX2);
    XorShift(BITS, 31, z2)
  }

  function Unmix64(r: nat): nat
  {
    var z2 := UnXorShift(BITS, 31, r);
    var z1 := UnXorShift(BITS, 27, MulV(BITS, z2, Inverse(MIX2)));
    UnXorShift(BITS, 30, MulV(BITS, z1, Inverse(MIX1)))
  }

  lemma UnmixMix(z: nat)
    requires IsWord(z)
    ensures IsWord(Mix64(z)) && Unmix64(Mix64(z)) == z
  {
    InverseIs(MIX1);
    InverseIs(MIX2);
    var x1 := XorShift(BITS, 30, z);
    var z1 := MulV(BITS, x1, MIX1);
    var x2 := XorShift(BITS, 27, z1);
    var z2 := MulV(BITS, x2, MIX2);
    UnXorShiftLeft(BITS, 31, z2);
    MulCancels(BITS, x2, MIX2, Inverse(MIX2));
    UnXorShiftLeft(BITS, 27, z1);
    MulCancels(BITS, x1, MIX1, Inverse(MIX1));
    UnXorShiftLeft(BITS, 30, z);
  }

  lemma MixUnmix(r: nat)
    requires IsWord(r)
    ensures IsWord(Unmix64(r)) && Mix64(Unmix64(r)) == r
  {
    InverseIs(MIX1);
    InverseIs(MIX2);
    var z2 := UnXorShift(BITS, 31, r);
    UnXorShiftRight(BITS, 31, r);
    var x2 := MulV(BITS, z2, Inverse(MIX2));
    MulCancels(BITS, z2, MIX2, Inverse(MIX2));
    var z1 := UnXorShift(BITS, 27, x2);
    UnXorShiftRight(BITS, 27, x2);
    var x1 := MulV(BITS, z1, Inverse(MIX1));
    MulCancels(BITS, z1, MIX1, Inverse(MIX1));
    UnXorShiftRight(BITS, 30, x1);
  }

  // ----- folding a word into a running hash -----

  /** What `Combine` feeds to the finalizer. */
  function Blend(h: nat, v: nat): (r: nat)
    ensures IsWord(r)
  {
    Masked(BITS, RotLV(BITS, h, 23), v, GAMMA)
  }

  function Combine(h: nat, v: nat): nat { Mix64(Blend(h, v)) }

  function UnblendHash(x: nat, v: nat): nat
  {
    RotRV(BITS, XorV(BITS, x, Wrap(BITS, v + GAMMA)), 23)
  }

  function UnblendWord(x: nat, h: nat): nat
  {
    Unmasked(BITS, RotLV(BITS, h, 23), x, GAMMA)
  }

  /** The running hash that `v` was folded into. */
  function UncombineHash(r: nat, v: nat): nat { UnblendHash(Unmix64(r), v) }

  /** The word that was folded into `h`. */
  function UncombineWord(r: nat, h: nat): nat { UnblendWord(Unmix64(r), h) }

  lemma BlendHash(h: nat, v: nat)
    requires IsWord(h)
    ensures UnblendHash(Blend(h, v), v) == h
    ensures IsWord(UnblendHash(h, v)) && Blend(UnblendHash(h, v), v) == h
  {
    var g := Wrap(BITS, v + GAMMA);
    RotRUndoes(BITS, h, 23);
    XorCancels(BITS, RotLV(BITS, h, 23), g);
    RotLUndoes(BITS, XorV(BITS, h, g), 23);
    XorCancels(BITS, h, g);
  }

  lemma UnblendBlend(h: nat, v: nat)
    requires IsWord(v)
    ensures UnblendWord(Blend(h, v), h) == v
  {
    UnmaskedMasked(BITS, RotLV(BITS, h, 23), v, GAMMA);
  }

  lemma BlendUnblend(h: nat, x: nat)
    requires IsWord(x)
    ensures IsWord(UnblendWord(x, h)) && Blend(h, UnblendWord(x, h)) == x
  {
    MaskedUnmasked(BITS, RotLV(BITS, h, 23), x, GAMMA);
  }

  /** Folding is a bijection of the running hash... */
  lemma CombineHash(h: nat, v: nat)
    requires IsWord(h)
    ensures IsWord(Combine(h, v)) && UncombineHash(Combine(h, v), v) == h
    ensures IsWord(UncombineHash(h, v)) && Combine(UncombineHash(h, v), v) == h
  {
    BlendHash(h, v);
    UnmixMix(Blend(h, v));
    MixUnmix(h);
    BlendHash(Unmix64(h), v);
  }

  /** ... and, for each running hash, of the word. */
  lemma CombineWord(h: nat, v: nat)
    requires IsWord(h) && IsWord(v)
    ensures UncombineWord(Combine(h, v), h) == v
    ensures IsWord(UncombineWord(v, h)) && Combine(h, UncombineWord(v, h)) == v
  {
    UnblendBlend(h, v);
    UnmixMix(Blend(h, v));
    MixUnmix(v);
    BlendUnblend(h, Unmix64(v));
  }

  // ----- byte strings -----

  type Byte = n: nat | n < 256

  /** Bytes read as a number, the first byte least significant. */
  function LittleEndian(b: seq<Byte>): nat
  {
    if |b| == 0 then 0 else b[0] + 256 * LittleEndian(b[1..])
  }

  lemma {:induction false} LittleEndianBound(b: seq<Byte>)
    ensures LittleEndian(b) < Pow2(8 * |b|)
  {
    if |b| > 0 {
      LittleEndianBound(b[1..]);
      var n := 8 * |b[1..]|;
      assert Pow2(n + 1) == 2 * Pow2(n) && Pow2(n + 2) == 2 * Pow2(n + 1) && Pow2(n + 3) == 2 * Pow2(n + 2);
      assert Pow2(n + 4) == 2 * Pow2(n + 3) && Pow2(n + 5) == 2 * Pow2(n + 4) && Pow2(n + 6) == 2 * Pow2(n + 5);
      assert Pow2(n + 7) == 2 * Pow2(n + 6) && Pow2(n + 8) == 2 * Pow2(n + 7);
    }
  }

  lemma {:induction false} LittleEndianInjective(a: seq<Byte>, b: seq<Byte>)
    requires |a| == |b| && LittleEndian(a) == LittleEndian(b)
    ensures a == b
  {
    if |a| > 0 { LittleEndianInjective(a[1..], b[1..]); }
  }

  lemma {:induction false} Padding(b: seq<Byte>, n: nat)
    ensures LittleEndian(b + seq(n, i => 0)) == LittleEndian(b)
    decreases |b|, n
  {
    var p := b + seq(n, i => 0);
    if |b| > 0 {
      assert p[1..] == b[1..] + seq(n, i => 0);
      Padding(b[1..], n);
    } else if n > 0 {
      assert p[1..] == [] + seq(n - 1, i => 0);
      Padding([], n - 1);
    }
  }

  function FirstChunk(b: seq<Byte>): seq<Byte> { b[..Min(8, |b|)] }

  function LaterChunks(b: seq<Byte>): seq<Byte> { b[Min(8, |b|)..] }

  lemma ChunkIsWord(b: seq<Byte>)
    ensures IsWord(LittleEndian(FirstChunk(b)))
  {
    LittleEndianBound(FirstChunk(b));
    Pow2Mono(8 * |FirstChunk(b)|, BITS);
  }

  /** The running hash after folding in `b`, eight bytes at a time. */
  function Absorb(h: nat, b: seq<Byte>): nat
    decreases |b|
  {
    if |b| == 0 then h else Absorb(Combine(h, LittleEndian(FirstChunk(b))), LaterChunks(b))
  }

  /** The hash of a byte string: its length, then its chunks. */
  function HashOf(seed: nat, b: seq<Byte>): nat { Absorb(Combine(seed, |b|), b) }

  /** Chunk by chunk, the last padded with zeros. */
  method Bytes(seed: nat, b: seq<Byte>) returns (h: nat)
    requires IsWord(seed)
    ensures h == HashOf(seed, b)
  {
    h := Combine(seed, |b|);
    var i := 0;
    assert b[0..] == b;
    while i < |b|
      invariant 0 <= i <= |b|
      invariant HashOf(seed, b) == Absorb(h, b[i..])
    {
      var n := Min(8, |b| - i);
      var v := LoadChunk(b[i..i + n]);
      AbsorbStep(h, b, i, n);
      h := Combine(h, v);
      i := i + n;
    }
  }

  lemma AbsorbStep(h: nat, b: seq<Byte>, i: nat, n: nat)
    requires i < |b| && n == Min(8, |b| - i)
    ensures Absorb(h, b[i..]) == Absorb(Combine(h, LittleEndian(b[i..i + n])), b[i + n..])
  {
    assert FirstChunk(b[i..]) == b[i..i + n] && LaterChunks(b[i..]) == b[i + n..];
  }

  /** A chunk copied into a zeroed eight-byte buffer and read as a number. */
  method LoadChunk(chunk: seq<Byte>) returns (v: nat)
    requires |chunk| <= 8
    ensures v == LittleEndian(chunk)
  {
    var w := new Byte[8](j => 0);
    for j := 0 to |chunk|
      invariant w[..j] == chunk[..j]
      invariant forall k :: j <= k < 8 ==> w[k] == 0
    {
      w[j] := chunk[j];
    }
    assert w[..] == chunk + seq(8 - |chunk|, j => 0);
    Padding(chunk, 8 - |chunk|);
    v := LittleEndian(w[..]);
  }

  /** The running hash before `b` was folded in. */
  function Release(r: nat, b: seq<Byte>): nat
    decreases |b|
  {
    if |b| == 0 then r else UncombineHash(Release(r, LaterChunks(b)), LittleEndian(FirstChunk(b)))
  }

  /** Folding in a byte string is a bijection of the running hash. */
  lemma {:induction false} ReleaseAbsorb(h: nat, b: seq<Byte>)
    requires IsWord(h)
    ensures IsWord(Absorb(h, b)) && Release(Absorb(h, b), b) == h
    ensures IsWord(Release(h, b)) && Absorb(Release(h, b), b) == h
    decreases |b|
  {
    if |b| > 0 {
      var v, rest := LittleEndian(FirstChunk(b)), LaterChunks(b);
      CombineHash(h, v);
      ReleaseAbsorb(Combine(h, v), rest);
      ReleaseAbsorb(h, rest);
      CombineHash(Release(h, rest), v);
    }
  }

  function SeedOf(r: nat, b: seq<Byte>): nat { UncombineHash(Release(r, b), |b|) }

  /** For every byte string the map from seed to hash is a bijection. */
  lemma SeedBijection(seed: nat, b: seq<Byte>)
    requires IsWord(seed)
    ensures IsWord(HashOf(seed, b)) && SeedOf(HashOf(seed, b), b) == seed
    ensures IsWord(SeedOf(seed, b)) && HashOf(SeedOf(seed, b), b) == seed
  {
    CombineHash(seed, |b|);
    ReleaseAbsorb(Combine(seed, |b|), b);
    ReleaseAbsorb(seed, b);
    CombineHash(Release(seed, b), |b|);
  }

  /** The words the chunks are read as. */
  function ChunkWords(b: seq<Byte>): seq<nat>
    decreases |b|
  {
    if |b| == 0 then [] else [LittleEndian(FirstChunk(b))] + ChunkWords(LaterChunks(b))
  }

  lemma {:induction false} SameWords(h: nat, a: seq<Byte>, b: seq<Byte>)
    requires ChunkWords(a) == ChunkWords(b)
    ensures Absorb(h, a) == Absorb(h, b)
    decreases |a|
  {
    if |a| > 0 {
      var v := LittleEndian(FirstChunk(a));
      assert ChunkWords(a)[0] == ChunkWords(b)[0] && ChunkWords(a)[1..] == ChunkWords(b)[1..];
      AbsorbFirst(h, a, v);
      AbsorbFirst(h, b, v);
      SameWords(Combine(h, v), LaterChunks(a), LaterChunks(b));
    }
  }

  /** Zero padding cannot be confused with zero bytes: strings of different lengths whose chunks read
      as the same words have different hashes. */
  lemma LengthTellsApart(seed: nat, a: seq<Byte>, b: seq<Byte>)
    requires IsWord(seed) && IsWord(|a|) && IsWord(|b|)
    requires ChunkWords(a) == ChunkWords(b) && |a| != |b|
    ensures HashOf(seed, a) != HashOf(seed, b)
  {
    SameWords(Combine(seed, |b|), a, b);
    DifferentWords(seed, |a|, |b|, a);
  }

  /** Equal outside the eight bytes of chunk `k`. */
  predicate AgreeOutside(a: seq<Byte>, b: seq<Byte>, k: nat)
  {
    |a| == |b| && forall i :: 0 <= i < |a| && i / 8 != k ==> a[i] == b[i]
  }

  lemma {:induction false} AbsorbSeparates(h: nat, a: seq<Byte>, b: seq<Byte>, k: nat)
    requires IsWord(h) && AgreeOutside(a, b, k) && a != b
    ensures Absorb(h, a) != Absorb(h, b)
    decreases |a|, 1
  {
    if k > 0 { LaterSeparates(h, a, b, k); } else { FirstChunkSeparates(h, a, b); }
  }

  lemma CombineIsWord(h: nat, v: nat)
    ensures IsWord(Combine(h, v))
  {
    UnmixMix(Blend(h, v));
  }

  lemma {:induction false} LaterSeparates(h: nat, a: seq<Byte>, b: seq<Byte>, k: nat)
    requires IsWord(h) && k > 0 && AgreeOutside(a, b, k) && a != b
    ensures Absorb(h, a) != Absorb(h, b)
    decreases |a|, 0
  {
    AgreeLater(a, b, k);
    var v := LittleEndian(FirstChunk(a));
    AbsorbFirst(h, a, v);
    AbsorbFirst(h, b, v);
    CombineIsWord(h, v);
    AbsorbSeparates(Combine(h, v), LaterChunks(a), LaterChunks(b), k - 1);
  }

  lemma AbsorbFirst(h: nat, b: seq<Byte>, v: nat)
    requires |b| > 0 && v == LittleEndian(FirstChunk(b))
    ensures Absorb(h, b) == Absorb(Combine(h, v), LaterChunks(b))
  {
  }

  lemma FirstChunkSeparates(h: nat, a: seq<Byte>, b: seq<Byte>)
    requires IsWord(h) && AgreeOutside(a, b, 0) && a != b
    ensures Absorb(h, a) != Absorb(h, b)
  {
    FirstChunksDiffer(a, b);
    ChunkIsWord(a);
    ChunkIsWord(b);
    DifferentWords(h, LittleEndian(FirstChunk(a)), LittleEndian(FirstChunk(b)), LaterChunks(a));
  }

  /** Different words followed by the same bytes give different hashes. */
  lemma DifferentWords(h: nat, v: nat, v': nat, rest: seq<Byte>)
    requires IsWord(h) && IsWord(v) && IsWord(v') && v != v'
    ensures Absorb(Combine(h, v), rest) != Absorb(Combine(h, v'), rest)
  {
    CombineHash(h, v);
    CombineHash(h, v');
    CombineWord(h, v);
    CombineWord(h, v');
    ReleaseAbsorb(Combine(h, v), rest);
    ReleaseAbsorb(Combine(h, v'), rest);
  }

  lemma FirstChunksDiffer(a: seq<Byte>, b: seq<Byte>)
    requires AgreeOutside(a, b, 0) && a != b
    ensures LaterChunks(a) == LaterChunks(b)
    ensures LittleEndian(FirstChunk(a)) != LittleEndian(FirstChunk(b))
  {
    assert a == FirstChunk(a) + LaterChunks(a) && b == FirstChunk(b) + LaterChunks(b);
    if LittleEndian(FirstChunk(a)) == LittleEndian(FirstChunk(b)) {
      LittleEndianInjective(FirstChunk(a), FirstChunk(b));
    }
  }

  lemma AgreeLater(a: seq<Byte>, b: seq<Byte>, k: nat)
    requires k > 0 && AgreeOutside(a, b, k) && a != b
    ensures AgreeOutside(LaterChunks(a), LaterChunks(b), k - 1)
    ensures FirstChunk(a) == FirstChunk(b) && LaterChunks(a) != LaterChunks(b)
  {
    assert a == FirstChunk(a) + LaterChunks(a) && b == FirstChunk(b) + LaterChunks(b);
    forall i | 0 <= i < |LaterChunks(a)| && i / 8 != k - 1
      ensures LaterChunks(a)[i] == LaterChunks(b)[i]
    {
      assert a[i + 8] == b[i + 8];
    }
  }

  /** Strings of the same length that differ in exactly one chunk never collide. */
  lemma OneChunkNeverCollides(seed: nat, a: seq<Byte>, b: seq<Byte>, k: nat)
    requires IsWord(seed) && AgreeOutside(a, b, k) && a != b
    ensures HashOf(seed, a) != HashOf(seed, b)
  {
    CombineHash(seed, |a|);
    AbsorbSeparates(Combine(seed, |a|), a, b, k);
  }

  // ----- the benchmark's keyed mix -----

  function Fold(t: nat): (r: nat)
    ensures IsWord(r)
  {
    SelfFold(BITS, 32, 60, t)
  }

  function Hash(x: nat, c: nat): (r: nat)
    ensures IsWord(r)
  {
    MulV(BITS, c, Fold(MulV(BITS, c, XorV(BITS, x, c))))
  }

  method Unhash(h: nat, c: nat) returns (x: nat)
    requires IsWord(h) && IsWord(c) && Odd(c)
    ensures x == UnhashOf(h, c) && Hash(x, c) == h
  {
    UnhashHash(h, c);
    var ci := InverseOdd(c);
    var u := MulV(BITS, h, ci);
    x := XorV(BITS, MulV(BITS, XorV(BITS, u, Shr(Shr(u, 32), Shr(u, 60))), ci), c);
  }

  function UnhashOf(h: nat, c: nat): (r: nat)
    ensures IsWord(r)
  {
    XorV(BITS, MulV(BITS, Fold(MulV(BITS, h, Inverse(c))), Inverse(c)), c)
  }

  /** For every odd key the mix is a bijection of words, inverted by `Unhash`. */
  lemma UnhashHash(x: nat, c: nat)
    requires IsWord(x) && Odd(c)
    ensures UnhashOf(Hash(x, c), c) == x
    ensures Hash(UnhashOf(x, c), c) == x
  {
    InverseIs(c);
    var m := XorV(BITS, x, c);
    var t := MulV(BITS, c, m);
    MulCancels(BITS, Fold(t), c, Inverse(c));
    SelfFoldTwice(BITS, 32, 60, t);
    MulVComm(BITS, m, c);
    MulCancels(BITS, m, c, Inverse(c));
    XorCancels(BITS, x, c);

    var u := MulV(BITS, x, Inverse(c));
    var v := MulV(BITS, Fold(u), Inverse(c));
    MulCancels(BITS, x, c, Inverse(c));
    MulCancels(BITS, Fold(u), c, Inverse(c));
    XorCancels(BITS, v, c);
    MulVComm(BITS, v, c);
    SelfFoldTwice(BITS, 32, 60, u);
    MulVComm(BITS, u, c);
  }
}
