# Bitwright: a verified model of the reference oracles

Bitwright's correctness rests on two small oracles that are meant to be obviously right: a
floating-point library that rounds exact values, and a bit-serial evaluator for bit-vector terms.
This project models both, together with three pieces of logic that rest on the same theory, and
proves what they are for. `dafny verify dfyconfig.toml` checks everything.

1. **The IEEE 754 oracle** (`Nats`, `NatLoops`, `FpFormat`, `FpValues`, `RoundingSpec`, `FpRound`,
   `FpRoundExact`, `FpOrder`, `FpLaws`, `FpArith`, `FpSqrtSquares`, `FpSpecials`, `FpRem`,
   `FpConvert`, `FpIntTrip`, `FpX87`). `RoundingSpec.IsRounding` states correct rounding by comparing the exact real number
   with every finite value of the format (IEEE 754-2019 sections 4.3 and 7.4); it mentions neither
   quanta nor exponents. Addition, subtraction, multiplication, division, fused multiply-add, square
   root and the conversions are proved to round the exact result of finite operands once, for every
   format with at least two exponent and two significand bits, in all five modes; `FpSpecials`
   says what they do with NaNs, infinities and zeros. The encoder's internal assertions are
   preconditions that every caller is proved to meet.
2. **The bit-serial evaluator** (`Powers`, `Words`, `Modular`, `Bitwise`, `BvSpec`, `BitSerial`,
   `BitMoves`, `Terms`). `BvSpec` says what each operator means on integers modulo `2^w` (SMT-LIB
   theory FixedSizeBitVectors); the loops over single bits are methods proved to compute that, and
   evaluation of a term is proved equal to its integer denotation. Operators that are recursive
   functions on numbers are also characterized bit by bit.
3. **The MBA obfuscator** (`Mba`). The random rewriting is proved to preserve the value of every
   expression at every width, and every corpus entry to be a rewritten target plus one or two zero
   terms. What is returned is a function of the stream of draws.
4. **Known-bits analysis** (`KnownBits`). Sound for every assignment given bindings whose claims are
   right, as those the tool builds are proved to be; best possible for a negation, and complete for
   expressions with at most one.
5. **Word-level bijections and an enumeration** (`WordBijections`, `Hashing`, `Enumeration`). The
   search is proved sound, complete up to its cap, and in order.

How the model reads the source:

- A big natural is Dafny's `nat`, cut into limbs only for short division; a bit vector is a sequence
  of booleans, least significant first, whose length is its width.
- Shifts, remainders modulo `2^w`, products in modular words and divisions are recursive functions
  (`Shl`, `Shr`, `LowBits`, `Sar`, `Wrap`, `Mult`, `Quot`, `Rem`); `Powers.ShrIs`, `Modular.WrapIs`,
  `Nats.MultIs` and `Nats.QuotRemIs` identify them with `/`, `%` and `*`.
- `Dyadic(n, k)` is the real number `n * 2^k`.
- A generator's choices are arbitrary: what is proved holds for every state it starts from.
- Panics on mismatched widths are preconditions. Internal assertions are proved.
- A parameter such as `x` with `x == RealVal(fm, a) * RealVal(fm, b)` names an exact real result.

## Model

| member | source | states |
|---|---|---|
| Nats.CmpScaledExact | bitwright-ref/src/fp/nat.rs:312-323 | comparing the top-bit positions first, then shifted integers, decides `a*2^x` against `b*2^y` exactly as the real numbers compare |
| NatLoops.NewtonIsqrt | bitwright-ref/src/fp/nat.rs:234-253 | Newton's integer iteration from `2^ceil(len/2)` terminates at the integer root, whose square is at most `n` and whose successor's square is above, so the final check never fails |
| NatLoops.ShortDivision | bitwright-ref/src/fp/nat.rs:203-214 | dividing limb by limb from the top, with the running remainder below the divisor, yields quotient limbs that fit and denote the quotient, and the remainder |
| NatLoops.DivRem | bitwright-ref/src/fp/nat.rs:191-231 | all four branches, the last shifting in bits and subtracting, yield the quotient and remainder |
| FpFormat.EncodeFits | bitwright-ref/src/fp.rs:210-268 | when the encoder's assertions hold, the biased exponent is in range and the trailing significand fits, so `pack`'s debug assertion holds too |
| FpFormat.FieldsOfPack | bitwright-ref/src/fp.rs:172-217 | unpacking what was packed gives back sign, exponent and significand |
| FpFormat.PackOfFields | bitwright-ref/src/fp.rs:172-217 | packing what was unpacked gives back the encoding, and its top bit is the sign |
| FpFormat.NanBitsAre | bitwright-ref/src/fp.rs:219-221 | bit by bit: the sign is clear, the exponent bits are set, the top trailing bit is set and every bit below is clear |
| FpValues.DecodeCanonical | bitwright-ref/src/fp.rs:184-207 | finite values decode to a significand below `2^p`, at least `2^(p-1)` above the smallest quantum |
| FpValues.InterchangeValue | bitwright-ref/src/fp.rs:184-207 | the value as the standard gives it in terms of the sign, exponent and significand bits, with bias `2^(eb-1) - 1` |
| FpValues.DecodeInjective | bitwright-ref/src/fp.rs:184-207 | different non-NaN encodings decode to different values |
| FpValues.CanonicalUnique | bitwright-ref/src/fp.rs:184-207 | a nonzero real has at most one canonical significand and exponent |
| FpValues.DecodeEncode | bitwright-ref/src/fp.rs:256-268 | whatever the encoder accepts decodes to exactly the encoded value and sign |
| FpValues.EncodeDecode | bitwright-ref/src/fp.rs:256-268 | encoding a decoded nonzero finite value never trips an assertion and gives back the encoding |
| FpValues.EncodableIffRepresentable | bitwright-ref/src/fp.rs:242-268 | the assertions of `encode` and `shift_exact` hold exactly of the magnitudes the format represents |
| FpRound.FinishEncodable | bitwright-ref/src/fp.rs:321-342 | the chosen significand never trips the encoder, also when `M + 1` carries into the next binade or a subnormal becomes normal |
| FpRound.FinishRounds | bitwright-ref/src/fp.rs:310-342 | for a magnitude located at a fitting quantum, steps 2 to 5 give the correctly rounded encoding in every mode |
| FpRoundExact.RatioBinade | bitwright-ref/src/fp.rs:345-355 | the exponent found from bit lengths and one comparison is the floor of the base-2 logarithm |
| FpRoundExact.RatioQuantum | bitwright-ref/src/fp.rs:355-368 | the integer quotient has `p` bits, or fewer when subnormal: the debug assertion holds |
| FpRoundExact.RoundRatioRounds | bitwright-ref/src/fp.rs:321-369 | `round_ratio` is correct rounding of `(-1)^neg * num/den * 2^exp` for every format, mode, sign and positive quotient |
| FpRoundExact.FloorRootShift | bitwright-ref/src/fp.rs:390-391 | the integer root of the integer part is the integer part of the root |
| FpRoundExact.RootFits | bitwright-ref/src/fp.rs:402-406 | the integer root has `p` bits, or fewer when subnormal: the debug assertion holds |
| FpRoundExact.RoundSqrtRounds | bitwright-ref/src/fp.rs:372-408 | `round_sqrt` is correct rounding of the real square root |
| FpLaws.SqrtNeverTies | bitwright-ref/src/fp.rs:392-401 | the exact-half case never arises from a representable operand |
| FpLaws.SqrtNearestModesAgree | bitwright-ref/src/fp.rs:372-408 | the two nearest modes give the same root, subnormal roots included |
| FpLaws.RoundingUnique | bitwright-ref/src/fp.rs:321-342 | at most one encoding is the correct rounding of a nonzero real |
| FpLaws.RoundingMonotone | bitwright-ref/src/fp.rs:310-369 | `x <= y` rounds to encodings in that order, in every mode |
| FpLaws.RoundingOfValue | bitwright-ref/src/fp.rs:310-369 | a nonzero representable value rounds to itself |
| FpLaws.RoundRatioMirrors | bitwright-ref/src/fp.rs:310-369 | rounding the negated value is negating the rounding, toward plus and minus infinity trading places |
| FpOrder.CmpValsIsRealOrder | bitwright-ref/src/fp.rs:682-711 | finite values compare as the reals they stand for |
| FpOrder.CmpSignedZerosIsKeyOrder | bitwright-ref/src/fp.rs:714-719 | the order of min and max is the sign-magnitude order of the encodings, hence total |
| FpOrder.MinMaxByKey | bitwright-ref/src/fp.rs:723-747 | on non-NaNs they are minimum and maximum of that order |
| FpOrder.MinMaxSelects | bitwright-ref/src/fp.rs:723-747 | one NaN operand gives the other bit for bit, two the canonical NaN; otherwise the result is an operand that no operand lies beyond |
| FpOrder.MinMaxWidth | bitwright-ref/src/fp.rs:723-747 | the result is NaN exactly when both operands are |
| FpOrder.MinMaxCommute | bitwright-ref/src/fp.rs:723-747 | commutative on all inputs |
| FpOrder.MinAssociates | bitwright-ref/src/fp.rs:723-734 | min is associative on all inputs, NaNs included |
| FpOrder.MaxAssociates | bitwright-ref/src/fp.rs:737-747 | max is associative on all inputs, NaNs included |
| FpOrder.MinMaxLattice | bitwright-ref/src/fp.rs:723-747 | on non-NaNs they are meet and join: a value is below the minimum exactly when it is below both operands, above the maximum exactly when above both |
| FpOrder.ComparePredicates | bitwright-ref/src/fp.rs:750-773 | `eq`, `lt` and `le` are the encoding order with the zeros identified, and all false on NaNs |
| FpArith.DyAddExact | bitwright-ref/src/fp.rs:454-483 | the sum of two dyadics is exact |
| FpArith.AddRounds | bitwright-ref/src/fp.rs:501-518 | `add` rounds the exact sum once; an exact zero has the sign of section 6.3 |
| FpArith.AddCommutes | bitwright-ref/src/fp.rs:501-518 | bit for bit, NaNs and infinities included |
| FpArith.Sterbenz | bitwright-ref/src/fp.rs:521-523 | `sub` is exact in every mode when the operands are within a factor of two |
| FpArith.SubRounds | bitwright-ref/src/fp.rs:521-523 | `sub` rounds the exact difference of finite operands once; an exact zero has the sign of section 6.3 |
| FpArith.MulRounds | bitwright-ref/src/fp.rs:526-539 | `mul` rounds the exact product of any finite operands once, with the sign of a zero product (the rest: `FpSpecials.MulSpecial`) |
| FpArith.DivRounds | bitwright-ref/src/fp.rs:542-557 | `div` of a finite by a nonzero finite operand rounds once the real that times the divisor is the dividend, with the sign of a zero quotient (the rest: `FpSpecials.DivSpecial`) |
| FpArith.FmaRounds | bitwright-ref/src/fp.rs:560-606 | `fma` rounds the exact `a*b + c` once; an exact zero has the sign of section 6.3 |
| FpArith.FmaOneIsAdd | bitwright-ref/src/fp.rs:560-606 | `fma(a, 1, c)` is `add(a, c)` for every pair of encodings |
| FpArith.FmaZeroIsMul | bitwright-ref/src/fp.rs:560-606 | adding either zero to a nonzero finite product is `mul` |
| FpArith.SqrtRounds | bitwright-ref/src/fp.rs:609-618 | `sqrt` of a positive finite operand rounds its real square root, given as `s`, and the nearest modes agree |
| FpSqrtSquares.SqrtBySquares | bitwright-ref/src/fp.rs:609-618 | without a real root: in every mode the result is on the right side of every finite value and, to nearest, of every midpoint, by comparing squares with the operand |
| FpSpecials.AddSpecial | bitwright-ref/src/fp.rs:501-518 | NaN exactly for a NaN operand or opposite infinities; an infinite operand is otherwise the result |
| FpSpecials.SubSpecial | bitwright-ref/src/fp.rs:521-523 | NaN exactly for a NaN operand or equal infinities; an infinite operand otherwise decides |
| FpSpecials.MulSpecial | bitwright-ref/src/fp.rs:526-539 | NaN exactly for a NaN operand or zero times infinity; otherwise the sign is the exclusive or, an infinite operand gives infinity and a zero one zero |
| FpSpecials.DivSpecial | bitwright-ref/src/fp.rs:542-557 | NaN exactly for a NaN operand, 0/0 or infinity/infinity; division by zero gives infinity |
| FpSpecials.FmaSpecial | bitwright-ref/src/fp.rs:560-606 | NaN exactly for the invalid cases; an infinite product or addend otherwise decides |
| FpSpecials.SqrtSpecial | bitwright-ref/src/fp.rs:609-618 | for every operand: NaN exactly for NaN and negative nonzero operands, otherwise the operand's sign; zeros and plus infinity are kept |
| FpSpecials.RemSpecial | bitwright-ref/src/fp.rs:622-658 | NaN exactly for a NaN operand, an infinite dividend or a zero divisor; by infinity the dividend |
| FpSpecials.ToFpSpecial | bitwright-ref/src/fp.rs:861-870 | for every operand and pair of formats: NaN exactly for NaN, otherwise the operand's sign; infinities and zeros keep their kind |
| FpSpecials.RoundToIntegralSpecial | bitwright-ref/src/fp.rs:661-675 | for every operand: NaN exactly for NaN, otherwise the operand's sign; infinities and zeros are returned unchanged |
| FpRem.RemainderEncodable | bitwright-ref/src/fp.rs:622-658 | the difference is always representable, so the encoder called without rounding never fails |
| FpRem.RemainderExact | bitwright-ref/src/fp.rs:622-658 | exactly `a - n*b` with at most `abs(b)/2` left, an even `n` at a half, and a zero with the sign of `a` |
| FpRem.RemainderNearest | bitwright-ref/src/fp.rs:622-658 | for every integer `k`, the remainder's magnitude is at most that of `a - k*b` |
| FpConvert.IntegralIsRoundInt | bitwright-ref/src/fp.rs:412-423 | the integer magnitude is the mode's rounding of the real to an integer |
| FpConvert.RoundToIntegralRounds | bitwright-ref/src/fp.rs:661-675 | the result is that integer rounded to the format; a zero keeps the operand's sign |
| FpConvert.RoundToIntegralExact | bitwright-ref/src/fp.rs:661-675 | it is exactly the integer whenever its magnitude is at most the largest finite one |
| FpConvert.ToFpRounds | bitwright-ref/src/fp.rs:861-870 | conversion of a nonzero finite value between any two formats is correct rounding |
| FpConvert.WidenExact | bitwright-ref/src/fp.rs:861-870 | into a format with at least as many exponent and significand bits the value is kept |
| FpConvert.WidenAndBack | bitwright-ref/src/fp.rs:861-870 | widening and converting back is the identity on non-NaNs, in any two modes |
| FpConvert.FromSintRounds | bitwright-ref/src/fp.rs:880-900 | a two's-complement integer is correctly rounded; zero gives `+0` |
| FpConvert.FromUintRounds | bitwright-ref/src/fp.rs:880-906 | an unsigned integer is correctly rounded; zero gives `+0` |
| FpConvert.ToIntClamps | bitwright-ref/src/fp.rs:914-956 | the mode's integer, clamped to the signed or unsigned range |
| FpConvert.ToIntSpecial | bitwright-ref/src/fp.rs:914-956 | infinities go to the ends of the range, NaN to zero |
| FpConvert.ToIntMonotone | bitwright-ref/src/fp.rs:914-956 | monotone in the encoding order, infinities included |
| FpIntTrip.SurvivesIff | bitwright-ref/src/fp.rs:889-941 | `to_sint(from_sint(x)) == x` for all `n`-bit `x` and all pairs of modes exactly when `n - 1 <= min(sb, emax)` |
| FpIntTrip.SurvivesUnsignedIff | bitwright-ref/src/fp.rs:902-956 | `to_uint(from_uint(x)) == x` for all `n`-bit `x` and all pairs of modes exactly when `n <= min(sb, emax + 1)` |
| FpX87.X87Layout | bitwright-ref/src/fp.rs:963-1010 | the generic layout has the x87's bit positions and special exponent |
| FpX87.LoadStore | bitwright-ref/src/fp.rs:968-1010 | loading what was stored gives back every encoding, NaN payloads included |
| FpX87.StoreLoad | bitwright-ref/src/fp.rs:968-1010 | storing what was loaded gives back exactly the encodings that are not pseudo-denormals, unnormals, pseudo-infinities or pseudo-NaNs |
| FpX87.LoadValue | bitwright-ref/src/fp.rs:968-996 | a loaded number keeps its value, pseudo-denormals included; unnormals and pseudo-NaNs become NaN |
| BitSerial.AddWithCarry | bitwright-ref/src/lib.rs:221-230 | sum plus carry times `2^w` is the sum of the operands and the carry in |
| BitSerial.AddBits | bitwright-ref/src/lib.rs:236-238 | the sum modulo `2^w` |
| BitSerial.NegBits | bitwright-ref/src/lib.rs:241-243 | the negation modulo `2^w` |
| BitSerial.SubBits | bitwright-ref/src/lib.rs:246-248 | the difference modulo `2^w` |
| BitSerial.ShlByIs | bitwright-ref/src/lib.rs:251-253 | multiplication by `2^k` modulo `2^w`, for any `k` |
| BitSerial.LShrByIs | bitwright-ref/src/lib.rs:256-263 | division by `2^k`, for any `k` |
| BitSerial.AShrByIs | bitwright-ref/src/lib.rs:266-277 | the signed value divided by `2^k` rounding down, for any `k` |
| BitSerial.MulBits | bitwright-ref/src/lib.rs:280-289 | shift-and-add gives the product modulo `2^w` |
| BitSerial.UltBits | bitwright-ref/src/lib.rs:292-300 | unsigned order |
| BitSerial.SltBits | bitwright-ref/src/lib.rs:303-311 | two's-complement order |
| BitSerial.SextIs | bitwright-ref/src/lib.rs:320-326 | sign extension keeps the signed value |
| BitSerial.ExtractIs | bitwright-ref/src/lib.rs:328-336 | the low `n` bits of the value shifted right |
| BitSerial.UDivRemNonzero | bitwright-ref/src/lib.rs:339-356 | restoring division in `w + 1` bits gives the quotient and remainder: `a = q*b + r` with `r < b` |
| BitSerial.UDivBits | bitwright-ref/src/lib.rs:358-365 | the quotient, all ones for a zero divisor |
| BitSerial.URemBits | bitwright-ref/src/lib.rs:367-374 | the remainder, the dividend for a zero divisor |
| BitSerial.SDivBits | bitwright-ref/src/lib.rs:377-384 | truncating signed division modulo `2^w`, with the values at a zero divisor |
| BitSerial.SRemBits | bitwright-ref/src/lib.rs:387-394 | the remainder of truncating division, the dividend for a zero divisor |
| BitSerial.MulHiBits | bitwright-ref/src/lib.rs:397-408 | the high half of the product of the unsigned or signed values |
| BitSerial.CountBelow | bitwright-ref/src/lib.rs:412-421 | the value when below the limit, nothing otherwise |
| BitSerial.ValueMod | bitwright-ref/src/lib.rs:424-430 | the value modulo `m` |
| BvSpec.TruncDivLaw | bitwright-ref/src/lib.rs:377-394 | quotient and remainder recombine, the remainder is smaller than the divisor and zero or of the dividend's sign |
| BvSpec.SDivRemRecombine | bitwright-ref/src/lib.rs:377-394 | `x = q*y + r` modulo `2^w` for all operands, zero divisors included |
| BvSpec.SDivOverflow | bitwright-ref/src/lib.rs:377-394 | the smallest number divided by minus one is itself, with remainder zero |
| BvSpec.ZeroDivisor | bitwright-ref/src/lib.rs:358-394 | all four operations at a zero divisor, by value |
| BvSpec.MulHiLaw | bitwright-ref/src/lib.rs:397-408 | high and low halves make the full product, unsigned and signed |
| BitMoves.CountToBitsIs | bitwright-ref/src/lib.rs:433-440 | a count that fits is the value of its bits |
| BitMoves.RotLByIs | bitwright-ref/src/lib.rs:442-445 | rotating by the count modulo the width is that many single rotations, however large the count |
| BitMoves.RotRByIs | bitwright-ref/src/lib.rs:448-451 | the same to the right |
| BitMoves.PdepBits | bitwright-ref/src/lib.rs:454-464 | the cursor loop computes the recursive deposit |
| BitMoves.PextBits | bitwright-ref/src/lib.rs:467-477 | the cursor loop computes the recursive extract |
| BitMoves.ExtractDeposited | bitwright-ref/src/lib.rs:454-477 | `pext(pdep(x, m), m)` is `x` restricted to its low popcount(m) bits |
| BitMoves.DepositExtracted | bitwright-ref/src/lib.rs:454-477 | `pdep(pext(x, m), m)` is `x & m` |
| BitMoves.LeadingRunIs | bitwright-ref/src/lib.rs:491 | the leading run of zeros is the width less the bit length |
| BitMoves.BitRevIs | bitwright-ref/src/lib.rs:505 | the bits in reverse order, as a number |
| BitMoves.ByteSwapIs | bitwright-ref/src/lib.rs:493-504 | the bytes in reverse order, as a number |
| BvSpec.TrailingZerosIs | bitwright-ref/src/lib.rs:492 | the count is the position of the lowest set bit, the width when there is none |
| BvSpec.PopcountIs | bitwright-ref/src/lib.rs:490 | the population count is the size of the set of set positions |
| BvSpec.ReverseBit | bitwright-ref/src/lib.rs:505 | bit `i` of the reversal is bit `w - 1 - i` |
| BvSpec.SwapByte | bitwright-ref/src/lib.rs:493-504 | byte `k` of the swap is byte `n - 1 - k` |
| BvSpec.RotLOneBit | bitwright-ref/src/lib.rs:442-445 | one left rotation moves every bit up one position and the top bit to the bottom |
| BvSpec.RotROneBit | bitwright-ref/src/lib.rs:448-451 | one right rotation moves every bit down one position and the bottom bit to the top |
| BvSpec.PdepBit | bitwright-ref/src/lib.rs:454-464 | bit `i` of a deposit is the bit of `x` numbered by the mask bits below `i`, and clear outside the mask |
| BvSpec.PextBit | bitwright-ref/src/lib.rs:467-477 | a masked bit is extracted to the position numbered by the mask bits below it |
| Terms.EvalUn | bitwright-ref/src/lib.rs:485-507 | the unary operator's integer meaning; None exactly for a byte swap at a width not a multiple of 8 |
| Terms.EvalBin | bitwright-ref/src/lib.rs:510-543 | the binary operator's integer meaning, huge shift counts and rotations included |
| Bitwise.GatedBit | bitwright-ref/src/lib.rs:510-543 | bit `i` of a bitwise operator is the operator of the two bits `i` |
| Terms.EvalCmp | bitwright-ref/src/lib.rs:546-560 | the comparison of the unsigned or signed values |
| Terms.Eval | bitwright-ref/src/lib.rs:618-661 | the result has the term's width and its integer denotation; None exactly when some subterm is a bad byte swap |
| Mba.Rng.Next | bitwright-bench/src/workload.rs:14-20 | the draw is counted and returns the next word of the stream, the mixed state reached after that many draws from the seed |
| Mba.Rng.Below | bitwright-bench/src/workload.rs:22-24 | the drawn word modulo `max(n, 1)` |
| Mba.FullPeriod | bitwright-bench/src/workload.rs:14-20 | the words returned by the first `2^64` draws from a seed are all different |
| Mba.RewriteSound | bitwright-bench/src/workload.rs:229-255 | each identity is exact for all operands at every width |
| Mba.RewriteMixes | bitwright-bench/src/workload.rs:229-255 | each identity puts arithmetic and bitwise operators into the result, whatever the operands, and makes the expression larger |
| Mba.RewritingSound | bitwright-bench/src/workload.rs:217-256 | every rewriting the choices can lead to has the value of the original |
| Mba.Obfuscate | bitwright-bench/src/workload.rs:217-256 | the result is the one the stream of draws determines, a rewriting, and equals the input at every width for all variables |
| Mba.ZeroTermIsZero | bitwright-bench/src/workload.rs:289-327 | the three zero terms are zero modulo `2^w`, for all subterms |
| Mba.NonlinearMbaCorpus | bitwright-bench/src/workload.rs:262-333 | the entries are determined by the stream of draws; each is a target rewritten at most two deep plus one or two zero terms over `x`, `y`, `z` |
| Mba.EntryHides | bitwright-bench/src/workload.rs:287-331 | whatever the draws, an entry has that shape |
| Mba.HiddenTarget | bitwright-bench/src/workload.rs:257-262 | an expression of that shape equals one of the targets at the corpus width, for all values of the variables |
| KnownBits.NegKnown | tools/valeria_rule_cases.py:123-133 | the carry-set loop reports a bit exactly when all values with the operand's known bits agree on it |
| KnownBits.KnownSound | tools/valeria_rule_cases.py:108-134 | the claimed bits are right for every assignment, by induction over nested expressions, whenever those of the bindings are |
| KnownBits.KnownExact | tools/valeria_rule_cases.py:108-134 | with at most one negation, over masked and free symbols and numbers, a bit is reported exactly when all assignments agree on it |
| KnownBits.TwoNegationsLose | tools/valeria_rule_cases.py:119-134 | an input with two negations of which a bit all assignments agree on is not reported |
| KnownBits.FoldsExactly | tools/valeria_rule_cases.py:194-199 | an expression folds to a constant exactly when all assignments give it the same value |
| KnownBits.TextMeans | tools/valeria_rule_cases.py:157-199 | the text means what the expression does, and the folded constant is its value for every assignment |
| KnownBits.MarkersInvisible | tools/valeria_rule_cases.py:117-118 | simplification markers change neither text, value nor known bits |
| KnownBits.MaskedCorrect | tools/valeria_rule_cases.py:26-31 | the text has the symbol's bits where they are free and the forced ones set, the masks are right for every assignment, and it folds exactly when no bit is free |
| KnownBits.NegativeCorrect | tools/valeria_rule_cases.py:309-311 | the negation of a symbol masked to one above a multiple of four always has its two low bits set, as claimed by hand |
| KnownBits.AliasCorrect | tools/valeria_rule_cases.py:316-322 | a binding to another expression's text and folded value is right for every assignment, and means, prints and folds the same |
| KnownBits.Analyse | tools/valeria_rule_cases.py:108-134 | the analysis returns the masks of `KnownOf`, which `KnownSound` and `KnownExact` characterize |
| KnownBits.DecideCompare | tools/valeria_rule_cases.py:146-155 | a decided comparison holds, or fails, for every assignment; it is refused exactly when the widths differ or neither constants, equal texts nor conflicting bits settle it |
| KnownBits.Decide | tools/valeria_rule_cases.py:136-155 | a decided combination holds, or fails, for every assignment; it is refused exactly for an unsettled comparison the short circuit does not skip |
| WordBijections.UnXorShiftLeft | bitwright/src/hash.rs:17-19 | xor with an own right shift is undone from the top bits down |
| WordBijections.UnXorShiftRight | bitwright/src/hash.rs:17-19 | and is onto |
| WordBijections.NewtonDoubles | bitwright-bench/src/prover_budgets.rs:39-45 | each step doubles the number of correct bits |
| Hashing.InverseOdd | bitwright-bench/src/prover_budgets.rs:39-45 | six steps give the inverse of an odd word modulo `2^64` |
| Hashing.UnmixMix | bitwright/src/hash.rs:15-20 | the finalizer has a left inverse |
| Hashing.MixUnmix | bitwright/src/hash.rs:15-20 | the same function is a right inverse: the finalizer is a bijection |
| Hashing.CombineHash | bitwright/src/hash.rs:24-26 | folding a word in is a bijection of the running hash |
| Hashing.CombineWord | bitwright/src/hash.rs:24-26 | and, for each running hash, of the word |
| Hashing.Bytes | bitwright/src/hash.rs:29-37 | the loop over chunks and its zero-padded buffer compute the fold of the chunks |
| Hashing.SeedBijection | bitwright/src/hash.rs:29-37 | for every byte string the map from seed to hash is a bijection |
| Hashing.OneChunkNeverCollides | bitwright/src/hash.rs:29-37 | strings of the same length that differ in exactly one chunk have different hashes |
| Hashing.LengthTellsApart | bitwright/src/hash.rs:29-37 | strings of different lengths whose padded chunks read as the same words have different hashes |
| Hashing.UnhashHash | bitwright-bench/src/prover_budgets.rs:34-51 | for every odd key `unhash(hash(x)) == x` and `hash(unhash(x)) == x` |
| Hashing.Unhash | bitwright-bench/src/prover_budgets.rs:47-51 | the computation is that inverse: hashing its result gives back the argument |
| Enumeration.ExpandMembers | bitwright-cli/src/main.rs:406-420 | the expansions of a tuple are exactly its continuations by one mode per mode variable |
| Enumeration.ExpandAt | bitwright-cli/src/main.rs:406-420 | expansion number `j` has the modes that read as the number `j`, so they come in increasing order and none twice |
| Enumeration.WithModes | bitwright-cli/src/main.rs:406-420 | the loop rebuilding the list computes the expansions |
| Enumeration.VectorOfValue | bitwright-cli/src/main.rs:428-431 | an index vector is the digits of its number, so no two vectors share one |
| Enumeration.ValueOfVector | bitwright-cli/src/main.rs:428-431 | every number below `d^n` is that of a vector, so counting visits each vector exactly once |
| Enumeration.Advance | bitwright-cli/src/main.rs:443-454 | the odometer adds one to the vector read as a number, and stops exactly after the largest |
| Enumeration.AdmittedOver | bitwright-cli/src/main.rs:425-456 | terminates with the admitted expansions, in counting order, of the first `cap` tuples that have one |
| Enumeration.ProductiveCounts | bitwright-cli/src/main.rs:436-442 | the count the cap limits is the number of width tuples with an admitted expansion |
| Enumeration.SearchSound | bitwright-cli/src/main.rs:425-456 | everything returned is admitted, takes its widths from the domain and its modes from the five |
| Enumeration.SearchComplete | bitwright-cli/src/main.rs:425-456 | when at most `cap` tuples have an admitted expansion, no admitted assignment of domain widths and modes is missed |
| Enumeration.SearchOrder | bitwright-cli/src/main.rs:425-456 | each listed assignment has width `domain[idx[k]]` in position `k`, and they come in strictly increasing order of tuple and mode numbers, with no admitted place in the range left out |

## Left out

- FpArith.SqrtRounds: the real square root is a parameter `s` with `s*s` equal to the operand; that such a real exists is not proved, since the reals here have no completeness axiom. `FpSqrtSquares.SqrtBySquares` says the same of every operand without it.
- FpRem.RemainderExact: the multiple `n*b` is written `Times(n, b)`, repeated addition; `Dyadics.TimesIsProduct` says it is the product.
- NatLoops.DivRem: in the long-division branch the partial remainder and the quotient are numbers; their limbs and in-place shifting are not modelled.
- KnownBits.Analyse: every operator other than `simplify`, `not` and `neg` is opaque, as in the tool, and literals carry the width they resolve to, so width hints are not modelled.
- KnownBits.KnownExact: an opaque operand takes every value of its width, and with two or more negations only `KnownSound` is proved; `TwoNegationsLose` shows that a bit can then be missed.
- KnownBits.DecideCompare: equal texts are equal expression trees; the printed form and the parser are not modelled. A refusal is the result None.
- Mba.Obfuscate: expressions are trees, not text; an operator the rewriting does not know keeps an arbitrary meaning given by the environment.
- Mba.Rng.Below: how evenly the choices fall is not modelled.
- Enumeration.AdmittedOver: a rule is its two variable counts and an arbitrary admission predicate; a cap of zero acts as one, as in the code.
- FpX87.Load: proved for every format with an explicit integer bit; `X87Layout` gives the x87's positions.
- Machine widths of counters (`usize`, `u16`, `i64`) and the caps on formats and vector widths (`eb <= 15`, widths up to 1024, integers up to 512 bits): unbounded here.
- Classification predicates, `abs`, `copysign`: single bit tests or a change of the sign bit.
- Conversions of bit vectors to and from machine words (`from_limbs`, `to_limbs`, `from_u128`, `to_u128`): they regroup the same bits into 64- or 128-bit words, and nothing modelled here computes on those words.
- The linear MBA corpus, the random DAG builders and text formatting.
- Meta-guards and meta-arithmetic of the rule-case tool.
- The engine, the rule language, the SAT solver, parser, printer and bindings.
