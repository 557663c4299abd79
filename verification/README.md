# Verified model of the 16-bit floating-point types

`include/onnxruntime/onnxruntime_float16.h` holds the two 16-bit number types through which tensors go in
and out of the inference engine: `Float16Impl` (IEEE binary16) and `BFloat16Impl` (bfloat16). Both convert
from and to `float` with bit tricks, and both compare and classify numbers on their bit patterns alone.
This project models that code and proves that every trick computes what IEEE 754-2008 asks for, on every
input.

## How the model is built

- A machine word is a natural number below 2^16 or 2^32. And, or, exclusive or act bit by bit (`Words.Bitwise`),
  `+`, `-`, `<<` drop what does not fit, and casts to 16 bits drop the upper half.
- A finite value is an exact integer in units of 2^-149, the smallest positive binary32 number. The value of a
  pattern is `Magnitudes.Magnitude`, a recursion over binades that `MagnitudeIsIeee` proves equal to the closed
  form of section 3.4 of IEEE 754-2008. A format is its number of fraction bits and of exponent bits;
  `Format.Valid` ties everything else about it (sign bit, infinity pattern, smallest step) to these two, and
  the bias and the overflow threshold are computed from them.
- Powers of two enter definitions as repeated doubling and halving (`Powers.Scaled`, `Halved`, `Dropped`), which
  `ScaledIsProduct` and `HalvedIsQuotient` prove to be the product, the quotient and the remainder.
- Rounding is specified twice. `Formats.RoundsTiesToEven` is section 4.3.1 as written: nothing finite is
  nearer, ties go to the even digit, and from the threshold on the result is infinity.
  `Formats.RoundMagnitude` is a recursive function over binades. `Formats.RoundingIsTiesToEven` shows, for
  every format, that they agree in both directions, so one result is allowed and the function gives it.
- The four conversions are methods that change local words and byte buffers step by step, as the source
  does. Each is proved against `Narrowed` or `Widened`, which are the format conversion of section 5.4.2
  plus what the source does to a NaN and do not mention any trick. The properties users rely on are then
  lemmas about these functions.
- `float` addition and subtraction are general: exact sum, then rounding to binary32. The code's use of
  0.5 and of 2^-14 as magic operands is a consequence, not an assumption.
- No member of the source's types changes `val` after construction, so the types are datatypes and their
  comparisons and predicates are functions.

Files: `Powers`, `HalfEven` (integer division rounding half to even), `Words`, `Magnitudes` (encodings without
sign or overflow), `Formats`, `Conversions` (facts for any pair of formats), `FloatArithmetic`, `Memory`,
`Comparisons`, `Float16Impl` and `BFloat16Impl` (the code), `Float16Properties` and `BFloat16Properties`
(what it promises).

## Where the code and its comments part

The comment at lines 177-184 says that positive and negative zero are equal, and `operator<` takes care of
it through `AreZero`. `operator==` (lines 189-195, and `onnxruntime_cxx_inline.h` lines 157-163 for bfloat16)
does not: it compares bits. The model follows the code. `EqualsIsValueEquality` proves that `==` is equality
of values exactly when the operands are not two zeros of opposite sign, and `ZerosAreNotEqual` shows the pair; both
lemmas stand once in `Float16Properties` and once in `BFloat16Properties`.

`operator<` satisfies the laws of a strict partial order on all patterns, NaN included. It is a strict weak order
only away from NaN: `LessThanIsStrictWeakOrder` proves, for all triples, that incomparability fails to carry over
exactly when a NaN stands between two numbers of different value, and `NaNBreaksTheWeakOrder` is the instance
1, NaN, 2.

## Model

| member | source | states |
|---|---|---|
| Float16Impl.Float16.ToUint16Impl | include/onnxruntime/onnxruntime_float16.h:246-291 | for every float the three paths together give the IEEE conversion to binary16, and a quiet NaN of the same sign for a NaN |
| Float16Impl.Float16.ToFloatImpl | include/onnxruntime/onnxruntime_float16.h:294-322 | for every half the exponent fix-ups and the float subtraction give the IEEE conversion to binary32, and for a NaN its sign and payload |
| Float16Impl.Float16.FromFloat | include/onnxruntime/onnxruntime_cxx_api.h:236 | the constructor from float stores the narrowed value |
| Float16Impl.Float16.FromFloats | include/onnxruntime/onnxruntime_cxx_api.h:199-205 | the documented conversion of a vector narrows every element, in order, and adds none |
| Float16Impl.NarrowedByCases | include/onnxruntime/onnxruntime_float16.h:264-289 | each of the four ways through narrowing computes the IEEE conversion, leaving the sign bit free |
| Float16Impl.WidenedByCases | include/onnxruntime/onnxruntime_float16.h:299-309 | each of the three ways through widening computes the IEEE conversion below the sign bit |
| Float16Impl.MagicAddition | include/onnxruntime/onnxruntime_float16.h:267-274 | below 2^-14 one rounded addition of 0.5 and one subtraction equal rounding the magnitude in units of 2^-24 half to even; the word is at most 0x400 |
| Float16Impl.RebiasAndRound | include/onnxruntime/onnxruntime_float16.h:275-286 | from 2^-14 to 2^16 the two additions wrap around exactly once and the shifted word is the correctly rounded pattern, overflow to 0x7C00 included |
| Float16Impl.LargeMagnitudes | include/onnxruntime/onnxruntime_float16.h:264-265 | cutting at 2^16 agrees with correct rounding: everything finite from there on overflows |
| Float16Impl.PadAndRebias | include/onnxruntime/onnxruntime_float16.h:299-301 | the shifted and rebiased pattern of a normal half is the binary32 pattern of its value |
| Float16Impl.Renormalize | include/onnxruntime/onnxruntime_float16.h:306-309 | for zero and subnormals, the rounded float subtraction of 2^-14 gives the binary32 pattern of the value |
| Float16Properties.NarrowingIsTiesToEven | include/onnxruntime/onnxruntime_float16.h:246-291 | a half is the result of narrowing a finite float if and only if it has its sign and is the one that roundTiesToEven allows |
| Float16Properties.Threshold16 | include/onnxruntime/onnxruntime_float16.h:250-265 | overflow begins at 65520, the cut of the code is at 65536, and infinity lies above the threshold |
| Float16Properties.NarrowingClasses | include/onnxruntime/onnxruntime_float16.h:98-291 | exact preimages: zero up to 2^-25, subnormal below 2^-14 - 2^-25, normal below 65520, infinite from there on |
| Float16Properties.NarrowedParts | include/onnxruntime/onnxruntime_float16.h:256-290 | the sign is always kept, and NaN comes from NaN only |
| Float16Properties.CastsLoseNothing | include/onnxruntime/onnxruntime_float16.h:273-285 | the words cast to 16 bits are at most 0x400 and 0x7C00, so the casts drop nothing and the sign bit is free |
| Float16Properties.WideningIsExact16 | include/onnxruntime/onnxruntime_float16.h:294-322 | every half has the very same value as a float, infinities included; NaNs keep sign and payload |
| Float16Properties.NarrowingUndoesWidening | include/onnxruntime/onnxruntime_float16.h:246-322 | half to float to half is the identity on numbers and gives 0x7E00 with its sign for a NaN |
| Float16Properties.NarrowingIsIdempotent | include/onnxruntime/onnxruntime_float16.h:246-322 | a second trip through binary16 changes nothing, for any float |
| Float16Properties.SurvivorsAreBinary16 | include/onnxruntime/onnxruntime_float16.h:246-322 | a float comes back unchanged if and only if some half has its value |
| Float16Properties.NarrowingIsMonotone | include/onnxruntime/onnxruntime_float16.h:199-291 | narrowing never swaps two floats under `operator<`, across all paths and signs |
| Float16Properties.NarrowingCrossesNoHalf | include/onnxruntime/onnxruntime_float16.h:199-291 | no half lies strictly between a float and its narrowed value |
| Float16Properties.SortedStaysSorted | include/onnxruntime/onnxruntime_cxx_api.h:199-205 | a sorted vector of any length is sorted after conversion |
| Float16Properties.FromSortedFloats | include/onnxruntime/onnxruntime_cxx_api.h:199-205 | the vector conversion itself, on a sorted input, returns a vector in which no later element is less than an earlier one |
| Float16Properties.NarrowingError | include/onnxruntime/onnxruntime_float16.h:246-322 | after the round trip the error is at most 2^-25 below 2^-14, and at most one part in 2^11 up to 65520 |
| Float16Properties.ClassesByValue | include/onnxruntime/onnxruntime_float16.h:90-163 | each class predicate holds exactly for the values its comment names |
| Float16Properties.SignOperationsByValue | include/onnxruntime/onnxruntime_float16.h:58-68 | Abs clears the sign bit and nothing else, zeros and NaNs included; Abs and Negate act on the value; Negate leaves NaN alone and undoes itself |
| Float16Properties.LessThanByKey | include/onnxruntime/onnxruntime_float16.h:185-213 | `operator<` compares the magnitudes with their signs in front, and AreZero ignores signs |
| Float16Properties.LessThanIsValueOrder | include/onnxruntime/onnxruntime_float16.h:199-213 | for every pair `operator<` is the order of the values and of the floats ToFloat returns, NaN unordered |
| Float16Properties.LessThanIsStrictWeakOrder | include/onnxruntime/onnxruntime_float16.h:199-213 | for all triples `operator<` is irreflexive, asymmetric and transitive; ties carry over if and only if it is not a NaN that stands between two numbers of different value; ties of numbers are the equal values |
| Float16Properties.NaNBreaksTheWeakOrder | include/onnxruntime/onnxruntime_float16.h:199-203 | the instance: 1 and 2 are both tied with any NaN, yet 1 is less than 2 |
| Float16Properties.EqualsIsValueEquality | include/onnxruntime/onnxruntime_float16.h:177-195 | `operator==` is equality of values if and only if the operands are not zeros of opposite sign |
| Float16Properties.ZerosAreNotEqual | include/onnxruntime/onnxruntime_float16.h:177-195 | the pair on which it fails |
| Float16Properties.Trichotomy | include/onnxruntime/onnxruntime_float16.h:185-213 | at most one of <, >, == holds for numbers, and one does unless they are zeros of opposite sign |
| Float16Properties.NegateReversesOrder | include/onnxruntime/onnxruntime_float16.h:66-68 | negating both operands reverses `operator<`, for every pair |
| Float16Properties.ConversionsCommuteWithNegate | include/onnxruntime/onnxruntime_float16.h:246-322 | narrowing -v is Negate of narrowing v, and widening commutes with Negate |
| BFloat16Impl.BFloat16.ToUint16Impl | include/onnxruntime/onnxruntime_float16.h:482-511 | in either byte order, the IEEE conversion to bfloat16, and 0x7FC1 for every NaN |
| BFloat16Impl.BFloat16.ToFloatImpl | include/onnxruntime/onnxruntime_float16.h:514-533 | in either byte order, the IEEE conversion to binary32, and the pattern 0x7FC00000 for every NaN |
| BFloat16Impl.BFloat16.FromFloat | include/onnxruntime/onnxruntime_cxx_api.h:377 | the constructor from float stores the narrowed value |
| BFloat16Impl.GetMsbHalf | include/onnxruntime/onnxruntime_float16.h:487-499 | both byte-copy branches return the more significant half of the word |
| BFloat16Impl.RoundUpperHalf | include/onnxruntime/onnxruntime_float16.h:501-508 | rounding the magnitude word to its upper half is rounding the number, subnormals, overflow and infinity included |
| BFloat16Impl.BiasNeverOverflows | include/onnxruntime/onnxruntime_float16.h:507 | the addition neither wraps nor reaches the sign bit, and makes no NaN out of a number or infinity |
| BFloat16Impl.NarrowedByAddition | include/onnxruntime/onnxruntime_float16.h:501-508 | the upper half of the sum is the IEEE conversion, sign included |
| BFloat16Impl.WidenedByPadding | include/onnxruntime/onnxruntime_float16.h:518-532 | sixteen zero bits below a pattern make the float of the same value |
| BFloat16Impl.PaddedBytes | include/onnxruntime/onnxruntime_float16.h:526-530 | in either byte order the two zeroed and two copied bytes are the object representation of val * 2^16 |
| Memory.UpperHalfBytes | include/onnxruntime/onnxruntime_float16.h:490-497 | the more significant half of a word sits at offset 2 in little-endian and at offset 0 in big-endian memory |
| Memory.NumberOfBytes | include/onnxruntime/onnxruntime_float16.h:487-499 | reading an object representation back gives the stored number |
| Memory.MemCopy | include/onnxruntime/onnxruntime_float16.h:494-496 | memcpy: the bytes copied, and all others unchanged |
| Memory.MemSet | include/onnxruntime/onnxruntime_float16.h:526-530 | memset: the bytes set, and all others unchanged |
| BFloat16Properties.NarrowingIsTiesToEven | include/onnxruntime/onnxruntime_float16.h:482-511 | a pattern is the result of narrowing a finite float if and only if it has its sign and is the one that roundTiesToEven allows |
| BFloat16Properties.NarrowedParts | include/onnxruntime/onnxruntime_float16.h:482-511 | NaN comes from NaN only and is 0x7FC1, infinity from infinity or from (2 - 2^-8) * 2^127 on, and the sign of a number is kept |
| BFloat16Properties.WideningIsExactB | include/onnxruntime/onnxruntime_float16.h:514-533 | every bfloat16 has the very same value as a float and a number keeps its sign; every NaN becomes 0x7FC00000 |
| BFloat16Properties.NarrowingUndoesWidening | include/onnxruntime/onnxruntime_float16.h:482-533 | bfloat16 to float to bfloat16 is the identity on numbers and gives 0x7FC1 for every NaN |
| BFloat16Properties.NarrowingIsIdempotent | include/onnxruntime/onnxruntime_float16.h:482-533 | a second trip through bfloat16 changes nothing, for any float |
| BFloat16Properties.SurvivorsAreBFloat16 | include/onnxruntime/onnxruntime_float16.h:482-533 | a float comes back unchanged if and only if its lower 16 bits are zero, and if and only if some bfloat16 has its value |
| BFloat16Properties.NarrowingClasses | include/onnxruntime/onnxruntime_float16.h:386-511 | exact preimages: zero up to 2^-134, subnormal below 2^-126 - 2^-134, normal below (2 - 2^-8) * 2^127, infinite from there on |
| BFloat16Properties.NarrowingIsMonotone | include/onnxruntime/onnxruntime_float16.h:482-511 | narrowing never swaps two floats under `operator<` |
| BFloat16Properties.NarrowingError | include/onnxruntime/onnxruntime_float16.h:482-533 | after the round trip the error is at most one part in 2^8 for normal numbers, and 2^-134 below them |
| BFloat16Properties.ClassesByValue | include/onnxruntime/onnxruntime_float16.h:378-451 | each class predicate holds exactly for the values its comment names |
| BFloat16Properties.LessThanIsValueOrder | include/onnxruntime/onnxruntime_cxx_inline.h:165-180 | for every pair `operator<` is the order of the values and of the floats ToFloat returns, NaN unordered |
| BFloat16Properties.LessThanIsStrictWeakOrder | include/onnxruntime/onnxruntime_cxx_inline.h:165-180 | for all triples `operator<` is irreflexive, asymmetric and transitive; ties carry over if and only if it is not a NaN that stands between two numbers of different value; ties of numbers are the equal values |
| BFloat16Properties.Trichotomy | include/onnxruntime/onnxruntime_cxx_inline.h:157-180 | at most one of <, >, == holds for numbers, and one does unless they are zeros of opposite sign |
| BFloat16Properties.NegateReversesOrder | include/onnxruntime/onnxruntime_float16.h:353-355 | negating both operands reverses `operator<`, for every pair |
| BFloat16Properties.ZerosAreNotEqual | include/onnxruntime/onnxruntime_cxx_inline.h:157-163 | the pair on which bit equality is not equality of values: +0 and -0 |
| BFloat16Properties.EqualsIsValueEquality | include/onnxruntime/onnxruntime_cxx_inline.h:157-163 | `operator==` is equality of values if and only if the operands are not zeros of opposite sign |
| BFloat16Properties.SignOperationsByValue | include/onnxruntime/onnxruntime_float16.h:345-355 | Abs clears the sign bit and nothing else, zeros and NaNs included; Abs and Negate act on the value; Negate leaves NaN alone and undoes itself |
| BFloat16Properties.ConversionsCommuteWithNegate | include/onnxruntime/onnxruntime_float16.h:353-533 | narrowing -v is Negate of narrowing v, and widening commutes with Negate |
| HalfEven.AddBiasThenTruncate | include/onnxruntime/onnxruntime_float16.h:276-285 | for every number and every shift, adding half a unit less one and the bit that will be lowest, then shifting, rounds half to even |
| Magnitudes.NearestOfMagnitude | include/onnxruntime/onnxruntime_float16.h:276-285 | for every pair of fraction widths, rounding the encoding as an integer is rounding the number, carries into the exponent included |
| Magnitudes.NearestOfMagicSum | include/onnxruntime/onnxruntime_float16.h:268-274 | for every format, adding a large enough power of two and rounding leaves the half-even quotient in the lowest bits |
| Magnitudes.NearestBrackets | include/onnxruntime/onnxruntime_float16.h:246-291 | the rounded encoding lies between the midpoints to its two neighbours, touching one only if it is even |
| Magnitudes.MagnitudeIsIeee | include/onnxruntime/onnxruntime_float16.h:299-301 | the value that exponent and fraction bits stand for is the closed form of section 3.4 |
| Formats.RoundingIsTiesToEven | include/onnxruntime/onnxruntime_float16.h:268-270 | the rounding the code relies on: a pattern satisfies the standard's wording if and only if the rounding function returns it |
| Formats.ThresholdIsMidpoint | include/onnxruntime/onnxruntime_float16.h:250-265 | the standard's overflow threshold is halfway between the largest finite number and the next power of two |
| Conversions.ConvertIsMonotone | include/onnxruntime/onnxruntime_float16.h:246-291 | between any two formats, conversion never swaps two numbers |
| Conversions.WideningIsExact | include/onnxruntime/onnxruntime_float16.h:294-322 | a format with at least as many bits in both fields holds every value of the smaller one |
| Conversions.RoundTrip | include/onnxruntime/onnxruntime_float16.h:246-322 | widening and narrowing back is the identity on every encoding but NaN, sign of zero included |
| Conversions.RoundTripFixes | include/onnxruntime/onnxruntime_float16.h:246-322 | narrowing and widening back fixes exactly the numbers of the small format |
| Conversions.RoundingError | include/onnxruntime/onnxruntime_float16.h:246-291 | half a step in the lowest binades and one part in 2^(fraction bits + 1) above |
| Conversions.RoundingClass | include/onnxruntime/onnxruntime_float16.h:246-291 | which magnitudes round to zero and which to a normal number, in any format |
| Conversions.KeyOrder | include/onnxruntime/onnxruntime_float16.h:199-213 | sign-and-magnitude order is value order, in any format |
| FloatArithmetic.AddIsCorrectlyRounded | include/onnxruntime/onnxruntime_float16.h:268-271 | float addition of finite numbers is the exact sum correctly rounded, with the sign of zero sums |
| FloatArithmetic.SubIsCorrectlyRounded | include/onnxruntime/onnxruntime_float16.h:306-309 | float subtraction of finite numbers is the exact difference correctly rounded, with the sign of zero differences |
| FloatArithmetic.AddOfNonFinite | include/onnxruntime/onnxruntime_float16.h:268-271 | a float sum is NaN exactly for a NaN operand or opposite infinities; any other infinite operand is the sum |
| FloatArithmetic.SubOfNonFinite | include/onnxruntime/onnxruntime_float16.h:306-309 | a float difference is NaN exactly for a NaN operand or equal infinities; any other infinite operand decides it |
| Words.ToInt16 | include/onnxruntime/onnxruntime_float16.h:90-92 | the cast keeps the number modulo 2^16 and lands in the range of int16_t |
| Words.BitwiseSplits | include/onnxruntime/onnxruntime_float16.h:256-300 | and, or, exclusive or act on the bits below and above any cut separately, for words of every width |
| Words.SignOf32 | include/onnxruntime/onnxruntime_float16.h:256-257 | masking with the sign mask and exclusive-or with the result split a float into sign and magnitude; exclusive-or with the mask inverts the top bit and nothing else |
| Words.SignOf16 | include/onnxruntime/onnxruntime_float16.h:58-68 | the sign masks of a 16-bit pattern strip, extract and invert its top bit and nothing else |
| Words.OrWithoutSign | include/onnxruntime/onnxruntime_float16.h:185-187 | or-ing two patterns and masking the sign gives zero exactly when both are zero up to sign |

## Left out

- The ARM64 MSVC branch of `ToFloatImpl` (lines 313-316): it negates the float where the other branch sets the sign bit; only the latter is modelled.
- Signalling NaNs, status flags, flush-to-zero and other rounding directions: the code assumes the default environment, and passing a float is modelled as passing its bits.
- The NaN patterns that float addition and `quiet_NaN()` return are implementation-defined in C++; the model fixes 0x7FC00000. The additions of the code never see a NaN.
- `operator!=`, `FromBits` and the conversion operators: one-line forwards of members that are modelled.
- memcpy, memset and the object representation of a float are library and language features; `Memory` states what they do.
- The remaining headers under `include/` (camera, Modbus and engine interfaces): declarations and constants.
- The server's own code under `src/` is not modelled at all: shared-memory image exchange, the event bus, auto focus and clarity calculation, motion control over PLC and serial port, camera drivers and enumeration, and the server with its worker threads.
