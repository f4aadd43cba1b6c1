# Verified models of the LPC54608 support code

This project models the arithmetic and bit-level core of the LPC54608 firmware in Dafny and proves what
that code computes, over all inputs and, where there is state, over whole runs. It covers the inline
fixed-point kernels of CMSIS-DSP, the decoders of the system PLL dividers, the CRC driver, the interrupt
priority layouts and the portable bit loops.

## How the model reads the C code

* Integers are mathematical; every cast, store and narrowing operation is written out as a wrap-around
  (`Words.ToI32` and its siblings) and `>>` on signed values is floor division. A lemma that says a result
  equals an expression without casts is therefore a proof that no width was left on the way.
* `&`, `|`, `^` are recursive functions on natural numbers (`Bits`), with lemmas that read masks and field
  insertions as arithmetic.
* Code that updates state in place is a class or a method on an array (`PidQ31.Controller`,
  `PidQ15.Controller`, `DelayLine.Line`, `CrcDriver.CrcType`, `Nvic.ByteNvic`, `Nvic.WordNvic`); its
  methods are tied to functions on values, and the properties of whole runs are lemmas about those
  functions. Loop-free value computations are functions.
* A ghost field (`inputs`, `stream`, `wire`) records the history a property speaks about.

| file | contents |
|---|---|
| `Words`, `Bits`, `Octets`, `Halfwords` | integer widths, bitwise operators, bytes and halfwords of a word |
| `Saturation`, `Lanes` | clips, `__SSAT`, saturating lane operations |
| `PidQ31`, `PidQ15` | PID controllers |
| `Reciprocal`, `BitLoops` | Newton reciprocals, leading zeros, bit reversal |
| `DelayLine` | circular buffer loops |
| `LinearInterp`, `BilinearInterp`, `BilinearQ31` | table interpolation |
| `Vector` | Clarke and Park transforms |
| `Divisors`, `Orbit`, `PllDecode`, `PllPeriod`, `PllCodes` | shift registers of the PLL dividers |
| `CrcDriver` | CRC driver on a register model |
| `Nvic` | interrupt priorities |

## Assumptions

* CRC engine: a 32-bit write to the data register acts as four byte writes, least significant byte first;
  writing SEED loads the running sum; with reversal and complement of the sum switched off SUM shows the
  running sum (`CrcDriver.ShowsRaw`). How a byte changes the sum is an arbitrary function of the input half
  of MODE, so nothing depends on a polynomial. Memory is little-endian.
* A reciprocal table has 64 entries. The results for positive inputs take a non-negative first estimate,
  and the accuracy results that it is accurate (`CloseQ31`, `CloseQ15`: relative error at most 2^-6).
* PID runs start from cleared state. The gains are the members A0, A1, A2 of the instance; the law is stated
  for gains derived as the documentation says, without wrap (`PidQ31.Derived`).
* In the packed Q15 build the gains A1 and A2 share one word of the instance; the model keeps them apart and
  packs them at the call.
* The packed Q15 controller is compiled only where the SIMD instructions exist, so its `__SMLALD` is the
  instruction, which sums the two products in 64 bits.
* Signed shifts, additions and subtractions wrap where C leaves overflow undefined; a precondition keeps a
  caller away from it only where the source has no meaning at all (negating the lowest value).

## Where the code and its comments disagree

The model follows the code; the members named prove when the comment holds.

* `arm_pid_q31` is documented to saturate its result (CMSIS/arm_math.h:4867). The stored sum wraps; it is
  the saturated one exactly when it fits or wraps to the limit itself, for every step
  (`PidQ31.SaturatesExactly`) and for every run (`PidQ31.RunSaturatesExactly`).
* `clip_q63_to_q15` and `clip_q31_to_q7` are documented as clips and wrap in a middle band
  (`Saturation.ClipQ63ToQ15Exact`, `Saturation.ClipQ31ToQ7Exact`).
* `arm_clarke_q31` is documented to be free of overflow (CMSIS/arm_math.h:5052); the cast of its second
  product turns over exactly for large |Ib| (`Vector.ClarkeSaturatesExactly`).
* `arm_recip_q31` is documented to compute 1/in (CMSIS/arm_math.h:561) and has a branch for inputs that are
  not positive; from a non-negative table entry that branch never gives the reciprocal of a negative input,
  because its result is not negative (`Reciprocal.RecipQ31`).
* The circular loops announce positive and negative increments (CMSIS/arm_math.h:5872); they serve exactly
  the increments from 0 to L whose sum with L fits 32 bits (`DelayLine.OffsetInRangeExactly`,
  `DelayLine.NegativeIncrementRuns`).
* A bilinear table is documented to need numRows * numCols entries (CMSIS/arm_math.h:6743-6752); the guard
  admits its last row and column, whose neighbours are read too. The exact length is in
  `BilinearInterp.GuardSufficesExactly`.
* `__SMLALD` in C sums its products in 32 bits; it differs from the instruction it stands in for at exactly
  one pair of operands (`PidQ15.SmlaldFallbackExactly`). No controller is built with it.
* CMSIS/core_armv8mbl.h:394 calls the first system handler priority word reserved; the index macro puts
  the exceptions -8 to -5 there.

## Limits no comment mentions

* `arm_bilinear_interp_q31` shifts its sum left by two without a clip; near -1.0 the result turns over to
  almost +1.0. The table bound that rules this out is exact (`BilinearQ31.NearExactlyAboveSafe`).
* `arm_linear_interp_q15` of a nondecreasing table is not nondecreasing across the lower end of the table
  when the first entry is positive; the condition is exact (`LinearInterp.MonotoneExactly`).
* The Park round trip loses less than five units in beta, and for some angles more than four. Four suffice
  while |cos| + 2 sin is at most 2^32; no limit a thousandth above would do (`Vector.FourUnitsThreshold`).

## Model

| member | source | states |
|---|---|---|
| Saturation.ClipQ63ToQ31Saturates | CMSIS/arm_math.h:511-516 | the clip is exact saturation to 32 bits for every 64-bit input |
| Saturation.ClipQ31ToQ15Saturates | CMSIS/arm_math.h:541-546 | the clip is exact saturation to 16 bits for every 32-bit input |
| Saturation.ClipQ63ToQ15Exact | CMSIS/arm_math.h:521-526 | it saturates x >> 15 if and only if x is outside the band 2^30 to 2^31 on either side, where it is one turn off |
| Saturation.ClipQ31ToQ7Exact | CMSIS/arm_math.h:531-536 | it saturates if and only if x is outside the band 2^7 to 2^23 on either side or happens to end in the limit byte; inside it keeps the low byte |
| Saturation.Mult32x64Exact | CMSIS/arm_math.h:552-558 | the two half products give the exact floor of x*y / 2^32, with no overflow |
| Saturation.QaddQsubSaturate | CMSIS/arm_math.h:900-915 | the 32-bit addition and subtraction saturate the exact sum and difference |
| Saturation.Ssat | CMSIS/arm_math.h:667-699 | the doubling loop clamps to [-2^(y-1), 2^(y-1) - 1] for every y from 1 to 31 |
| PidQ31.Controller.Process | CMSIS/arm_math.h:4869-4898 | one call returns and stores the output of the run over all inputs so far, and shifts the two remembered samples |
| PidQ31.RunRemembers | CMSIS/arm_math.h:4891-4894 | after any run the state holds the last two inputs, newest first |
| PidQ31.WrapsAreInvisible | CMSIS/arm_math.h:4876-4889 | wraps of the 64-bit accumulator never show in the stored 32-bit output |
| PidQ31.OutputIsIdealModulo | CMSIS/arm_math.h:4869-4898 | over every run the output is the unbounded ideal output modulo 2^32 |
| PidQ31.IncrementOfLaw | CMSIS/arm_math.h:4779-4785 | with the documented gains one increment of the positional PID law is A0 x[n] + A1 x[n-1] + A2 x[n-2] |
| PidQ31.PositionalIs | CMSIS/arm_math.h:4779-4785 | the positional law in terms of the last two samples and the sum of all |
| PidQ31.IdealTracksLaw | CMSIS/arm_math.h:4779-4785 | the ideal output stays below the positional law by less than one unit per sample |
| PidQ31.TracksExactlyWhenInRange | CMSIS/arm_math.h:4869-4898 | over every run the output tracks the positional law whenever the ideal output fits 32 bits, and for runs up to 2^32 samples only then |
| PidQ31.SaturatesExactly | CMSIS/arm_math.h:4885-4894 | in any state the stored output is the saturated exact sum if and only if that sum fits 32 bits or is one of the two values that wrap to the limit itself |
| PidQ31.RunSaturatesExactly | CMSIS/arm_math.h:4857-4898 | a whole run equals the documented saturating controller at every sample if and only if the condition holds at every step |
| PidQ31.OutputIsNotSaturated | CMSIS/arm_math.h:4867-4867 | the condition can fail: a two-sample run whose output wraps to -4 |
| PidQ15.Controller.Process | CMSIS/arm_math.h:4916-4956 | one call returns and stores the output of the run over all inputs so far, in either build |
| PidQ15.RunRemembers | CMSIS/arm_math.h:4949-4952 | after any run of either build the state holds the last two inputs, newest first |
| PidQ15.AccumulateExact | CMSIS/arm_math.h:4923-4941 | the scalar accumulation is the exact sum of products; the packed one exceeds it by one when A0 and the input are negative |
| PidQ15.StepExact | CMSIS/arm_math.h:4943-4952 | nothing else overflows: the output is A0 x[n] + A1 x[n-1] + A2 x[n-2], plus one in the packed build when A0 and x[n] are negative, shifted by 15, added to the last output and saturated |
| PidQ15.StepDrift | CMSIS/arm_math.h:4916-4956 | in one step the gap between the builds stays non-negative and grows by at most the sign product |
| PidQ15.DriftBounded | CMSIS/arm_math.h:4916-4956 | after every run the packed output is at least the scalar one and at most that plus the count of negative pairs |
| PidQ15.BoundIsReached | CMSIS/arm_math.h:4916-4956 | for every count up to the output range a run reaches that bound |
| PidQ15.SmlaldFallbackExactly | CMSIS/arm_math.h:962-973 | the C fallback equals the instruction if and only if not both operands are 0x80008000 |
| Halfwords.LanesOfPack | CMSIS/arm_math.h:994-1000 | the shift pairs read back the two packed halfwords |
| Halfwords.LanesOfSignExtended | CMSIS/arm_math.h:994-1000 | a sign-extended halfword carries its sign in the high lane |
| Halfwords.LanesByHalves | CMSIS/arm_math.h:962-973 | the shift pairs are sign extension of the two halves |
| BitLoops.Clz | CMSIS/cmsis_compiler.h:136-150 | 32 for zero; otherwise the shift that puts the leading one at bit 31 |
| BitLoops.Rbit | CMSIS/cmsis_armcc.h:517-531 | the early-exit loop computes the full 32-bit reversal |
| BitLoops.ReversedBit | CMSIS/cmsis_armcc.h:517-531 | bit k of the reversal is bit n-1-k of the word |
| BitLoops.ReversalInvolution | CMSIS/cmsis_armcc.h:517-531 | reversing twice gives the word back |
| Reciprocal.NewtonQ31Exact | CMSIS/arm_math.h:593-602 | for a normalised input and any non-negative estimate a step overflows nothing, makes the clip a no-op, stays strictly below the reciprocal and squares the error up to rounding |
| Reciprocal.NewtonQ31Is | CMSIS/arm_math.h:597-601 | a step for every input and estimate: the correction factor is unsigned and the clip is exact |
| Reciprocal.RefinedQ31Below | CMSIS/arm_math.h:593-602 | after any positive number of steps input times output stays below 2^61 |
| Reciprocal.TwoStepsConvergeQ31 | CMSIS/arm_math.h:593-602 | an estimate within 2^-6 gives after two steps a relative error below 2^-24 + 2^-28 |
| Reciprocal.RefinedQ31WrongSign | CMSIS/arm_math.h:593-602 | from a non-negative estimate no number of steps gives the negative reciprocal of a negative input |
| Reciprocal.RecipQ31 | CMSIS/arm_math.h:564-609 | for every input but -2^31: the returned exponent normalises it and the result is two steps from the table entry; for a positive input it is below the reciprocal and as close as the table allows, for any other it is not negative |
| Reciprocal.NewtonQ15Exact | CMSIS/arm_math.h:646-653 | the same for Q15; the clip that is commented out would change nothing |
| Reciprocal.NewtonQ15Is | CMSIS/arm_math.h:648-651 | a step for every input and estimate: the factor and the product are unsigned and the cast wraps |
| Reciprocal.RefinedQ15Below | CMSIS/arm_math.h:646-653 | after any positive number of steps input times output stays below 2^29 |
| Reciprocal.TwoStepsConvergeQ15 | CMSIS/arm_math.h:646-653 | an estimate within 2^-6 gives after two steps a relative error below 2^-13 + 2^-22 |
| Reciprocal.RecipQ15 | CMSIS/arm_math.h:615-660 | for every input but -2^15: exponent and result as in Q31; for a positive input below the reciprocal and as close as the table allows |
| DelayLine.OffsetInRange | CMSIS/arm_math.h:5972-5975 | for a served increment one conditional subtraction keeps the 32-bit offset in [0, L) for every number of steps |
| DelayLine.OffsetIsModulo | CMSIS/arm_math.h:5972-5975 | the offset after n steps is (offset + n * inc) mod L |
| DelayLine.OffsetInRangeExactly | CMSIS/arm_math.h:5972-5975 | every start stays in [0, L) for every number of steps if and only if the increment is between 0 and L and its sum with L fits 32 bits |
| DelayLine.AdvanceIs | CMSIS/arm_math.h:5972-5975 | where no sum leaves 32 bits a step adds the increment and takes the length off once if it was reached |
| DelayLine.NegativeIncrementRuns | CMSIS/arm_math.h:5872-5875 | a negative increment is never wrapped: after n steps the offset is the start plus n increments |
| DelayLine.CircularWrite | CMSIS/arm_math.h:5945-5983 | for every call whose accesses are in bounds sample k of the block, src[start + k * srcInc], is found at the k-th 32-bit offset unless a later one went there, the rest is untouched, and the offset is stored modulo 2^16 |
| DelayLine.CircularRead | CMSIS/arm_math.h:5989-6039 | for every call whose accesses are in bounds the value at the k-th ring offset is found at the k-th pointer position unless a later one went there, and the rest is untouched |
| DelayLine.DstInsideExactly | CMSIS/arm_math.h:6020-6025 | the equality test keeps the pointer inside forever if and only if it does not move, or moves up by a divisor of the length and of the distance to the end |
| DelayLine.DstIsModulo | CMSIS/arm_math.h:6020-6025 | then the pointer is its start plus k increments modulo the length |
| DelayLine.ScatteredBlock | CMSIS/arm_math.h:5989-6039 | each value of a block that fits the destination is found at its position modulo the length |
| DelayLine.BlockLands | CMSIS/arm_math.h:5945-5983 | with any served increment sample k of a block that fits the ring is found at offset + k * inc modulo L |
| DelayLine.HoldsAfterBlock | CMSIS/arm_math.h:5945-5983 | a block write preserves that the ring holds the last L samples of the whole stream |
| DelayLine.GatheredIsDelayed | CMSIS/arm_math.h:5989-6039 | a read started d behind the writer yields exactly the samples written d ago |
| DelayLine.Line.Write | CMSIS/arm_math.h:5945-5983 | any sequence of block writes appends src[start + k * srcInc] for each k to the stream, keeps its last L samples at their positions modulo L and an offset that survives the 16-bit store |
| DelayLine.Line.Read | CMSIS/arm_math.h:5989-6039 | a block read puts the samples written d ago at the destination positions modulo its length and leaves an offset that continues the delay |
| LinearInterp.SplitInput | CMSIS/arm_math.h:5543-5557 | the masks and shifts split a signed 12.20 input into floor and fraction |
| LinearInterp.InterpQ15IsExact | CMSIS/arm_math.h:5588-5630 | no cast changes a value: the routine is exact clamped interpolation with weights 2^20 - 1 |
| LinearInterp.InterpQ7IsExact | CMSIS/arm_math.h:5644-5687 | the same for Q7, which works in 32 bits |
| LinearInterp.InterpQ15Error | CMSIS/arm_math.h:5588-5630 | inside the table the result is exact rational interpolation less the left entry over 2^20 and a rounding below one unit; outside it is the nearer end entry |
| LinearInterp.InterpQ7Error | CMSIS/arm_math.h:5644-5687 | the same for Q7 |
| LinearInterp.InterpBetween | CMSIS/arm_math.h:5611-5629 | an interior result is at most one below the lower and never above the higher neighbour |
| LinearInterp.InterpMonotoneAbove | CMSIS/arm_math.h:5588-5630 | for a nondecreasing table of any length the result is nondecreasing over all inputs at or above zero |
| LinearInterp.MonotoneExactly | CMSIS/arm_math.h:5588-5630 | over all inputs it is nondecreasing if and only if the first entry is not positive or is the only one |
| LinearInterp.HighWordsFit | CMSIS/arm_math.h:5563-5570 | no product, high word or sum of the Q31 routine overflows |
| LinearInterp.InterpQ31Error | CMSIS/arm_math.h:5530-5572 | the result is twice the sum of the two high words, within five below and one above exact rational interpolation, for every index and fraction |
| LinearInterp.InterpQ31Ends | CMSIS/arm_math.h:5545-5552 | outside the table the result is the nearer end entry |
| BilinearInterp.WeightedSumBounds | CMSIS/arm_math.h:6763-6769 | the four weights make a mean of the corners |
| BilinearInterp.WeightedSumPlane | CMSIS/arm_math.h:6763-6769 | on a plane the weighted sum follows the x fraction along a row and the y fraction across rows |
| BilinearInterp.BlendQ7Exact | CMSIS/arm_math.h:7056-7073 | no width is left: the Q7 result is the weighted sum shifted by 40 |
| BilinearInterp.BlendQ7Between | CMSIS/arm_math.h:7056-7073 | it lies in [lowest corner - 1, highest corner] |
| BilinearInterp.BlendQ15Between | CMSIS/arm_math.h:6978-6999 | the Q15 result lies there too, and within the four dropped nibbles of the weighted sum |
| BilinearInterp.OutsideIs | CMSIS/arm_math.h:6957-6960 | a point is refused if and only if a coordinate is negative or names no row or column |
| BilinearInterp.OutsideIsZero | CMSIS/arm_math.h:6957-6960 | a refused point gives zero |
| BilinearInterp.CellIs | CMSIS/arm_math.h:6962-6976 | the corners are the entries at i + n j and i + 1 + n j and the two n further, and the fractions are the low 20 bits |
| BilinearInterp.InterpQ15Is | CMSIS/arm_math.h:6932-7000 | on every admitted point the result is the four entries with their two weights, each product cut by four bits, shifted by 36, with no cast changing a value |
| BilinearInterp.InterpQ7Is | CMSIS/arm_math.h:7010-7074 | on every admitted point the result is the four entries with their two weights, shifted by 40 |
| BilinearInterp.InterpQ15OnPlane | CMSIS/arm_math.h:6932-7000 | on a plane around the point the result is its exact value, at most 17/16 of a unit below and 1/16 above |
| BilinearInterp.InterpQ7OnPlane | CMSIS/arm_math.h:7010-7074 | the same for Q7, at most 1.001 below and 0.001 above |
| BilinearInterp.InterpQ15Between | CMSIS/arm_math.h:6932-7000 | the same for every admitted point of every table |
| BilinearInterp.InterpQ7Between | CMSIS/arm_math.h:7010-7074 | the same for every admitted point of every table |
| BilinearInterp.InterpQ15AtGrid | CMSIS/arm_math.h:6753-6754 | at integer coordinates entry (i, j), found at i + j * numCols, comes back unchanged, or one lower when positive |
| BilinearInterp.InterpQ7AtGrid | CMSIS/arm_math.h:6753-6754 | the same for Q7 |
| BilinearInterp.GuardSufficesExactly | CMSIS/arm_math.h:6957-6976 | the boundary test keeps all four reads inside the table if and only if the table is empty of points or longer than the last admitted read |
| BilinearQ31.BlendIsShifted | CMSIS/arm_math.h:6904-6921 | every product, high word and partial sum fits; only the final shift can leave 32 bits |
| BilinearQ31.HighSumLoss | CMSIS/arm_math.h:6904-6918 | the eight cuts together lose less than five units and a half of the accumulator |
| BilinearQ31.ShiftedExactly | CMSIS/arm_math.h:6920-6921 | the result is the shifted sum if and only if the sum is at least -2^29, and is then in [lowest corner - 23, highest corner + 1] |
| BilinearQ31.FlatAtSafe | CMSIS/arm_math.h:6904-6918 | with all corners at -2^31 + 13 the sum never goes below -2^29, for any fractions |
| BilinearQ31.NearExactlyAboveSafe | CMSIS/arm_math.h:6904-6921 | cells with corners at or above a bound all give results near their corners if and only if the bound is at least -2^31 + 13 |
| BilinearQ31.TurnsOverBelow | CMSIS/arm_math.h:6920-6921 | a flat cell at -2^31 + 12 that gives almost +1.0 |
| BilinearQ31.InterpQ31Near | CMSIS/arm_math.h:6858-6922 | every admitted point of a table above that bound gives a result near its four entries |
| BilinearQ31.InterpQ31Is | CMSIS/arm_math.h:6858-6922 | on every admitted point the result is four times the sum of the twice cut products of the four entries, one turn up if that sum is below -2^29 |
| BilinearQ31.OutsideQ31IsZero | CMSIS/arm_math.h:6883-6886 | a refused point gives zero |
| BilinearQ31.InterpQ31OnPlane | CMSIS/arm_math.h:6858-6922 | on a plane around the point, in a table above the threshold, the result is its exact value within 24 below and two above |
| BilinearQ31.InterpQ31AtGrid | CMSIS/arm_math.h:6753-6754 | at integer coordinates any entry (i, j) comes back within seven below and one above, even at -1.0 |
| Vector.ClarkeSaturatesExactly | CMSIS/arm_math.h:5054-5073 | beta is the saturated exact sum if and only if abs(Ib) is at most 1859775393 |
| Vector.ClarkeIs | CMSIS/arm_math.h:5054-5073 | for every input beta is the saturated sum of the two scaled currents, the second one turn off beyond the limit |
| Vector.ClarkeIsTransform | CMSIS/arm_math.h:5054-5073 | where nothing wraps or saturates beta is (Ia + 2 Ib) / sqrt 3 within three units |
| Vector.InvClarkeSaturates | CMSIS/arm_math.h:5151-5170 | for every input the inverse is the saturated difference of the two scaled components |
| Vector.InvClarkeIsTransform | CMSIS/arm_math.h:5151-5170 | where it does not saturate it is (sqrt 3 Ibeta - Ialpha) / 2 within two units |
| Vector.ClarkeRoundTrip | CMSIS/arm_math.h:5151-5170 | after Clarke without wrap or saturation the inverse returns Ia exactly and Ib between three below and one above |
| Vector.Mul31Exactly | CMSIS/arm_math.h:5276-5287 | a Q31 product is the exact floor unless both factors are -1.0 |
| Vector.Mul31Turned | CMSIS/arm_math.h:5276-5287 | that one product wraps to -1.0 |
| Vector.RotationsSaturate | CMSIS/arm_math.h:5265-5294 | for every input both outputs of Park and of its inverse are the saturated sum or difference of two products |
| Vector.RotationsAre | CMSIS/arm_math.h:5378-5407 | where no product turns over those products are the exact floors |
| Vector.ParkRoundTrip | CMSIS/arm_math.h:5378-5407 | Park and inverse Park return both components scaled by sin^2 + cos^2, within an error bound in terms of the angle values |
| Vector.ParkErrorUnits | CMSIS/arm_math.h:5378-5407 | that bound is four units for alpha, five below and three above for beta, and four for beta when abs(cos) + 2 sin is at most 2^32 |
| Vector.FourUnitsThreshold | CMSIS/arm_math.h:5378-5407 | beta comes back within four units for every vector and every angle with abs(cos) + 2 sin up to 2^32, and for no limit of 1.001 * 2^32 or more |
| Vector.ParkBetaBeyondFour | CMSIS/arm_math.h:5378-5407 | a vector and an angle just above the limit for which beta loses more than four units |
| PllDecode.StepIsShift | CMSIS/system_LPC54608.c:125-125 | a step shifts right and puts the parity of the taps on top, in all three registers |
| PllDecode.StepIs | CMSIS/system_LPC54608.c:125-125 | a step of each register in arithmetic |
| PllDecode.Search | CMSIS/system_LPC54608.c:121-131 | the loop returns the counter value at which the register met the code, or 0xFFFFFFFF when it never does |
| PllDecode.Decode | CMSIS/system_LPC54608.c:104-202 | each of the nine special codes gives its value, 0, 1 or 2; every other code is searched |
| PllDecode.Encode | drivers/fsl_clock.c:668-697 | the nine special codes, the register state ValMax + 1 - v steps from the seed, or the seed for larger values; also lines 738-767 and 808-837 |
| PllDecode.EncodedChain | drivers/fsl_clock.c:668-697 | the largest value encodes to one step from the seed and each smaller one to one step more |
| PllDecode.EncodedIsMasked | drivers/fsl_clock.c:94-98 | every code fits the register field, so the setter cuts nothing off |
| PllPeriod.Recurrence | CMSIS/system_LPC54608.c:125-125 | the output stream obeys the linear recurrence of the taps |
| PllPeriod.Square | CMSIS/system_LPC54608.c:104-202 | a relation m steps ahead gives one 2m steps ahead with doubled delays |
| PllPeriod.ReturnsAtPeriod | CMSIS/system_LPC54608.c:104-202 | after 255, 31 and 32767 steps the registers are back at their seeds |
| PllPeriod.MaximalPeriod | CMSIS/system_LPC54608.c:104-202 | they never are earlier |
| PllCodes.EveryWordOnce | CMSIS/system_LPC54608.c:104-202 | every non-zero word of the register's width is reached after exactly one number of steps below the period |
| PllCodes.AcceptsExactly | CMSIS/system_LPC54608.c:104-202 | a decoder accepts its three special codes and exactly the non-zero words of its width other than its seed |
| PllCodes.DecodeInvertsEncode | drivers/fsl_clock.c:668-875 | decoding an encoded value gives it back for every value the field holds, and 0xFFFFFFFF beyond |
| PllCodes.EncodeInvertsDecode | CMSIS/system_LPC54608.c:104-202 | encoding a decoded value gives the code back, so decoding is injective on what it accepts |
| PllCodes.BoardCodes | board/clock_config.c:108-110 | the codes the board writes decode to M = 15, N = 1, P = 1 |
| PllCodes.FindPllPreDiv | CMSIS/system_LPC54608.c:205-221 | one when bit 19 of the control register is set, else the decoded ten-bit field with zero read as one |
| PllCodes.FindPllPostDiv | CMSIS/system_LPC54608.c:224-240 | one when bit 20 is set, else twice the decoded seven-bit field modulo 2^32, with zero read as two |
| PllCodes.FindPllMMult | CMSIS/system_LPC54608.c:243-254 | the decoded seventeen-bit field with zero read as one |
| PllCodes.DividersSurvive | drivers/fsl_clock.c:1113-1119 | encoding, the setter mask, the lookup mask and the search, through the three divider lookups, give back every value the fields hold, with zero read as one and each bypass as one |
| CrcDriver.ModeIsSum | CMSIS/LPC54608.h:1519-1533 | the five MODE fields do not overlap |
| CrcDriver.FieldsOf | drivers/fsl_crc.c:92-98 | each mask reads its own bit of MODE |
| CrcDriver.SumBitsCleared | drivers/fsl_crc.c:100-101 | the temporary MODE differs in the two sum bits only |
| CrcDriver.ConfigRoundTrip | drivers/fsl_crc.c:60-108 | the configuration read back has the initial settings and the running sum as its seed |
| CrcDriver.RawSum | drivers/fsl_crc.c:100-104 | whatever MODE says, the seed read back is the running sum |
| CrcDriver.CheckpointResume | drivers/fsl_crc.c:60-108 | for every configuration and split, a computation read back and resumed after any other use of the engine ends as the uninterrupted one |
| CrcDriver.Init | drivers/fsl_crc.c:60-72 | MODE is the sum of the five settings at their bits and the running sum is the seed |
| CrcDriver.Reset | drivers/fsl_crc.c:83-88 | MODE is zero and the running sum 0xFFFF |
| CrcDriver.GetConfig | drivers/fsl_crc.c:90-108 | returns each setting from its bit of MODE and the sum with reversal and complement off, and leaves MODE and the sum as they were |
| CrcDriver.CrcType.WriteData32 | drivers/fsl_crc.c:126-126 | a word write feeds its four bytes, least significant first |
| CrcDriver.WriteData | drivers/fsl_crc.c:110-140 | for every buffer, length and alignment the engine ends as if fed byte by byte; the accesses are the bytes before the next word boundary, every whole word at its aligned address, and the bytes left |
| CrcDriver.FeedConcat | drivers/fsl_crc.c:110-140 | feeding a concatenation is feeding its parts in turn |
| CrcDriver.FeedByteIs | drivers/fsl_crc.c:117-117 | a byte changes the running sum as the low four bits of MODE say, and nothing else |
| CrcDriver.ScheduleIs | drivers/fsl_crc.c:110-140 | the schedule in numbers: how many bytes, words and bytes, and the address of each word |
| Nvic.RegisterExistsExactly | CMSIS/core_armv8mbl.h:1264-1266 | the addressed register exists if and only if the number is one whose priority can be set, in either layout |
| Nvic.FieldIs | CMSIS/core_armv8mml.h:2328-2328 | the stored field is the priority modulo 2^PRIO_BITS in the top bits |
| Nvic.LevelOfField | CMSIS/core_armv8mml.h:2351-2351 | reading a stored field gives the priority modulo 2^PRIO_BITS |
| Nvic.FieldAndLevelAre | CMSIS/core_armv8mml.h:2328-2351 | the stored field is (p mod 2^PRIO_BITS) * 2^(8 - PRIO_BITS) and it reads back divided by 2^(8 - PRIO_BITS) |
| Nvic.ByteLocation | CMSIS/core_armv8mml.h:2324-2334 | the field of a number is IPR[n] or SHPR[n + 12] |
| Nvic.WordLocation | CMSIS/core_armv8mbl.h:1264-1266 | the field of a number is byte n mod 4 of IPR[n / 4] or SHPR[(n + 8) / 4] |
| Nvic.ByteNvic.SetPriority | CMSIS/core_armv8mml.h:2324-2334 | one field of the memory changes, the one of the given number |
| Nvic.ByteNvic.GetPriority | CMSIS/core_armv8mml.h:2346-2357 | the field of the given number, shifted down |
| Nvic.InsertReplaces | CMSIS/core_armv8mbl.h:1474-1475 | mask, shift and or replace one byte of a word and no other bit |
| Nvic.BytesDetermine | CMSIS/core_armv8mbl.h:365-365 | the bytes of the word registers determine them, so the contracts below fix the whole state |
| Nvic.WordNvic.SetPriority | CMSIS/core_armv8mbl.h:1470-1482 | the read-modify-write changes one field of the memory, the one of the given number |
| Nvic.WordNvic.GetPriority | CMSIS/core_armv8mbl.h:1494-1505 | the field of the given number, shifted down |
| Nvic.LayoutsAgree | CMSIS/core_armv8mbl.h:1470-1505 | the two numberings of the fields agree over any run of calls |
| Nvic.LastSetWins | CMSIS/core_armv8mml.h:2324-2357 | after any run a field reads as the last priority set for its number modulo 2^PRIO_BITS |
| Nvic.NeverSetKeeps | CMSIS/core_armv8mml.h:2324-2334 | a run without a Set for a number keeps its field |
| Nvic.AnswersAreRight | CMSIS/core_armv8mml.h:2324-2357 | over any run there is one answer per Get call, and it is the last priority set before it modulo 2^PRIO_BITS or what the field held at first |
| Nvic.RunBytes | CMSIS/core_armv8mml.h:2324-2357 | over any run of SetPriority and GetPriority calls on the byte registers every field reads as the last priority set for it modulo 2^PRIO_BITS, or as before, and the values returned are those of the run |
| Nvic.RunWords | CMSIS/core_armv8mbl.h:1470-1505 | the same on the packed word registers |
| Nvic.RunBoth | CMSIS/core_armv8mbl.h:1470-1505 | the byte registers and the word registers, driven by the same calls from matching contents, return the same values and end with matching contents |
| Nvic.BitsPartition | CMSIS/core_armv8mml.h:2377-2378 | preemption and subpriority bits add up to PRIO_BITS for every group |
| Nvic.EncodeIs | CMSIS/core_armv8mml.h:2380-2383 | the encoded value is the reduced pair read as one number below 2^PRIO_BITS |
| Nvic.DecodeOfEncode | CMSIS/core_armv8mml.h:2399-2409 | decoding an encoded pair gives the pair reduced to its widths |
| Nvic.EncodeOfDecode | CMSIS/core_armv8mml.h:2371-2384 | encoding a decoded value gives it back modulo 2^PRIO_BITS |
| Nvic.EncodedOrder | CMSIS/core_armv8mml.h:2371-2384 | encoded values are ordered as their pairs, preemption first |
| Nvic.PairThroughBytes | CMSIS/core_armv8mml.h:2324-2409 | a pair put through Encode, SetPriority, GetPriority and Decode on the byte registers comes back reduced to its widths, and no other field changes |
| Nvic.PairThroughWords | CMSIS/core_armv8mbl.h:1470-1505 | the same on the word registers |
| Lanes.LanesAreBytes | CMSIS/arm_math.h:718-721 | the shift pairs are sign extension of the four bytes |
| Lanes.LanesOfPack4 | CMSIS/arm_math.h:723-723 | unpacking a merged word gives its four lanes |
| Lanes.PackOfLanes | CMSIS/arm_math.h:723-723 | merging the lanes of a word gives the word |
| Lanes.Qadd8 | CMSIS/arm_math.h:712-724 | unpack, add exactly, clamp, repack |
| Lanes.Qsub8 | CMSIS/arm_math.h:730-742 | unpack, subtract exactly, clamp, repack |
| Lanes.Qadd16 | CMSIS/arm_math.h:748-759 | the same on two halfwords |
| Lanes.Qsub16 | CMSIS/arm_math.h:781-791 | the same on two halfwords |
| Lanes.Qasx | CMSIS/arm_math.h:813-823 | clamped x + i y on a complex pair |
| Lanes.Qsax | CMSIS/arm_math.h:845-855 | clamped x - i y on a complex pair |
| Lanes.AddedLane | CMSIS/arm_math.h:712-724 | each lane of the sum word is the clamped exact sum of the two lanes |
| Lanes.SubtractedLane | CMSIS/arm_math.h:730-742 | each lane of the difference word is the clamped exact difference |
| Lanes.HalvesAre | CMSIS/arm_math.h:748-855 | each half of the four 16-bit results is the clamped exact sum or difference of the two halves it combines |
| Lanes.UndoExactly8 | CMSIS/arm_math.h:712-742 | subtracting what was added restores the word if and only if no lane of the sum saturated |
| Lanes.UndoExactly16 | CMSIS/arm_math.h:748-791 | the same for halfwords |
| Lanes.UndoExchangeExactly | CMSIS/arm_math.h:813-855 | the second exchanging operation undoes the first if and only if neither part saturated |
| Lanes.ExchangeMirror | CMSIS/arm_math.h:813-855 | the two exchanging operations are mirror images under swapping halves |

## Left out

- Floating-point functions (`arm_*_f32`, `arm_*_f64`): fixed point is where the widths matter.
- Functions that arm_math.h only declares (filters, FFT, matrix, LMS, `arm_pid_init_*`): no body to model.
- Table contents and gain derivation: hypotheses of the accuracy results and of the PID law.
- Saturation.Ssat: the bit counts 0 and above 31, for which the doubling loop overflows.
- Reciprocal.RecipQ31: the input -2^31, whose negation and shift C leaves undefined.
- Reciprocal.RecipQ15: the input -2^15, whose shift count is negative; for other negative inputs the unclipped result may wrap, and only how it is computed is stated.
- Vector.FourUnitsThreshold: the exact limit inside the last thousandth above 2^32, which depends on which residues modulo 2^31 a vector can reach together.
- DelayLine.CircularWrite: overlapping source and buffer.
- DelayLine.CircularRead: overlapping destination and buffer.
- Halving lane operations (`__SHADD16` and its siblings) and the remaining SIMD fallbacks: no saturation, easy members.
- `SystemCoreClockUpdate`: as a frequency formula it is not meaningful, since its last product overwrites the post-divided rate; only its decoders and divider lookups are modelled.
- CrcDriver.Init: the clock gate of the peripheral.
- The polynomial arithmetic inside the CRC engine: hardware, a parameter here.
- TrustZone `_NS` copies of the interrupt functions, enable and pending bits, vectors: the same code or one-line accesses.
- Exclusive accesses, barriers, inline assembly, compiler selection: definitional.
- ADC, PHY, SDRAM, clock boot and other peripheral drivers, `InstallIRQHandler`, deep-sleep helpers, MPU load, SysTick: polling and register plumbing with easy properties.
- The network, TLS and MQTT code the repository's own README names: not part of this model.
