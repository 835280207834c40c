# Verified cores of the vendored QuickJS libraries

The repository wraps the QuickJS engine; the algorithms worth a proof are in four of its vendored
libraries. This project models them in Dafny and proves what they compute:

- **`libbf.c`, arbitrary-precision arithmetic.** A number is a little-endian vector of limbs in a
  symbolic radix `B` (`Limbs.Val`), so the same definitions serve binary limbs and limbs of decimal
  digits, whose machine words wrap above the radix. On it: addition, subtraction and multiplication with carries, division by a precomputed
  inverse, schoolbook and Newton division, the Karatsuba square root, radix conversion, bitwise logic,
  division by multiplication, and the number-theoretic multiplication up to its butterflies. Binary
  floating point sits above it: rounding, normalization and addition, compared with a definition of
  correct rounding over real numbers (`RoundSpec.Correct`, after section 4.3 of IEEE 754-2008) and with the set of
  numbers of a format, its exponents, modes and overflow rules written out (`FloatFormat`, `FloatBest`).
- **`libregexp.c`, the regular-expression compiler and machine.** Patterns are syntax trees;
  `ReSyntax.Compile` gives the code of a pattern, class `ReCompiler.Compiler` produces exactly the
  bytes of that code by inserting, copying, patching and rotating, `ReVm.Step` is one step of the
  backtracking machine and class `ReExec.ExecContext` runs it. `ReMatch.Results` is an independent
  meaning: the list of all results of a pattern in priority order. The theorems tie the three together, for
  every pattern and subject, and compare the meaning with section 21.2.2 of ECMA-262 (ES2020). `ReSpan.Spans` is a second,
  declarative meaning, a relation between two places in a text of code points that knows neither order nor direction:
  without back references the results end exactly where it holds, and a run finds a match exactly if there is one.
- **`libunicode.c` and `libunicode.h`, character-range sets**, up to the class opcodes of the compiler.
- **`cutils.c`, `rqsort`**, with its heapsort fallback and its stack of 50 slots.

Every integer width is written out: a limb operation wraps at `B`, a double limb at `B * B`, a
decimal limb at the size of its word; shifts and masks are quotients and remainders by powers of two, and an
`|` of disjoint bits is an addition.

## Where the code departs from what is expected of it

- The last row of `mp_pow_div` for 64-bit limbs is not the value of the formula that gives the other rows, and
  division by 10^19 is exact all the same (`FastDivision.LastRow`).
- A greedy loop over an atom that can match the empty string ends with an empty iteration, where ECMA-262
  rejects the iteration: `/(?:|a)*/` on `"a"` matches nothing instead of one character
  (`ReDiffer.EmptyIterationDiffers`). The captures of an optional loop are reset once before it, where ECMA-262 clears
  them in every iteration: `/(?:(a)|b)*/` on `"ab"` keeps group 1 (`ReDiffer.KeptCaptureDiffers`).
  `ReEcma.QuantExact` says exactly when a loop whose atom does not refer back to its own groups is free of both,
  and `ReEcma.GroupFreeExact` when its atom has no groups.
- A lazy unbounded loop has no check for progress, and neither has a greedy one whose atom refers back to a group
  of its own. Such a loop, if what follows rejects all that it offers, ends if and only if no state that its
  iterations reach comes back to itself (`ReEndless.EndsIff`, `ReForever.RunEndsIff`,
  `ReForever.PlusRunEndsIff`); `/(?:)*?[]/` never ends (`ReForever.EmptyNeverHalts`).
  `ReSyntax.NodeOk` asks of the atoms of these loops only that they make progress, by their code or because they
  cannot be empty, and then every run ends (`ReProgram.ProgramCorrect`).
- `cr_union_interval` with an upper end of UINT32_MAX adds a point that wraps to zero: from zero on it adds
  nothing, and from anywhere else it leaves the set as it was, puts a zero out of order or loses an interval that
  starts at zero (`CharRanges.CharRange.UnionInterval`, `CharRanges.WrappedInOrder`).
- `init_mul_mod_fast` asserts `m >= 2^k`, but at `m == 2^k` its result does not fit a limb and becomes zero
  (`ModularReduction.InitModFast`); the moduli in the tables are all larger.

## Model

| member | source | states |
|---|---|---|
| `LimbOps.MpAdd` | cxx/quickjs/libbf.c:1024-1040 | the limbs and the carry out are the sum of both operands and the carry in; nothing outside the range changes |
| `LimbOps.MpAddUi` | cxx/quickjs/libbf.c:1042-1056 | the same for one limb, although the loop stops at the first limb without a carry |
| `LimbOps.MpSub` | cxx/quickjs/libbf.c:1058-1074 | the difference, with the borrow out as a unit of B^n |
| `LimbOps.MpNeg` | cxx/quickjs/libbf.c:1077-1092 | the negation modulo B^n, with its borrow |
| `LimbOps.MpSubUi` | cxx/quickjs/libbf.c:1094-1109 | subtraction of one limb with an early end of the loop |
| `LimbOps.MpShr` | cxx/quickjs/libbf.c:1113-1127 | the quotient by a power of two with the high bits shifted in, and the remainder returned |
| `LimbOps.MpMul1` | cxx/quickjs/libbf.c:1130-1142 | the product by one limb plus one limb, with the high limb returned |
| `LimbOps.MpAddMul1` | cxx/quickjs/libbf.c:1145-1158 | the sum of the old limbs and the product by one limb |
| `LimbOps.MpMulBasecase` | cxx/quickjs/libbf.c:1161-1172 | the limbs of the product of two vectors of any lengths |
| `LimbOps.MpSubMul1` | cxx/quickjs/libbf.c:1198-1211 | the old limbs minus the product by one limb, with the value still to subtract from the limb above |
| `LimbOps.MpCmp` | cxx/quickjs/libbf.c:1415-1427 | -1, 0 or 1 exactly as the numbers compare |
| `LimbDivision.Udiv1NormInit` | cxx/quickjs/libbf.c:1213-1220 | the inverse satisfies the inequality that the estimate below rests on |
| `LimbDivision.EstimateBounds` | cxx/quickjs/libbf.c:1224-1242 | for every normalized divisor the quotient estimated by the inverse is the true one or one less |
| `LimbDivision.Udiv1Norm` | cxx/quickjs/libbf.c:1224-1242 | the true quotient and remainder of two limbs, for every a1 < d |
| `VectorDivision.MpDiv1Norm` | cxx/quickjs/libbf.c:1245-1265 | q * b + r = a and r < b for a divisor of one normalized limb, in place or not |
| `VectorDivision.TrialDigitBounds` | cxx/quickjs/libbf.c:1310-1320 | a quotient digit taken from the two top limbs is never too small and at most two too large |
| `VectorDivision.DivDigit` | cxx/quickjs/libbf.c:1310-1341 | one quotient digit and the reduced window, after at most two add-backs |
| `VectorDivision.DivFirst` | cxx/quickjs/libbf.c:1296-1308 | the first digit is 0 or 1, and the top of the dividend is reduced below the divisor |
| `VectorDivision.MpDivSchool` | cxx/quickjs/libbf.c:1291-1344 | q * b + r = a, r < b and a top quotient limb of at most 1, for all na >= nb >= 1 |
| `VectorDivision.MpDivNormBase` | cxx/quickjs/libbf.c:1275-1344 | the same, with the special case of a divisor of one limb |
| `VectorDivision.QuotientTop` | cxx/quickjs/libbf.c:1271-1274 | any quotient by a normalized divisor has a top limb of at most 1 |
| `Reciprocal.RecipBase` | cxx/quickjs/libbf.c:1356-1373 | ceil(B^2n / a) - 1 by division, for one or two limbs |
| `Reciprocal.RecipCorrect` | cxx/quickjs/libbf.c:1387-1393 | after the corrections the product of a and the half inverse is below B^(n+h), and the half inverse is still near |
| `Reciprocal.MpRecip` | cxx/quickjs/libbf.c:1346-1412 | a * x < B^2n < a * (x + 2) and a top limb of 1, through the recursion and in place |
| `LargeDivision.ScaleDivisor` | cxx/quickjs/libbf.c:1453-1469 | the divisor padded or cut to n limbs and rounded up, with the overflow to B^n reported |
| `LargeDivision.EstimateBelow` | cxx/quickjs/libbf.c:1470-1478 | the quotient estimated by the inverse is never too large and at most eleven too small |
| `LargeDivision.EstimateQuotient` | cxx/quickjs/libbf.c:1444-1478 | the limbs written as the quotient satisfy that bound |
| `LargeDivision.MpDivNormLarge` | cxx/quickjs/libbf.c:1432-1522 | quotient and remainder exactly as the base case gives them |
| `LargeDivision.MpDivNorm` | cxx/quickjs/libbf.c:1275-1290 | quotient and remainder whichever method is chosen by size |
| `WordSqrt.SqrtStep` | cxx/quickjs/libbf.c:1899-1924 | from the root of the high half to the root of the whole: the quotient is at most m, and one correction is enough |
| `WordSqrt.Sqrt16` | cxx/quickjs/libbf.c:1891-1897 | table look-up and one correction give root and remainder of every 16-bit number with a bit among the top two |
| `WordSqrt.Sqrt64` | cxx/quickjs/libbf.c:1885-1928 | s * s + r = a with 0 <= r <= 2s for every 64-bit word with a bit among the top two |
| `WordSqrt.SqrtUnique` | cxx/quickjs/libbf.c:2044-2047 | at most one s and r satisfy that |
| `VectorSqrt.SqrtRem1` | cxx/quickjs/libbf.c:1885-1928 | the root of one limb, of 32 or of 64 bits |
| `VectorSqrt.SqrtRem2` | cxx/quickjs/libbf.c:1944-1970 | the root of two limbs with the extra bit of the remainder, including the case q = 2^l |
| `VectorSqrt.SqrtDivide` | cxx/quickjs/libbf.c:1998-2014 | half the quotient by the root of the high half, with remainder, when the remainder has an extra bit and when the quotient is odd |
| `VectorSqrt.SubtractSquare` | cxx/quickjs/libbf.c:2025-2034 | the square of the low part is subtracted, by a single borrow when it is B^l |
| `VectorSqrt.SqrtCorrect` | cxx/quickjs/libbf.c:2020-2040 | after at most one correction the limbs are root and remainder |
| `VectorSqrt.MpSqrtRemRec` | cxx/quickjs/libbf.c:1974-2042 | root and remainder of 2n limbs through the recursion, for every n >= 1 |
| `VectorSqrt.MpSqrtRem` | cxx/quickjs/libbf.c:2044-2068 | s * s + r = a and 0 <= r <= 2s for every 2n-limb a whose top limb is at least B/4 |
| `DecimalLimbs.Dec64` | cxx/quickjs/libbf.h:43-48 | the 64-bit word and 10^19 meet everything the decimal code assumes of word and base |
| `DecimalLimbs.Dec32` | cxx/quickjs/libbf.h:54-59 | so do the 32-bit word and 10^9 |
| `DecimalLimbs.MpAddDec` | cxx/quickjs/libbf.c:5565-5582 | the sum of decimal limbs and the carry out, although twice the base does not fit a 64-bit word |
| `DecimalLimbs.MpSubDec` | cxx/quickjs/libbf.c:5605-5621 | the difference of decimal limbs with its borrow |
| `DecimalLimbs.DivBaseWide` | cxx/quickjs/libbf.c:5412-5431 | quotient and remainder by 10^19 of two words, through wrapped words and sign masks |
| `DecimalLimbs.DivBaseNarrow` | cxx/quickjs/libbf.c:5435-5449 | quotient and remainder by 10^9 of two words, by a precomputed inverse of other shifts |
| `DecimalLimbs.MpMul1Dec` | cxx/quickjs/libbf.c:5645-5658 | the product of decimal limbs by one limb plus one limb, with the limb carried out |
| `DecimalLimbs.MpSubMul1Dec` | cxx/quickjs/libbf.c:5681-5704 | the old limbs minus the product by one limb, with the limb still to subtract from above |
| `DecimalDivision.ScaledTop` | cxx/quickjs/libbf.c:5866 | for every even radix the multiplier B / (v + 1) brings a top limb v to at least B / 2 |
| `DecimalDivision.ScaledDivisor` | cxx/quickjs/libbf.c:5865-5875 | the scaled divisor still fits its limbs and is normalized |
| `DecimalDivision.HalveDec` | cxx/quickjs/libbf.c:5732-5748 | halving a vector of decimal limbs, with the bit carried from limb to limb |
| `DecimalDivision.MpDiv1Dec` | cxx/quickjs/libbf.c:5724-5785 | q * b + r = a and r < b for every b from 1 to the base, in each of the branches: b = 2, the inverse of b shifted up, and the plain division |
| `DecimalDivision.DecDigit` | cxx/quickjs/libbf.c:5884-5919 | one quotient digit of decimal limbs and the reduced window, after at most two add-backs |
| `DecimalDivision.MpDivDec` | cxx/quickjs/libbf.c:5818-5934 | q * b + r = a and r < b in base 10^9 on 32-bit words and base 10^19 on 64-bit words, whose carries wrap at the word and not at the base, for every divisor with a non-zero top limb |
| `FastDivision.FastUdivExact` | cxx/quickjs/libbf.c:5485-5491 | the word operations give the quotient whenever the multiplier's error is small enough for a |
| `FastDivision.FastUdivCorrect` | cxx/quickjs/libbf.c:5461-5491 | floor(a / d) for every word a, with the multiplier and shifts of the formula |
| `FastDivision.FastUdivInit` | cxx/quickjs/libbf.c:5464-5483 | the multiplier and shifts computed are those of the formula |
| `FastDivision.Rows32` | cxx/quickjs/libbf.c:5519-5531 | all the 32-bit rows are the formula's values for powers of ten |
| `FastDivision.Rows64Low` | cxx/quickjs/libbf.c:5533-5542 | so are the 64-bit rows below 10^10 |
| `FastDivision.Rows64High` | cxx/quickjs/libbf.c:5543-5551 | and those from 10^10 to 10^18 |
| `FastDivision.LastRow` | cxx/quickjs/libbf.c:5552 | the row for 10^19 is not the formula's value, and still gives floor(a / 10^19) for every word |
| `FastDivision.FastShrDec` | cxx/quickjs/libbf.c:5556-5560 | division by every power of ten in both tables is exact for every word |
| `RadixConversion.Split` | cxx/quickjs/libbf.c:2704-2705 | both parts of a split are non-empty nodes of the next level |
| `RadixConversion.LevelBound` | cxx/quickjs/libbf.c:2704-2707 | a node that is split has 2^level < n0 |
| `RadixConversion.IndexFits` | cxx/quickjs/libbf.c:2741-2746 | hence the tables of ceil_log2(n0) + 2 powers, marked as unchecked in the source, are long enough |
| `RadixConversion.LevelPower` | cxx/quickjs/libbf.c:2707-2712 | the memoized power depends only on the level |
| `RadixConversion.FromRadixRec` | cxx/quickjs/libbf.c:2692-2729 | the weighted sum of the digits, at every node |
| `RadixConversion.FromRadix` | cxx/quickjs/libbf.c:2732-2753 | the weighted sum of all the digits |
| `RadixConversion.AdjustedDivision` | cxx/quickjs/libbf.c:3417-3441 | the correction loops make any estimate of the quotient exact, and the number of corrections is its distance from the quotient |
| `RadixEstimates.EstimateNear` | cxx/quickjs/libbf.c:3408-3419 | with the precisions chosen, the truncated product by the rounded inverse is the quotient or one off |
| `RadixEstimates.OneCorrection` | cxx/quickjs/libbf.c:3398-3441 | at every node of the recursion, whose upper part is at most one limb longer than the lower, at most one correction is made |
| `RadixConversion.ToRadixRec` | cxx/quickjs/libbf.c:3372-3456 | n digits below the radix with the number's value, and no other place written |
| `RadixConversion.ToRadix` | cxx/quickjs/libbf.c:3459-3482 | the same for a whole number below radix^n |
| `RadixConversion.RoundTrip` | cxx/quickjs/libbf.c:3372-3482 | converting to a radix and back gives the number |
| `RadixConversion.DigitsUnique` | cxx/quickjs/libbf.c:3459-3482 | no other vector of n digits has that value |
| `BitwiseLogic.BitIsFloor` | cxx/quickjs/libbf.c:2304-2320 | the bits used below are those of the infinite two's-complement expansion |
| `BitwiseLogic.AboveWindow` | cxx/quickjs/libbf.c:2362-2375 | above the chosen window every bit of the result is its sign |
| `BitwiseLogic.OperandDigit` | cxx/quickjs/libbf.c:2378-2385 | the limb read at an operand's bit offset is that limb of the integer, also below and above the limbs stored |
| `BitwiseLogic.HeldValue` | cxx/quickjs/libbf.c:2322-2360 | a float that holds an integer, in that sense, has this value |
| `BitwiseLogic.LogicOperation` | cxx/quickjs/libbf.c:2322-2406 | or, xor and and of floats that are integers of any sign and exponent, read limb by limb at their bit offsets: bit i of the result is the disjunction, the inequality or the conjunction of the bits i of the infinite two's-complement expansions |
| `LimbBits.GetBit` | cxx/quickjs/libbf.c:341-348 | the bit of the number at any position, zero outside |
| `LimbBits.ScanBitNz` | cxx/quickjs/libbf.c:372-391 | whether the number has a bit at or below a position |
| `Rounding.GetRndAdd` | cxx/quickjs/libbf.c:393-446 | whether the mode adds a unit, from the exact remainder, and whether the remainder is not zero, for any precision including prec <= 0 |
| `Rounding.AddUnit` | cxx/quickjs/libbf.c:525-550 | the unit is added; on a carry out only the top bit is left above the unit |
| `Rounding.Trim` | cxx/quickjs/libbf.c:570-587 | the bits below the unit are cleared and the lowest limb left is not zero |
| `RoundSpec.RoundAmongFloats` | cxx/quickjs/libbf.c:393-446 | rounding to a multiple of the unit is best among all floats of the precision, of any exponent |
| `RoundSpec.RoundIsCorrect` | cxx/quickjs/libbf.c:479-589 | the integer rounding meets the definition over the reals at every scale |
| `RoundSpec.StickyRounds` | cxx/quickjs/libbf.c:993-994 | a sticky bit two places below the unit rounds as the exact tail does, in every mode |
| `RoundSpec.RoundRealUp` | cxx/quickjs/libbf.c:479-589 | the rounding of real numbers used below is the integer rounding, on floats |
| `BigFloats.SetOverflow` | cxx/quickjs/libbf.c:448-477 | infinity, or for a finite precision in a mode towards zero (RNDZ, RNDD on a positive number, RNDU on a negative one) the number (2^prec - 1) * 2^(e_max - prec) |
| `FloatRounding.Round` | cxx/quickjs/libbf.c:479-589 | the outcome for every mantissa, as a function of its exact value: rounded to the last place of the format, subnormal numbers and precision after the radix point included; overflow and underflow at the limits 2^(2^(bits-1)) and 2^(2-2^(bits-1)); and the flags |
| `BigFloats.OutcomeCorrect` | cxx/quickjs/libbf.c:479-589 | in range that outcome is the value required by the standard, normalized with a non-zero lowest limb, and INEXACT is set exactly when the value changed |
| `FloatRounding.NormalizeAndRound` | cxx/quickjs/libbf.c:591-625 | any limbs are brought to a set top bit without changing the value, and what is left is that value rounded as above; zero gives zero |
| `FloatFormat.RoundRealMeans` | cxx/quickjs/libbf.c:393-446 | for each mode and sign by name, where the rounded value lies: on the required side within one unit, or within half a unit with the tie to an even multiple or away from zero |
| `FloatFormat.OutcomeDelivers` | cxx/quickjs/libbf.c:479-589 | the outcome on limbs is what the exact value demands, with the last place max(e, 3 - 2^(bits-1)) - prec, or -prec after the radix point |
| `FloatBest.AmongFormat` | cxx/quickjs/libbf.c:448-589 | the result is a number of the format (with or without subnormal ones) or infinity, and no number of the format is better in the mode, infinity standing for 2^(2^(bits-1)); only below the smallest normal number, if subnormal ones are off, may it be flushed to zero |
| `FloatAddition.GetBits` | cxx/quickjs/libbf.c:318-339 | a limb of bits at any position, also negative, with zeros outside the number |
| `FloatAddition.CmpU` | cxx/quickjs/libbf.c:736-761 | magnitudes compared by exponent and then by limbs of different lengths |
| `FloatAddition.CountCancelled` | cxx/quickjs/libbf.c:807-866 | at least the number of leading zeros of the difference |
| `FloatSum.LowLimbs` | cxx/quickjs/libbf.c:935-981 | the carry out of the limbs below the result and whether any of them is non-zero, with gaps of any length skipped |
| `FloatAdder.Sum` | cxx/quickjs/libbf.c:926-1002 | the exact sum cut to the result's limbs, with a faithful sticky bit |
| `FloatExact.SumRounds` | cxx/quickjs/libbf.c:993-1004 | rounding the cut sum is rounding the exact sum, and INEXACT agrees |
| `FloatExact.RoundedExact` | cxx/quickjs/libbf.c:993-1004 | rounding the cut sum gives the same number as the exact sum rounded to the unit of the precision |
| `FloatAdder.AddFinite` | cxx/quickjs/libbf.c:909-1004 | the whole outcome of adding or subtracting finite numbers of ordered magnitude, as a function of the exact value, precision and flags: the rounded value, overflow exactly if it leaves the range, underflow, zero or one unit when no bit of precision is left, and every flag |
| `FloatAdder.AddSpecial` | cxx/quickjs/libbf.c:889-907 | NaN, infinities, invalid differences and zeros |
| `FloatAdder.AddInternal` | cxx/quickjs/libbf.c:868-1010 | for all operands: that outcome of the exact signed sum, the sign of an exact zero, and every special case |
| `ModularReduction.InitModFast` | cxx/quickjs/libbf.c:7418-7425 | the inverse fits a limb exactly when m is not 2^k |
| `ModularReduction.ModFast` | cxx/quickjs/libbf.c:7387-7406 | the remainder of every double limb below 2^(LIMB_BITS+k), through wrapped arithmetic and sign masks |
| `ModularReduction.MulModFast2` | cxx/quickjs/libbf.c:7427-7439 | a * b mod m from low limbs only |
| `NttReconstruction.ResidueStep` | cxx/quickjs/libbf.c:8179-8191 | subtracting a digit and multiplying by the inverse is division by the modulus, in the residues |
| `NttReconstruction.MixedRadix` | cxx/quickjs/libbf.c:8179-8191 | residues become the mixed-radix digits of the number, in place and without leaving a limb |
| `NttReconstruction.MixedRoundTrip` | cxx/quickjs/libbf.c:8179-8214 | the mixed-radix digits of a number below the product of the moduli give it back |
| `NttSizes.GetFftSize` | cxx/quickjs/libbf.c:8308-8355 | a size that leaves room for the product and keeps the coefficients within the bits of the moduli, found exactly if one is eligible, and of all eligible ones one with the least (log2 + 1) * 2^log2 * nb_mods |
| `NttSizes.Reach` | cxx/quickjs/libbf.c:8308-8355 | with either table a length in limbs has an eligible size exactly up to twice the longest transform, where the search would abort |
| `NttSizes.CoefFits` | cxx/quickjs/libbf.c:8308-8355 | with such a size every coefficient of the convolution is below 2^int_bits |
| `NttSizes.NoWrapAround` | cxx/quickjs/libbf.c:8308-8355 | and both digit vectors together have at most one digit more than the transform |
| `NttSizes.ConvolutionIsProduct` | cxx/quickjs/libbf.c:8357-8457 | the weighted sum of the coefficients is the product of the numbers |
| `NttSizes.Tables64` | cxx/quickjs/libbf.c:7288-7309 | the 64-bit tables: increasing moduli, true inverses, and products above 2^int_bits with a bit to spare in the limbs |
| `NttSizes.Tables32` | cxx/quickjs/libbf.c:7311-7333 | the same for the 32-bit tables |
| `NttLimbs.PutBits` | cxx/quickjs/libbf.c:7240-7256 | bits are added above everything written so far, and what lies beyond the result is dropped |
| `NttLimbs.Coefficient` | cxx/quickjs/libbf.c:8175-8214 | from residues to limbs: the coefficient plus the carry of the lower ones |
| `NttLimbs.WriteDigit` | cxx/quickjs/libbf.c:8224-8230 | exactly the low dpl bits are appended |
| `NttLimbs.ShiftCarry` | cxx/quickjs/libbf.c:8231-8241 | the carry is the coefficient without those bits |
| `NttProducts.ResidueMeans` | cxx/quickjs/libbf.c:8019-8030 | a buffer of residues has that of coefficient i modulo m[j], with or without m[j] added, at place i + n * j |
| `NttProducts.NttToLimb` | cxx/quickjs/libbf.c:8146-8243 | if the buffers hold residues of coefficients below the product of the moduli, the limbs written are those of their weighted sum |
| `NttInput.ReadDigit` | cxx/quickjs/libbf.c:7990-8019 | digits of up to three limbs, whole or in two parts, at any position |
| `NttInput.LimbToNtt` | cxx/quickjs/libbf.c:7973-8031 | every buffer holds the residues of the digits of the number, and zeros above them |
| `NttMultiplication.CyclicIsProduct` | cxx/quickjs/libbf.c:8308-8355 | in that many places the cyclic convolution does not wrap around |
| `NttMultiplication.Config64` | cxx/quickjs/libbf.c:7288-7309 | the 64-bit tables meet every condition that the operations below place on size, moduli and inverses |
| `NttMultiplication.Config32` | cxx/quickjs/libbf.c:7311-7333 | so do the 32-bit tables |
| `NttMultiplication.FftInput` | cxx/quickjs/libbf.c:8357-8457 | for both configurations and vectors of any lengths up to the limit: size, inverses and two buffers with the residues of the digits, ready for the transform |
| `NttMultiplication.ProductLimbs` | cxx/quickjs/libbf.c:8357-8457 | from the residues of the cyclic convolution of the digits of x and y, the limbs of x * y |
| `ReCode.RoundTrip` | cxx/quickjs/libregexp.c:394-428 | decoding undoes the encoding of every instruction, whatever bytes follow |
| `ReRange.SearchCorrect` | cxx/quickjs/libregexp.c:2391-2402 | the binary search finds the range of a character exactly if there is one |
| `ReRange.ClassCorrect` | cxx/quickjs/libregexp.c:821-857 | the 16- or 32-bit opcode of a class accepts exactly its members, with 0xffff as infinity |
| `ReRange.TestCorrect` | cxx/quickjs/libregexp.c:1478-1499 | every character test is performed by the opcode emitted for it |
| `ReLaws.NextIsBoundary` | cxx/quickjs/libregexp.c:1924-2012 | from a character boundary PREV_CHAR undoes GET_CHAR, surrogate pairs included |
| `ReLaws.ResultsOk` | cxx/quickjs/libregexp.c:2088-2494 | every result is at a boundary and not behind the start in the direction of matching |
| `ReLaws.Advances` | cxx/quickjs/libregexp.c:945-1030 | if the scan says that code advances, every result is strictly further |
| `ReLaws.QuantAdvances` | cxx/quickjs/libregexp.c:945-1030 | quantified code is judged to advance only if an iteration is mandatory and advances |
| `ReLaws.RefersOk` | cxx/quickjs/libregexp.c:2323-2366 | repeating a captured text ends on a boundary and not behind the start |
| `ReText.HasChars` | cxx/quickjs/libregexp.c:1924-1942 | every subject of 16-bit units is the UTF-16 text of some code points, of which no two form a surrogate pair, or of its units |
| `ReText.ReadsText` | cxx/quickjs/libregexp.c:1924-2012 | at each of them GET_CHAR, PEEK_CHAR, PEEK_PREV_CHAR and PREV_CHAR read that code point and step over its one or two units |
| `ReText.BoundaryIsOff` | cxx/quickjs/libregexp.c:1924-2012 | the character boundaries are the places where code points start, and the end |
| `ReText.AssertionsMean` | cxx/quickjs/libregexp.c:2227-2322 | line and word assertions by the code points on both sides: the four line terminators, letters, digits and underscore |
| `ReText.ForwardMeans` | cxx/quickjs/libregexp.c:2336-2349 | comparing forwards with a captured text succeeds if and only if the same units follow and end at a character boundary |
| `ReText.BackwardMeans` | cxx/quickjs/libregexp.c:2350-2364 | the same backwards |
| `ReText.BackReferenceMeans` | cxx/quickjs/libregexp.c:2323-2366 | the results of a back reference: in place if the group is not set or was left with its ends crossed, else exactly after (or before) an equal text |
| `ReLaws.NonEmptyMoves` | cxx/quickjs/libregexp.c:1594-1637 | an atom that cannot match the empty string moves, whatever its code starts with |
| `ReCorrect.Balanced` | cxx/quickjs/libregexp.c:1772-1815 | every fragment leaves the counter stack as deep as it found it |
| `ReLoops.StarLoop` | cxx/quickjs/libregexp.c:1621-1637 | the unbounded loop without a check, around every atom that makes progress, offers all numbers of iterations in order of preference, and terminates |
| `ReLoops.CheckedLoop` | cxx/quickjs/libregexp.c:1628-1634 | with the check for progress too, leaving on an empty iteration |
| `ReLoops.CountedLoop` | cxx/quickjs/libregexp.c:1638-1649 | at most k iterations by a counter on the stack |
| `ReLoops.TimesLoop` | cxx/quickjs/libregexp.c:1657-1666 | exactly k mandatory iterations |
| `ReLoops.PlusLoop` | cxx/quickjs/libregexp.c:1650-1653 | the short form of one or more, under the same condition |
| `ReGreedy.SimpleNode` | cxx/quickjs/libregexp.c:1032-1071 | an atom counted as simple reads exactly that many characters, or fails, with no other effect |
| `ReGreedy.GreedyList` | cxx/quickjs/libregexp.c:2137-2159 | stepping back over the counted characters visits the ends of the shorter repetitions |
| `ReGreedy.GreedyGives` | cxx/quickjs/libregexp.c:2450-2489 | simple_greedy_quant offers the same ends in the same order as the general loop |
| `ReMain.CompiledAtom` | cxx/quickjs/libregexp.c:1478-1499 | characters and classes, in both directions |
| `ReMain.CompiledCat` | cxx/quickjs/libregexp.c:1704-1736 | sequences, rotated in the backward direction |
| `ReMain.CompiledAlt` | cxx/quickjs/libregexp.c:1738-1770 | alternatives, the first one preferred |
| `ReMain.CompiledGroup` | cxx/quickjs/libregexp.c:1336-1355 | capture groups record both ends |
| `ReMain.CompiledLook` | cxx/quickjs/libregexp.c:1283-1313 | lookahead and lookbehind, positive and negative, with their choice points discarded |
| `ReMain.CompiledBack` | cxx/quickjs/libregexp.c:1447-1451 | back references, to groups before, after and around them |
| `ReQuant.CompiledQuant` | cxx/quickjs/libregexp.c:1563-1691 | every form of quantifier; the reset of captures and the check for progress included |
| `ReQuant.Compiled` | cxx/quickjs/libregexp.c:1215-1770 | the code of any pattern, placed anywhere in a program, offers exactly the results of the pattern in order |
| `ReProgram.ProgramCorrect` | cxx/quickjs/libregexp.c:1817-1905 | every run of a whole program halts, with the first result of the pattern or with failure |
| `ReProgram.UnanchoredScans` | cxx/quickjs/libregexp.c:1851-1859 | the loop before an unanchored pattern tries every later character in turn |
| `ReProgram.ScanLeftmost` | cxx/quickjs/libregexp.c:1851-1859 | hence the match found starts at the leftmost possible character |
| `ReAlike.GroupRecords` | cxx/quickjs/libregexp.c:1336-1355 | every result of a group has both ends of the text it matched in its captures, in either direction |
| `ReSpan.SpanSound` | cxx/quickjs/libregexp.c:1215-1770 | every result of a pattern without back references ends where the relation Spans says a match may end |
| `ReSpan.SpanComplete` | cxx/quickjs/libregexp.c:1215-1770 | and every match that Spans allows is the end of a result, whatever loops were left on empty iterations |
| `ReSpan.EndsAreSpans` | cxx/quickjs/libregexp.c:2088-2494 | hence matching forwards from one end and backwards from the other end find the same matches |
| `ReSpan.WholeMeans` | cxx/quickjs/libregexp.c:1851-1859 | a whole program has no result if and only if the text has no match from the start on, and otherwise records one with the leftmost beginning |
| `ReEcma.EcmaAgrees` | cxx/quickjs/libregexp.c:1594-1690 | the compiled loops and the standard's RepeatMatcher have the same results in the same order, on every pattern whose quantified atoms have no groups and are not empty |
| `ReEcma.QuantExact` | cxx/quickjs/libregexp.c:1594-1690 | for a quantified atom, with or without groups, on which the two agree at every iteration reached: they agree on the loop if and only if every optional iteration moves, and iterations give the same when the captures of the atom are cleared first |
| `ReEcma.GroupFreeExact` | cxx/quickjs/libregexp.c:1594-1690 | without groups: if and only if every optional iteration reached moves |
| `ReEcma.QuantKeeps` | cxx/quickjs/libregexp.c:1594-1690 | an atom that refers back to its own groups too: if all its iterations move where optional and do not depend on the captures left by the ones before, the two agree |
| `ReEcma.MachineFollowsEcma` | cxx/quickjs/libregexp.c:2088-2494 | on the patterns of `EcmaAgrees` the machine's answer is the first result of the standard's matcher |
| `ReAlike.ResultsAlike` | cxx/quickjs/libregexp.c:2088-2494 | captures that a pattern does not refer back to have no influence on its results |
| `ReDiffer.EmptyIterationDiffers` | cxx/quickjs/libregexp.c:1628-1634 | what the machine answers on "a" for a star over the empty pattern or `a`, and what the standard does |
| `ReDiffer.KeptCaptureDiffers` | cxx/quickjs/libregexp.c:1594-1690 | what the machine answers on "ab" for a star over `(a)` or `b`, where the standard clears group 1 |
| `ReEndless.EndsIff` | cxx/quickjs/libregexp.c:1594-1637 | a loop without a check, followed by code that rejects all it offers, fails after finitely many steps if and only if no state that its iterations reach comes back to itself |
| `ReEndless.NeverHalts` | cxx/quickjs/libregexp.c:1594-1637 | otherwise the machine does not halt in any number of steps |
| `ReEndless.CircularIffStays` | cxx/quickjs/libregexp.c:1594-1637 | for an atom that does not refer to its own groups, some state comes back to itself if and only if some iteration reached stays in place |
| `ReEndless.ProgressIsNotCircular` | cxx/quickjs/libregexp.c:1594-1637 | an atom that makes progress never closes a circle |
| `ReForever.RunEndsIff` | cxx/quickjs/libregexp.c:1817-1905 | the same for the run of a whole program, from any start |
| `ReForever.PlusRunEndsIff` | cxx/quickjs/libregexp.c:1650-1653 | and with the short form of one or more: the run ends if and only if no result of the mandatory iteration leads to a state that comes back to itself |
| `ReForever.EmptyNeverHalts` | cxx/quickjs/libregexp.c:1594-1637 | a lazy loop over the empty pattern never halts, on any subject |
| `ReSafe.ProgramShaped` | cxx/quickjs/libregexp.c:1563-1815 | in the code of every pattern each jump lands on an opcode boundary at the depth of the linear scan |
| `ReSafe.StepOk` | cxx/quickjs/libregexp.c:2050-2494 | every step of the machine, also when it unwinds, keeps the invariant |
| `ReSafe.RefStepOk` | cxx/quickjs/libregexp.c:2323-2366 | a back reference, forward or backward, reads inside the subject and ends on a character boundary |
| `ReSafe.MachineSafe` | cxx/quickjs/libregexp.c:2050-2494 | for every pattern, back references included, every subject and number of steps: pc on an opcode boundary, position and captures on character boundaries of the subject, stack as deep as the linear scan says and within the size in the header, never stuck |
| `ReExec.SearchRange` | cxx/quickjs/libregexp.c:2391-2402 | the search loop computes the function whose exactness is proved above |
| `ReExec.RunAtom` | cxx/quickjs/libregexp.c:2465-2472 | the interpreter of a simple atom's code |
| `ReExec.RunLoop` | cxx/quickjs/libregexp.c:2464-2476 | the greedy run, up to the maximum |
| `ReExec.CompareForward` | cxx/quickjs/libregexp.c:2336-2349 | the loop ends at q if and only if the units up to q, a character boundary, are those of the captured text |
| `ReExec.CompareBackward` | cxx/quickjs/libregexp.c:2350-2364 | the same with the units before the start |
| `ReExec.ExecContext.Dispatch` | cxx/quickjs/libregexp.c:2102-2493 | one opcode is one step of the machine |
| `ReExec.ExecContext.Unwind` | cxx/quickjs/libregexp.c:2106-2174 | one round of unwinding after success or failure is one step |
| `ReExec.ExecContext.Backtrack` | cxx/quickjs/libregexp.c:2089-2494 | the loop ends in the state the machine halts in |
| `ReExec.Exec` | cxx/quickjs/libregexp.c:2499-2535 | matched if and only if the pattern has a result, with the captures of the first one |
| `ReCompiler.CheckAdvanceBytes` | cxx/quickjs/libregexp.c:950-1030 | the scan of bytes decides what the scan of instructions does, with -1 for code that refers to a group it writes |
| `ReCompiler.CountSimple` | cxx/quickjs/libregexp.c:1034-1071 | the same for the count of characters |
| `ReCompiler.ComputeStackSize` | cxx/quickjs/libregexp.c:1772-1815 | the largest depth of the linear scan, or an error above the limit |
| `ReCompiler.Compiler.Insert` | cxx/quickjs/libregexp.c:114-121 | an instruction opened in front of code already emitted |
| `ReCompiler.Compiler.PutSelf` | cxx/quickjs/cutils.c:148-157 | a copy of the bytes of an atom is the atom's code |
| `ReCompiler.Compiler.Rotate` | cxx/quickjs/libregexp.c:1721-1733 | the last term is moved in front of the others |
| `ReCompiler.Compiler.TermAlt` | cxx/quickjs/libregexp.c:1738-1770 | the bytes of an alternation, with the goto patched after the second alternative |
| `ReCompiler.Compiler.TermLook` | cxx/quickjs/libregexp.c:1294-1313 | the bytes of a lookaround, with its jump patched |
| `ReCompiler.Compiler.Quantify` | cxx/quickjs/libregexp.c:1563-1691 | the bytes of every form of quantifier around the atom emitted last |
| `ReCompiler.Compiler.Term` | cxx/quickjs/libregexp.c:1215-1770 | exactly the bytes of the pattern's code are appended, and the groups are counted |
| `ReCompiler.CompilePattern` | cxx/quickjs/libregexp.c:1821-1905 | the bytes and stack size of the program, or an error exactly when there are too many groups or counters |
| `ReCompiler.MatchPattern` | cxx/quickjs/libregexp.c:1821-2535 | compiling and running, end to end: the first result of the pattern from unset captures, or none; without back references, a match is found if and only if the text has one at or after the start (at it, if sticky), and captures 0 and 1 are the ends of one with the leftmost beginning |
| `CharRanges.CharRange.Compress` | cxx/quickjs/libunicode.c:325-352 | in place: strictly increasing points with the same members; a list out of order without equal neighbours is left as it is |
| `CharRanges.CharRange.Op` | cxx/quickjs/libunicode.c:354-405 | exactly the members of one or the other, of both, or of just one of the sets, with duplicated points allowed |
| `CharRanges.CharRange.Union1` | cxx/quickjs/libunicode.c:407-417 | union into the set itself |
| `CharRanges.CharRange.UnionInterval` | cxx/quickjs/libunicode.h:91-97 | union with an inclusive interval, and the exact list of points when the upper end is UINT32_MAX, whose successor wraps to zero |
| `CharRanges.WrappedInOrder` | cxx/quickjs/libunicode.h:91-97 | that list is in order only if the lower end was in the set, or ended an interval from zero, which is lost |
| `CharRanges.CharRange.Invert` | cxx/quickjs/libunicode.c:419-431 | the complement below UINT32_MAX, strictly increasing again |
| `CharRanges.InvertTwice` | cxx/quickjs/libunicode.c:419-431 | inverting twice gives the same points |
| `CharRanges.CanonicalUnique` | cxx/quickjs/libunicode.c:325-352 | a set has only one strictly increasing list of points |
| `CharRanges.MemberIsIn` | cxx/quickjs/libunicode.h:49-55 | being in one of the intervals is having an odd number of points at or below |
| `CharRanges.EmittedClass` | cxx/quickjs/libregexp.c:821-857 | the opcode emitted for a compressed set accepts exactly its members |
| `Sorting.HeapSort` | cxx/quickjs/cutils.c:470-502 | a sorted permutation |
| `Sorting.InsertionSort` | cxx/quickjs/cutils.c:623-627 | a sorted permutation |
| `Quicksort.Med3` | cxx/quickjs/cutils.c:504-509 | one of the three, with another on each side |
| `Quicksort.Partition` | cxx/quickjs/cutils.c:542-599 | a permutation with the elements smaller than, equal to and greater than the pivot in three blocks |
| `Quicksort.SortSegment` | cxx/quickjs/cutils.c:529-628 | what remains on the stack is exactly what is not yet in order, and the stack never exceeds 50 entries, entry k at depth k or more |
| `Quicksort.RqSort` | cxx/quickjs/cutils.c:512-629 | a sorted permutation, for every comparator that is a total preorder |

## Left out

- The butterflies of the number-theoretic transform (`ntt_fft`, `ntt_fft_partial`, `ntt_conv`, `ntt_vec_mul`) and the AVX2 path: `NttMultiplication.FftInput` ends with their input, and `NttMultiplication.ProductLimbs` starts from buffers with the residues of the cyclic convolution.
- Transcendental functions, `bf_mul_pow_radix` and `bf_convert_to_radix`, whose error analysis the source itself marks as missing.
- The wrappers `bf_mul`, `bf_div`, `bf_sqrt` and the conversions of floats, which would add easy members on top of the limb operations.
- The rounding mode RNDF, whose result is not determined, and BF_FLAG_RADPNT_PREC in addition.
- RadixConversion.ToRadixRec: takes an arbitrary estimate of the quotient, which the corrections make exact; that the source's estimate is at most one off is `RadixEstimates.OneCorrection`, which starts from the rounded inverse and the rounded product.
- DecimalDivision.DecAddBacks: an add-back that ends with a limb equal to the base, which the source stores and never reads again, stores zero.
- BitwiseLogic.LogicOperation: `bf_add_si` at infinite precision is integer addition, and the normalization of the result is a sum of limbs.
- Case-insensitive matching and back references, group names and the parsing of pattern text, with its Annex B forms: patterns are syntax trees.
- Subjects in Latin-1 bytes and in 16-bit units are covered; matches that start inside a surrogate pair are not.
- ReCompiler.CompilePattern: requires operands that fit their fields, so counts from INT32_MAX on and code longer than a 32-bit offset are outside.
- The limits of memory allocation: every allocation succeeds.
- CharRanges.CharRange.UnionInterval: with an upper end of UINT32_MAX and a lower end above zero, starts from strictly increasing points, which is what every operation but appending leaves.
- ReEcma.QuantExact: excludes atoms that refer back to their own groups, whose results differ from iteration to iteration; for these `ReEcma.QuantKeeps` gives a sufficient condition.
- `mp_mul`, the choice of the number-theoretic multiplication for long operands: division, reciprocal and square root multiply by `LimbOps.MpMulBasecase`, which gives the same limbs.
- ReSpan.SpanSound: patterns with back references, whose matches depend on earlier captures, are outside; `ReText.BackReferenceMeans` says what one reference matches.
- Unicode tables, case conversion and normalization.
- FastDivision.FastUdivInit: for divisors above half the word range the source shifts by the whole word, which C leaves undefined; the model takes the power of two that is meant.
- Quicksort.RqSort: sorts elements of any type and not bytes, so the exchange functions and their alignment are not modelled; the stack is a sequence proved to have at most 50 entries.
- ReExec.RunLoop: also ends on an iteration that reads nothing, which the source does not look for; `ReGreedy.SimpleNode` shows that compiled code never has one.
- Command-line programs, the foreign-function layer and the mobile plugins.
