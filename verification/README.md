# MPFR, limb by limb

MPFR computes with binary floating-point numbers of any precision and promises for
its basic functions *correct rounding*: the exact result, rounded once in the
direction asked for, together with a ternary value that tells on which side of the
exact result the rounded one lies. Below this promise are loops over arrays of
machine words, with carries, shared arrays, truncated operands, guessed quotients
and state machines for rounding.

This project models that code in Dafny and proves that it keeps the promise, or, in
five places, exactly when it does not.

## What is promised

Limbs are numbers below B = 2^64, a significand is an array of limbs, and the value
of a nonzero number is a real number (`Exceptions.Mpfr`). Nothing in the
specification refers to how a result is computed:

- `Rounding.CorrectlyRounded` compares a float with *every* float of its precision,
  exponents unbounded: no other one is a better choice in the given direction (for
  rounding to nearest with ties to even), and the ternary value is the sign of the
  error. The five modes become three directions of the absolute value
  (`Rounding.DirectionOf`).
- `Range.CorrectInRange` does the same when only zero and the numbers with exponents in
  [emin, emax] are available, with infinity when the result is too large. There is only
  one such answer (`Range.OneAnswerInRange`).
- `SignedRounding.CorrectSigned` tells the same of signed numbers, each of the five modes
  in its own words, without directions: toward plus infinity, say, the result is not below
  the exact number and no number of the range lies between them, and the returned int is
  the sign of the error. The contracts of the arithmetic functions, of the range check and
  of the cache are stated with it; `SignedRounding.SignedMeans` proves that it amounts to
  the description by directions.
- `SignedRounding.TooLarge` and `TooSmall` say when the overflow and the underflow flag are
  raised: when the exponent of the exact number, rounded with unbounded exponents, is above
  emax or below emin.

Destinations are modified in place and may be one of the operands.

## Files

| | |
|---|---|
| `Powers`, `RealPowers`, `Limbs` | powers of two, integers held in limbs, the mpn primitives |
| `Rounding`, `Range`, `SignedRounding`, `Numbers`, `Exceptions` | the specification; numbers, exponent range and flags; range checking |
| `Streams`, `Shifts`, `Significands` | parts of numbers that lie below a limb, shifted operands, one more ulp |
| `Add1` | addition of numbers of any three precisions |
| `AddShifted`, `SameSum`, `Add1sp`, `Add1spFast`, `AddSamePrecision` | addition of numbers of one precision, five fast paths, the extracted one |
| `Cmp2` | the number of bits that cancel in a subtraction |
| `DivLimbs`, `Div` | division by way of an integer division of truncated operands |
| `DivApprox`, `DivSmall`, `DivOneTwo` | divisions of one and two limbs |
| `DivUi`, `DivShort` | division by a word; recursive division in place |
| `BinaryCounter`, `Splitting`, `Exp3`, `Atan` | binary splitting on stacks |
| `RationalSums`, `Euler`, `Log2`, `Catalan` | binary splitting by recursion |
| `Exp2Aux`, `Cbrt` | the exponential series in fixed point, the cube root |
| `Next`, `RoundCached`, `RndRaw`, `Cache` | neighbours, the rounding macro, the cache of constants |
| `Fpif` | the interchange format |

## Findings

Five places do not do what they should for every input. The code is modelled as it is;
each fault has a witness, and the function is proved correct if and only if a condition
on its operands does not hold.

| source | what happens | witness | exact condition |
|---|---|---|---|
| src/add1.c:577-579 | the test before mpfr_underflow looks at the ternary value of the signed result: a negative sum that rounds to the float of absolute value 2^(emin-2), inexactly, falls on the wrong side of the midpoint between 0 and the smallest number. Only operands with exponents below emin (unbounded floats) get there | `Add1.UnderflowMisjudgedExample` | `Add1.UnderflowMisjudged` |
| src/div.c:1296-1300 | rounding to nearest, bits 10...0 (at least two) below the last place of the estimated quotient q1, exact quotient q1 - 1: cmp_s_r = 0 becomes the ternary value, although the result is inexact | `Div.DivisionFaults`, first division | `Div.DivisionErrs`, by `Div.WrongTernary` |
| src/div.c:1283-1292 | rounding to nearest with one bit, 0, below the last place, exact quotient q1 - 1, which is a midpoint: always the upper neighbour is taken, also when it is the odd one | `Div.DivisionFaults`, second division | `Div.DivisionErrs`, by `Div.WrongTie` |
| src/cbrt.c:147, 174 | for a negative argument with an inexact root the *inverted* rounding mode reaches mpfr_check_range: with RNDU or RNDD the wrong neighbour is delivered when the root leaves the exponent range | `Cbrt.WrongRangeExample` | `Cbrt.WrongRange` |
| src/fpif.c:301 | a stored number (the precision less 249) from 2^63 - 249 to 2^63 - 1 passes the test for the sign bit, and the sum overflows; wrapped around, it is negative, passes both tests of the import (lines 651-655), and mpfr_set_prec aborts instead of the import returning -1 | `Fpif.OverflowRejected` | `Fpif.PrecisionOverflows`, on bytes: `Fpif.OverflowBytes` |

Where the code and its comments differ, the model follows the code: const_euler.c:223-224
lets the sums S and I end with k = N - 1, while the code sums to k = N
(`Euler.BesselQuotient`); the buffer in memory of fpif.c is full when one byte is still
free (lines 558 and 580); and for p = 1 and m = 1 mpfr_atan_aux can use one cell of its
tables more than the m + 1 it counts on (`Atan.Cells`).

## Model

| member | source | states |
|---|---|---|
| `Range.CheckRangeCorrect` | src/exceptions.c:258-341 | from a result correct with unbounded exponents and its ternary value, range checking obtains the result and ternary value correct in [emin, emax]: no double rounding, the midpoint 2^(emin-2) included |
| `SignedRounding.RoundedMeans` | src/mpfr-impl.h:1262-1268 | with unbounded exponents: a magnitude is rounded correctly in the direction taken from mode and sign exactly when the signed float is correct in the words of the mode, against floats of both signs |
| `SignedRounding.SignedMeans` | src/mpfr-impl.h:1262-1268 | the same within a range, infinities included: RNDU gives the least number that is not below the exact one, RNDD the greatest that is not above, RNDZ and RNDA by absolute value, RNDN the nearest with its tie rule, and the returned int is the sign of the error |
| `SignedRounding.RoundingExists` | src/mpfr-impl.h:1262-1268 | every positive number has a correct rounding in every direction, so that the exponent that decides the flags always exists |
| `SignedRounding.ExponentDecides` | src/exceptions.c:258-341 | TooLarge and TooSmall, which say when the flags rise, compare emax and emin with the exponent of the one rounding of the exact number with unbounded exponents |
| `SignedRounding.OnlyAnswer` | src/add1sp.c:26-41 | an exact number has one correct answer, significand, exponent and ternary value: two correct additions agree, and an answer from a cache is the one there would be without it |
| `Exceptions.CheckRange` | src/exceptions.c:258-341 | whatever signed number x is the rounding of, with unbounded exponents, x and the returned value become that number rounded once into the range; overflow and underflow are raised by the exponent of x alone, inexact by the returned value; an inexact infinity gets the overflow flag |
| `Exceptions.Overflow` | src/exceptions.c:438-462 | infinity or the largest number, and the returned value: the correct rounding, in the mode and with the sign given, of every number whose unbounded rounding has an exponent above emax; both flags |
| `Exceptions.Underflow` | src/exceptions.c:410-434 | zero or the smallest number, and the returned value: the correct rounding, in the mode and with the sign given, of every number whose unbounded rounding has an exponent below emin, in rounding to nearest of those above 2^(emin-2); both flags |
| `Add1.Add1` | src/add1.c:31-589 | a holds b + c, told of the signed sum and the mode, rounded once into the range, and the returned int is the sign of the error, if and only if the operands do not meet UnderflowMisjudged; for every three precisions, every exponent gap, also when a is b or c; operands with exponents in the range never meet it; overflow and underflow are raised exactly when the exponent of the exact sum, rounded with unbounded exponents, is above emax or below emin |
| `Add1.SumAndScan` | src/add1.c:125-515 | up to the label `rounding`: the limbs hold A, and rb and fb tell exactly how the exact sum compares with A and with the midpoint above A |
| `Add1.Combine` | src/add1.c:125-187 | A with its carry plus the parts of b and c that have not been added are the exact sum |
| `Add1.ScanBoth` | src/add1.c:247-457 | the loops over the limbs of b and c keep "sum = A, then r, then f...f, plus less than 2 units" until rb and fb are decided, with carries into A |
| `Add1.ScanC` | src/add1.c:458-515 | the same when all of b is in A and only c is left |
| `Add1.RoundA` | src/add1.c:517-572 | significand, exponent and ternary value are those of rounding the exact sum, and the overflow is found when the exponent exceeds emax |
| `Add1.UnderflowJudged` | src/add1.c:574-583 | the underflow code delivers the correct result in the range if and only if UnderflowMisjudged does not hold |
| `Add1.OrdinaryOperands` | src/add1.c:574-583 | a sum that is at least the smallest number of the range is never misjudged |
| `Add1.UnderflowMisjudgedExample` | src/add1.c:574-583 | operands of one bit, with exponents below emin, whose negative sum is misjudged |
| `AddShifted.Addrsh` | src/add1sp.c:775-849 | Val(ap) + carry * B^n = Val(bp) + floor(Val(cp) / 2^d), and `low` holds the next bit and whether any bit after it is set; ap may be bp or cp |
| `SameSum.BitsRound` | src/add1sp.c:1046-1071 | deciding by round bit and sticky bit is rounding the quotient, with its ternary value, in every direction |
| `SameSum.PreparedSum` | src/add1sp.c:855-1095 | limbs, round bit, sticky bit and raised exponent as the additions prepare them, rounded, are the correct rounding of the exact sum |
| `Add1sp.Generic` | src/add1sp.c:855-1095 | the signed sum rounded once into the range with the sign of the error, for every precision; a may be b or c; overflow by the exponent of the unbounded rounding, which is never too small |
| `Add1spFast.Prepare1` | src/add1sp.c:147-210 | one limb, p < 64: the upper bits of the sum, its round bit and its sticky bit |
| `Add1spFast.Prepare1n` | src/add1sp.c:274-316 | the same for p = 64 |
| `Add1spFast.Prepare2` | src/add1sp.c:379-443 | the same for two limbs, 64 < p < 128 |
| `Add1spFast.Prepare2n` | src/add1sp.c:496-574 | the same for p = 128 |
| `Add1spFast.Prepare3` | src/add1sp.c:632-733 | the same for three limbs, 128 < p < 192 |
| `AddSamePrecision.Fast` | src/add1sp.c:128-771 | all five fast paths: the signed sum rounded once into the range with the sign of the error, and the overflow flag as for the generic code |
| `AddSamePrecision.ExtractedAdd` | src/add1sp1_extracted.c:75-363 | the extracted one-limb addition, with b and c handled in two copies of the code: the same answer and flags |
| `AddSamePrecision.Add1sp` | src/add1sp.c:855-1095 | mpfr_add1sp with the choice between fast paths and generic code: the signed sum rounded once into the range, with the flags |
| `AddSamePrecision.Checked` | src/add1sp.c:43-110 | the comparison of mpfr_add1sp with mpfr_add1 on copies, from the same flags, always finds number, ternary value and flags in agreement |
| `Cmp2.Cmp2` | src/cmp2.c:26-341 | the sign of \|b\| - \|c\|, and if nonzero EXP(max) - cancel is the exponent of the difference, with 0 <= cancel and cancel no larger than one of the precisions |
| `Cmp2.LongBorrow` | src/cmp2.c:229-258 | as long as the difference read is 1, no bit of the exact difference is lost and each step adds 64 to the count |
| `Cmp2.LowParts` | src/cmp2.c:295-336 | whether what is left of b is less than what is left of c, exactly |
| `Cmp2.CancelBound` | src/cmp2.c:26-38 | the difference is a multiple of the smaller last bit, so that cancel is representable as a precision |
| `Div.Div` | src/div.c:746-1445 | q holds u/v, told of the signed quotient and the mode, rounded once into the range, and the returned int is the sign of the error, if and only if the operands do not meet DivisionErrs; for all sizes of q, u and v, q may be u or v; on faulty operands, too, the flags are right; overflow and underflow are raised exactly when the exponent of the exact quotient, rounded with unbounded exponents, is above emax or below emin |
| `Div.DeliveredExponent` | src/div.c:1427-1444 | the exponent with which the code ends is that of the exact quotient rounded with unbounded exponents, also where neighbour or ternary value are wrong |
| `Div.EstimateBounds` | src/div.c:1166-1174 | the quotient of the truncated operands exceeds the exact one by less than 2 and falls short of it by less than 1; with the full divisor it is its integer part |
| `Div.CompareQuotient` | src/div.c:1195-1273 | the two comparisons find on which side of q1, and of q1 - 1, the exact quotient lies |
| `Div.DecideTruncated` | src/div.c:1161-1365 | the label that is taken describes the exact quotient, but for the two faults, which are named |
| `Div.GoTo` | src/div.c:1367-1425 | from the label to significand, exponent and ternary value |
| `Div.QuotientVerdict` | src/div.c:1282-1300 | what the result is worth in each of the three cases: wrong ternary value, wrong neighbour, correct |
| `Div.DivisionFaults` | src/div.c:1282-1300 | two divisions of normalized operands of 192 and 128 bits, to 60 and to 63 bits, that meet the condition DivisionErrs |
| `DivLimbs.CmpAux` | src/div.c:658-718 | the sign of the difference of the two numbers aligned at the top, with the bit shifted out |
| `DivLimbs.SubAux` | src/div.c:720-744 | ap loses bp >> extra and the borrow cy, in place, and the limbs around it stay |
| `DivLimbs.ExtraBit` | src/div.c:904-924 | 1 exactly if the significand of u is at least that of v |
| `DivApprox.Div2Approx` | src/div.c:39-103 | q <= floor(u*B^2/v) <= q + 16 with the exact limb inverse and q + 21 with one that falls short by one; the loop runs at most four times |
| `DivApprox.WithinSlack` | src/div.c:39-103 | the numeric bound: both limbs together miss less than 17 (or 22) times v |
| `DivOneTwo.Correct` | src/div.c:144-161 | exact quotient and remainder after at most two corrections |
| `DivOneTwo.QuotientLimb` | src/div.c:456-507 | exact quotient limb and remainder from a division by the high limb and at most two corrections |
| `DivOneTwo.Prepare1` | src/div.c:107-175 | one limb, p < 64: the upper bits of u/v, round bit and sticky bit |
| `DivOneTwo.Prepare2` | src/div.c:390-579 | two limbs, 64 < p < 128, from the approximate quotient: the same |
| `DivOneTwo.Prepare2Schoolbook` | src/div.c:455-579 | two limbs without an approximate inverse: the same |
| `DivOneTwo.DivFast` | src/div.c:107-643 | mpfr_div_1, mpfr_div_1n and mpfr_div_2: the signed quotient rounded once into the range, with the sign of the error and the flags of the unbounded exponent; q may be u or v |
| `DivSmall.NeverMidpoint` | src/div.c:213-219 | the quotient of two p-bit numbers is never halfway between two p-bit numbers |
| `DivSmall.NeverCarries` | src/div.c:233-249 | adding one ulp to a rounded quotient never carries out: only an exact quotient is the largest significand |
| `DivUi.DivUi` | src/div_ui.c:28-313 | x/u with the sign of x, rounded once into the range, with the sign of the error and the flags of the unbounded exponent, for every size of x and y and every u >= 2; y may be x |
| `DivUi.Quotient` | src/div_ui.c:108-235 | the significand with the exact round bit and sticky bit of x/u, from discarded low limbs, remainder and normalizing shift |
| `DivUi.BitsBelow` | src/div_ui.c:158-192 | the round bit that lies below the quotient computed, which may depend on the top bit of the discarded limbs |
| `DivShort.DcDivremNew` | other/div-short.c:14-58 | N = (qh*B^n + Q)*D + R with 0 <= R < D, quotient and remainder in place, for every normalized D and every n from the threshold on; nothing else changes |
| `DivShort.DcDivremHigh` | other/div-short.c:65-100 | floor(N/D) <= quotient <= floor(N/D) + 2 per level of recursion |
| `DivShort.LevelsBelowBits` | other/div-short.c:167-172 | hence the error is less than 2 * bitlength(n), the bound the program prints |
| `DivShort.CorrectionLoop` | other/div-short.c:35-39 | the borrow-driven loop ends with the remainder in [0, D) and the quotient corrected |
| `BinaryCounter.EqualNeighbours` | src/exp3.c:119-144 | the loop over the trailing zeros of the number of terms merges only entries of equal size |
| `BinaryCounter.Height` | src/exp3.c:112-145 | k + 1 entries hold at least 2^k terms, so that the tables are large enough |
| `BinaryCounter.SingleEntry` | src/atan.c:225-242 | 2^m terms are held by one entry |
| `Exp3.ExpRational` | src/exp3.c:73-160 | with i terms, S[0]/(Q[0]*2^(r(i-1))) is exactly the sum of x^t/t! for t < i, x = p/2^r, and Q[0] = i!; the loop stops with all 2^m terms or with \|x\|^(i-1)/i! <= 2^(-precy) |
| `Exp3.LongerSums` | src/exp3.c:50-62 | then every longer partial sum, whatever its length, differs by at most 2^(1-precy) |
| `Exp3.MoreSmall` | src/exp3.c:135-140 | the bit counts of denominator and power, added to a multiplier, keep P[k]/Q[k] <= 2^(-mult[k]) |
| `Exp3.TermsJoin` | src/exp3.c:124-132 | the integer for a run of terms is obtained from those of its two parts |
| `Atan.AtanAux` | src/atan.c:140-259 | with i terms, S[0]/(Q[0]*2^(r(i-1))) is exactly the sum of (-1)^t X^t/(2t+1) for t < i, in both variants (p = 1 and p != 1), which stop with 2^m terms or with X^i <= 2^(-precy) |
| `Atan.LongerSums` | src/atan.c:75-92 | then every longer partial sum, whatever its length, differs by at most 2^(-precy) |
| `Atan.Contribution` | src/atan.c:210-212 | the bit count of the power, added to accu[k-2], keeps X^n <= 2^(-accu[k-1]) for the n terms up to entry k - 1 |
| `Atan.StackHeight` | src/atan.c:140-144 | the m + 1 cells of each table suffice unless p = 1 and m = 1, when one more is used |
| `Atan.ArgumentSquared` | src/atan.c:145-148 | X is the square of p/2^r |
| `RationalSums.NumJoin` | src/const_catalan.c:56-70 | the numerator of a sum of prefix products is obtained from those of two runs |
| `Euler.Bs1` | src/const_euler.c:73-136 | P, Q, T, C, D and V are the products and sums of the run n1+1..n2 as described, P and C only if asked for |
| `Euler.BesselQuotient` | src/const_euler.c:222-229 | the root call, without P and C, still gives V : (T+Q)D = S : I with the sums S and I |
| `Euler.Bs2` | src/const_euler.c:138-181 | Q and T (and P) of the second series over a run |
| `Euler.PartialSum2` | src/const_euler.c:232-238 | T/Q is the partial sum of the second series |
| `Euler.TermIs` | src/const_euler.c:222-224 | the terms are n^(2k)/k!^2 |
| `Euler.Term2Is` | src/const_euler.c:232-233 | the terms are (2k)!^3 / (4n k!^4 8^(2k) (2n)^(2k)) |
| `Log2.S` | src/const_log2.c:41-104 | the cell `at` holds T, P, Q of the run up to a common factor; only 1 + ceil(log2(n2 - n1)) cells change, so that the right call leaves the left result alone |
| `Log2.PartialLog2` | src/const_log2.c:133-149 | T[0]/Q[0] is exactly the partial sum, although powers of two were removed at every level |
| `Log2.TermIs` | src/const_log2.c:41-46 | the terms telescope to 3/4 (-1)^k k!^2 / (2^k (2k+1)!) |
| `Catalan.S` | src/const_catalan.c:35-73 | T, P and Q of a run |
| `Catalan.PartialCatalan` | src/const_catalan.c:130-134 | T/Q is exactly the partial sum |
| `Catalan.TermIs` | src/const_catalan.c:77-82 | the terms telescope to k!^2 / ((2k)! (2k+1)^2) |
| `Exp2Aux.ExpSeries` | src/exp_2.c:266-332 | the loop ends; s*2^exps is no larger than the sum of r^k/k! up to l and within 3l(l+1)2^(-q) of every longer sum |
| `Exp2Aux.NextTerm` | src/exp_2.c:294-318 | the running term stays within two units of the exact one although it and the argument are truncated again |
| `Exp2Aux.Normalize` | src/exp_2.c:35-51 | z without the bits beyond its leading q, and how many were dropped |
| `Cbrt.CubeRoot` | src/cbrt.c:48-175 | y holds the signed cube root of x rounded once into the range, with the sign of the error, if and only if x does not meet WrongRange; for every precision of x and y, y may be x; the flags are those of the unbounded exponent in every case |
| `Cbrt.CubeBound` | src/cbrt.c:25-45 | truncating to 3n-2..3n bits does not change the integer part of the root, which has n bits |
| `Cbrt.WrongRangeMeans` | src/cbrt.c:144-174 | the condition on \|x\| describes exactly the inexact results of a directed mode whose exponent leaves the range |
| `Cbrt.WrongRangeExample` | src/cbrt.c:144-174 | the cube root of -3, to two bits and toward plus infinity, with the smallest number 2 |
| `RoundCached.RoundedOnce` | src/cache.c:114-187 | rounding the cached number to fewer bits, with its ternary value at hand, is rounding the exact constant once, in every mode |
| `RndRaw.Round` | src/mpfr-impl.h:1836-1960 | the rounding macro with the handler of cache.c computes that function on limbs |
| `Next.NothingBetween` | src/next.c:45-116 | no number of the precision lies between a number and its neighbour toward zero, and stepping back leads to the number again |
| `Next.NextToInf` | src/next.c:87-116 | the neighbour away from zero, in place |
| `Next.NextToZero` | src/next.c:45-85 | the neighbour toward zero, in place |
| `Caches.Cache.Refill` | src/cache.c:78-103 | the retest under the lock: the precision grows exactly as needed and the number stored is again the rounding to nearest with its ternary value |
| `Caches.Cache.Request` | src/cache.c:55-195 | whatever other threads do between the locks, the constant rounded once to the requested precision and mode, into the range, with the sign of the error and the flags of its unbounded exponent |
| `Caches.Run` | src/cache.c:36-195 | for every history of requests and clears each answer is the constant rounded once, and each flag is up exactly if it was before or some request raised it |
| `Fpif.RoundTrip` | src/fpif.c:588-692 | decoding what was encoded, with anything after it, yields the number (precision, kind, sign also of NaN, exponent, every limb) and leaves exactly the rest |
| `Fpif.PrefixFree` | src/fpif.c:30-66 | no encoding is the beginning of another, and different numbers have different encodings |
| `Fpif.FormatIs` | src/fpif.c:30-66 | the encoding of a number is the one sequence of bytes that the documented format prescribes, stated byte by byte in numbers |
| `Fpif.PrecisionFormat` | src/fpif.c:33-41 | p + 7 up to 248; above, n - 1 and p - 249 in the fewest bytes n, least significant first |
| `Fpif.ExponentFormat` | src/fpif.c:43-58 | 119, 120, 121 for zero, infinity, NaN; e + 47 from -47 to 47; otherwise 94 + n, then \|e\| - 47 in the fewest bytes that leave a bit for the sign of e, in the top one; 128 more for a negative number |
| `Fpif.SignificandFormat` | src/fpif.c:483-511 | (p + 7)/8 bytes, each a quotient of the value of the limbs: the used bytes of a partial lowest limb first, most significant in front, then whole limbs, least significant first |
| `Fpif.ExportAux` | src/fpif.c:588-640 | 0 is returned exactly when there is room for one byte more than needed; then the bytes the format prescribes have been written and nothing else in the buffer has changed |
| `Fpif.ImportAux` | src/fpif.c:642-692 | bytes that the format prescribes for a number, with anything after them, give that number and leave the rest; on every other sequence but those of PrecisionOverflows: the number decoded, or -1 if nothing can be decoded |
| `Fpif.OverflowBytes` | src/fpif.c:284-301 | on exactly which bytes the sum of line 301 overflows |
| `Fpif.OverflowRejected` | src/fpif.c:284-301 | nothing can be decoded from them, and there are such bytes |
| `Fpif.SaveAndLoad` | src/fpif.c:588-692 | export followed by import gives back the number |
| `Fpif.StoreExponent` | src/fpif.c:317-397 | the bytes of kind, sign and exponent that the format prescribes |
| `Fpif.StorePrecision` | src/fpif.c:208-240 | the bytes of the precision that the format prescribes |
| `Fpif.ReadPrecision` | src/fpif.c:248-302 | a precision in the prescribed bytes is read back; otherwise what can be decoded, wrapped around to 64 bits, or 0 |
| `Fpif.ReadExponent` | src/fpif.c:399-473 | kind, sign and exponent in the prescribed bytes are read back; on other bytes as decoded, or 1 |
| `Fpif.StoreLimbs` | src/fpif.c:483-511 | the bytes of the significand that the format prescribes, the lowest limb possibly in part |
| `Fpif.ReadLimbs` | src/fpif.c:520-542 | the limbs whose prescribed bytes these are |

## Left out

- Rounding mode RNDF (faithful rounding), everywhere.
- NaN, infinities and zeros as operands of the arithmetic functions: they are sorted out before the code modelled here. (Range checking and the interchange format do handle them.)
- Other limb sizes than 64 bits, and big-endian machines.
- Add1.Add1: operands have exponents of any size, but the separate exponents of unbounded floats (add1.c:51-58, 95-99) are not modelled.
- Addition of numbers of opposite signs: mpfr_sub1 and mpfr_sub1sp are not part of this model.
- Div.Div: the choice between the divisions by precision, and Mulders' short division (div.c:941-1018), which needs mpfr_divhigh_n; only the integer division it falls back to is modelled.
- DivApprox.Div2Approx: the computation of the approximate inverse from a table (invert_limb.h) is replaced by its contract; the parameter `short` says whether it falls short by one.
- DivUi.DivUi: u = 0, 1 and powers of two, which are passed on to other functions.
- DivShort.DcDivremHigh: for thresholds from 3 on, since n = 2 would ask for a product with no limbs; DivShort.DcDivremNew: from 2 on.
- The mpn and mpz functions of GMP: they have reference bodies or are operations on unbounded integers.
- Exp3.ExpRational and Atan.AtanAux: the final divisions, which round; the error of stopping is bounded against every longer partial sum instead of the limit.
- Atan.AtanAux: the table of precomputed values (atan.c:40-88, 105-135).
- Euler.BesselQuotient, Euler.PartialSum2, Log2.PartialLog2 and Catalan.PartialCatalan: the final divisions and sums, and that the series converge to the constants.
- Exp2Aux.ExpSeries: arguments have at least q bits, as those passed by mpfr_exp_2 do; the error is bounded against every longer partial sum instead of the limit.
- mpfr_exp2_aux2, mpz_normalize2, all loops that increase the precision until rounding is possible, and the transcendental functions above them.
- Cbrt.CubeRoot: the real cube root is a parameter, a number whose cube is |x|.
- Next.NextToInf, Next.NextToZero: not at the two ends of the exponent range; the cache works in the extended range.
- Caches.Cache.Request: constants are positive, as the code asserts; the function that computes one is a parameter, assumed to round correctly to nearest; what other threads do between the locks is a list of requests and clears, and giving up the write lock for a read lock is one step.
- Fpif.ExportAux, Fpif.ImportAux: files, allocation and reallocation, and independence of the bytes from the limb size.
- mpfr_eq, logging, memory management, conversions and wrappers: nothing hard would be added.
