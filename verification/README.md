# Verified model of the arithmetic, serial and timing cores of the XBee ANSI C library

A Dafny model of the parts of the library that compute or change state, with proofs of what they
promise. `dafny verify dfyconfig.toml` checks all of it. The modules follow the source:

* **Big numbers** (`MulAdd`, `MulAddAsm`, `MpiRows`, `Mpi`, `MpiArith`, `MpiShift`, `LongDivision`,
  `MpiDigits`, `MpiDivide`, `HalfLimbs`, `Montgomery`, `MontForm`, `ExpMod`, on top of `Arith`, `Limbs`
  and `Sequences`). Every multiply-accumulate kernel (double-width C, half-limb C, IA-32,
  PowerPC, SSE2 block of eight) is a method proved against one row function. The row function is
  proved to satisfy one exact equation between limb vectors, and to be the only vector that does.
  On top of it stand `mpi_mul_hlp` in both of its shapes, signed multiplication, addition and
  subtraction with every aliasing, shifts, long division with its guessed, tested and corrected
  digits, Montgomery initialisation and multiplication, and sliding-window exponentiation with every
  product a call of `mpi_montmul` on limb vectors and every residue a call of `mbedtls_mpi_mod_mpi`. Limb base, half base and the configured window are
  parameters throughout, and memory may run out at any allocation.
* **Circular buffer and serial drivers** (`Bits`, `CircularBuffer`, `Efm32Tx`, `Efm32Rx`,
  `Efm32Serial`, `Hcs08Serial`). The buffer is a class proved against a ring value, and the ring
  against a bounded queue over every run. The drivers are step machines whose theorems hold over
  every interleaving of calls and interrupts; the driver classes are proved to take those steps.
* **Two-word 64-bit arithmetic** (`JsLong`, `JsDivide`, `JsDecimal`). The word-pair macros work on
  heap objects, so that results may alias operands. Multiplication, division, shifts and decimal
  output work on pairs passed by value.
* **Wrapping time** (`Timing`), the **DOS baud divisor** (`DosBaud`) and the **non-blocking line
  editor** (`Readline`). Module `Platform` holds the word sizes and error codes they share.

Where the code and its documentation disagree the model follows the code, and a lemma states
exactly when the code is right:

* `xbee_cbuf_get` leaves `head` one past the last index when it drains exactly to the end of the
  memory (`length > end_space` rather than `>=`). `xbee_cbuf_getch` then reads the byte behind the
  buffer, and `xbee_cbuf_putch` on a full ring empties it. `CircularBuffer.PutchSpec` and
  `CircularBuffer.GetchSpec` state the exact states, `CircularBuffer.MixedReadsReturnAStaleByte` and
  `Efm32Rx.DrainThenGetchar` the inputs.
* The remainder of `jsll_udivmod` is wrong exactly when the divisor has its top bit set and the
  dividend is not below it; `jsll_mod` inherits this for the smallest number by itself only.
* `JSLL_ISHL`, `jsll_shl` and `jsll_ushr` are documented for 0 to 64 bits. `JSLL_ISHL` is wrong
  exactly for negative numbers by 0 and nonzero numbers by 64, `jsll_shl` by 64 with a nonzero low
  word, `jsll_ushr` by 64 with a nonzero high word.
* `mbedtls_mpi_exp_mod` leaves N instead of 0 for a negative base, an odd exponent and a power
  divisible by N, and only then. Two conditions a caller can check beforehand: a base invertible
  modulo N is never affected, a multiple of N always is.
* `mbedtls_mpi_div_mpi` is documented for any Q. When Q is A or B, the sign of that operand has been
  overwritten by the time it is read, and for |A| < |B| so has the dividend that R should receive.
  `MpiDivide.AliasedDivision` states exactly when quotient and remainder are right all the same.
* `xbee_ser_putchar` on EFM32 enables the transmit interrupt before it stores the byte. The wake-up
  is lost exactly when enough interrupts fire in between.
* RTS on HCS08 is not exact after three races (`ReadRace`, `OverrunRace`, `StrayRace`); each of them
  breaks it, runs reach each of them, and nothing else does. A client that only uses
  `xbee_ser_getchar` from a ring whose head is in range meets none of them.
* The DOS baud rate does not keep the documented 5 percent; the exact condition is proved for every
  32-bit request.
* The orientation of the ring is that of the `.c` file: bytes are written at `tail` and read at
  `head`. The header's words front and back leave it open.
* `xbee_readline` is documented to return -ENODATA on CTRL-D; the code has no such return, and
  CTRL-D is an ordinary unprintable key (`Readline.CtrlDIsIgnored`).
* The guard of `mpi_montmul` asks for a scratch vector of n + 1 limbs, the rows store 2n + 2
  (`Montgomery.ScratchSize`). Exponentiation, its only caller, passes enough.

Modelling conventions. `unsigned int` in the ring is 32 bits wide; the masking lemma holds for every
smaller ring size. The ring's memory has one more byte, standing for whatever follows the buffer.
`|=` and `|` of bits that cannot overlap are sums where `Bits.OrDisjoint` applies. Signed negations
and shifts that C leaves undefined or to the implementation wrap and shift arithmetically; a shift by
a whole limb whose result is masked away counts as zero. Clocks,
interrupts and keys are parameters or events. A test of the ring followed by driving the pin is one
step, and so is each read-modify-write of the HCS08 flag byte.

## Model

| member | source | states |
|---|---|---|
| MulAdd.LaneBound | include/mbedtls/bn_mul.h:901-907 | s\*b + d + c is at most B^2 - 1 for limbs, so the double-width sum never overflows |
| MulAdd.CarryBound | include/mbedtls/bn_mul.h:25-26 | every carry of a row of any length fits one limb |
| MulAdd.RowValue | include/mbedtls/bn_mul.h:25-26 | Val(d') + B^n\*c' = Val(d) + b\*Val(s) + c for all vectors of all lengths, every stored limb and the carry in range |
| MulAdd.RowUnique | include/mbedtls/bn_mul.h:25-26 | that equation and the ranges determine the row, so every kernel that meets the contract is the same function |
| MulAdd.WrapAddCarry | include/mbedtls/bn_mul.h:928-931 | for limbs, sum < addend after a wrapping addition is exactly the carry out |
| MulAdd.AddCompare | include/mbedtls/bn_mul.h:928-931 | a wrapping addition with its compared carry keeps low + B\*high exact, and the high limb does not wrap |
| MulAdd.AddFlag | include/mbedtls/bn_mul.h:78-81 | the same for add/adc through the carry flag |
| MulAdd.CoreLongLong | include/mbedtls/bn_mul.h:901-907 | the double-width kernel stores the low limb of s\*b + d + c and leaves its high limb as carry |
| MulAdd.CoreI386 | include/mbedtls/bn_mul.h:75-83 | the IA-32 kernel computes the same limb and carry |
| MulAdd.FourProducts | include/mbedtls/bn_mul.h:920-924 | four half-limb products reassemble s\*b for any half base |
| MulAdd.HalfSum | include/mbedtls/bn_mul.h:925-927 | splitting the two cross products between low and high limb loses nothing |
| MulAdd.AddHigh | include/mbedtls/bn_mul.h:925-926 | r1 never wraps when the high halves of the cross products are added |
| MulAdd.PartialProducts | include/mbedtls/bn_mul.h:920-927 | the first half of the half-limb kernel holds s\*b exactly as three low parts and one high limb |
| MulAdd.SumLow | include/mbedtls/bn_mul.h:928-931 | the four compared additions recover every carry |
| MulAdd.CoreGeneric | include/mbedtls/bn_mul.h:920-932 | for every half base the half-limb kernel yields the same limb and carry as the double-width kernel |
| MulAddAsm.MultiplyAdde | include/mbedtls/bn_mul.h:347-352 | the product plus the running carry r5 + CA is kept exactly, with r9 + CA below the base |
| MulAddAsm.ArithmeticOfCore | include/mbedtls/bn_mul.h:347-355 | one PowerPC core stores the right limb and splits the new carry between r5 and CA |
| MulAddAsm.PowerPc.Init | include/mbedtls/bn_mul.h:337-345 | INIT sets the pre-decremented pointers and clears CA |
| MulAddAsm.PowerPc.Core | include/mbedtls/bn_mul.h:347-355 | the loop invariant: after k cores r5 + CA is the row's carry, only cell k changed, pointers lag by one |
| MulAddAsm.PowerPc.Stop | include/mbedtls/bn_mul.h:357-367 | STOP folds the pending CA into the carry and restores the pointers |
| MulAddAsm.PowerPc.RunRow | include/mbedtls/bn_mul.h:337-367 | INIT, n cores, STOP store the row, change nothing else, and satisfy the number equation, for every n |
| MulAddAsm.Pmuludq | include/mbedtls/bn_mul.h:88-95 | a lane product leaves room for two more limbs in 64 bits |
| MulAddAsm.StoreShift | include/mbedtls/bn_mul.h:96-99 | storing the low half and shifting right gives limb and carry, the carry below the base |
| MulAddAsm.HuitRegisters | include/mbedtls/bn_mul.h:87-148 | the interleaved loads, products and additions produce eight chained limbs and carries; no lane overflows |
| MulAddAsm.HuitLanes | include/mbedtls/bn_mul.h:87-148 | the block is the row function on eight limbs |
| MulAddAsm.Huit | include/mbedtls/bn_mul.h:87-148 | on memory: eight cells become the row, all others are unchanged, pointers advance by eight, carry out is the row's |
| MpiRows.AddingStep | src/mbedtls/bignum.c:1430-1461 | one core inside a longer pass keeps value + B^k\*carry = start + b\*(limbs so far) |
| MpiRows.CarryingStep | src/mbedtls/bignum.c:1466-1469 | one propagation step keeps the number the vector and the carry denote together |
| MpiRows.CarryStays | src/mbedtls/bignum.c:1466-1469 | a result that fits the vector never carries out of it, so the do loop stops in bounds |
| MpiRows.Cores | src/mbedtls/bignum.c:1430-1461 | INIT, n cores, STOP inside a pass |
| MpiRows.AllCores | src/mbedtls/bignum.c:1430-1461 | the unrolled loops of 16, 8 and 1 cores together add b times all n limbs |
| MpiRows.Propagate | src/mbedtls/bignum.c:1466-1469 | the carry loop terminates in bounds and leaves the exact total |
| MpiRows.MulHlp | src/mbedtls/bignum.c:1403-1470 | d becomes d + b\*s as numbers whenever that fits, limbs below d untouched |
| MpiRows.RowAdvances | src/mbedtls/bignum.c:1416-1421 | a row stored by any kernel at any place of a pass advances it like single cores |
| MpiRows.HuitInPass | src/mbedtls/bignum.c:1416-1421 | an SSE2 block inside a pass advances it by eight limbs |
| MpiRows.MulHlpHuit | src/mbedtls/bignum.c:1415-1428 | the loops over HUIT blocks meet the very contract of the loops over single cores |
| MpiRows.SubtractingStep | src/mbedtls/bignum.c:1235-1239 | the two compared subtractions of a step recover the borrow exactly |
| MpiRows.SubHlp | src/mbedtls/bignum.c:1230-1246 | d becomes d - s as numbers whenever s does not exceed d |
| MpiRows.CmpAbs | src/mbedtls/bignum.c:1087-1114 | the result is the sign of the difference of the magnitudes, whatever leading zeros either has |
| Mpi.Mpi.Grow | src/mbedtls/bignum.c:120-145 | at least n limbs and the same number; the allocation error, with nothing changed, always above the limit and otherwise only when memory was needed and not to be had |
| Mpi.Mpi.SetZero | src/mbedtls/bignum.c:315-329 | zero with sign 1 in at least one limb; it fails only for want of memory for a first limb, and then changes nothing |
| Mpi.Mpi.CopyFrom | src/mbedtls/bignum.c:191-228 | same sign and magnitude in the limbs up to the top nonzero one; a number without limbs frees the target; which sizes must fail, which cannot, and that a failure has taken over the sign only |
| Mpi.Unaliased | src/mbedtls/bignum.c:1486-1487 | the aliasing guard replaces X by a fresh number of the same value, and nothing else |
| Mpi.RowFits | src/mbedtls/bignum.c:1489-1501 | a product always fits i + j limbs, so no row of the multiplication can carry out |
| Mpi.MulRows | src/mbedtls/bignum.c:1500-1501 | rows at falling offsets into a cleared buffer give Val(A)\*Val(B) exactly |
| Mpi.MulInto | src/mbedtls/bignum.c:1489-1503 | product and sign, or the allocation error and the old value; must fail above the limb limit and cannot fail below it on a reliable heap |
| Mpi.MulMpi | include/mbedtls/bignum.h:695-708 | X = A\*B for all signs, sizes and zero operands and every aliasing of X with A and B, or an allocation error and X unchanged; on a reliable heap it fails exactly when the significant limbs of both exceed the limit |
| MpiArith.CmpMpi | src/mbedtls/bignum.c:1119-1149 | the result is the sign of the difference of the signed numbers, whatever leading zeros and signs of zero they have |
| MpiArith.CompareZero | src/mbedtls/bignum.c:1154-1166 | the comparison with 0 is the sign of the number, and 0 for a negative zero |
| MpiArith.TwoAdditions | src/mbedtls/bignum.c:1206-1208 | the two compared additions of a step recover the carry exactly and never leave more than 1 |
| MpiArith.AddLimbs | src/mbedtls/bignum.c:1204-1209 | the limb loop, also when both vectors are one: value and pending carry make the sum of both numbers |
| MpiArith.CarryUp | src/mbedtls/bignum.c:1211-1220 | the carry loop lets X grow limb by limb, ends, and leaves the exact total; which totals cannot run out of memory |
| MpiArith.AddAbs | src/mbedtls/bignum.c:1171-1225 | the sum of the magnitudes under every aliasing, X grown as the carry needs it |
| MpiArith.SubAbs | src/mbedtls/bignum.c:1251-1292 | the difference of the magnitudes under every aliasing; refused exactly when it would be negative, and then nothing changes |
| MpiArith.AddMpi | src/mbedtls/bignum.c:1297-1327 | X = A + B for all signs and sizes and every aliasing, or the allocation error, never when the sum fits the limbs there may be on a reliable heap |
| MpiArith.SubMpi | src/mbedtls/bignum.c:1332-1362 | X = A - B in the same generality |
| MpiArith.MulInt | src/mbedtls/bignum.c:1515-1528 | X = A times one limb, X may be A |
| MpiShift.LeadingZeros | src/mbedtls/bignum.c:396-409 | 2^(bits-j-1) <= x < 2^(bits-j), and all bits exactly for zero |
| MpiShift.BitLength | src/mbedtls/bignum.c:414-428 | the number of bits of the magnitude, for any leading zero limbs |
| MpiShift.BitsUp | src/mbedtls/bignum.c:1024-1033 | the bit loop of the left shift multiplies the number by 2^t, and nothing leaves at the top |
| MpiShift.ShiftL | src/mbedtls/bignum.c:992-1038 | the magnitude times 2^count for every count, in the limbs it had or the ones that needs, or the allocation error |
| MpiShift.BitsDown | src/mbedtls/bignum.c:1070-1079 | the bit loop of the right shift is floor division by 2^v |
| MpiShift.ShiftR | src/mbedtls/bignum.c:1043-1082 | floor(magnitude / 2^count) for every count, also past the top, in the same vector |
| LongDivision.EstimateNotBelow | src/mbedtls/bignum.c:1682-1688 | dividing the two leading limbs by the leading limb of the divisor is never below the true digit |
| LongDivision.DigitPassesTest | src/mbedtls/bignum.c:1695-1705 | the true digit passes the test on two and three leading limbs, so the test never goes below it |
| LongDivision.TestIsClose | src/mbedtls/bignum.c:1695-1718 | a digit that passes the test exceeds the true one by at most one |
| MpiDigits.IntDivInt | src/mbedtls/bignum.c:1534-1567 | the double-width quotient of two limbs by one, and all ones on overflow or a zero divisor |
| MpiDigits.GuessDigit | src/mbedtls/bignum.c:1682-1688 | the guess is a limb not below the true digit |
| MpiDigits.TestDigit | src/mbedtls/bignum.c:1695-1705 | the comparison is that of the guess times two divisor limbs with three dividend limbs, zeros standing for limbs that are not there |
| MpiDigits.ChooseDigit | src/mbedtls/bignum.c:1690-1705 | the loop ends, at a digit that passes the test and is not below the true one |
| MpiDigits.SubtractMultiple | src/mbedtls/bignum.c:1707-1717 | the multiple is removed; when that goes below zero one divisor is added back and the digit lowered, and dividend = digit times divisor + rest either way |
| MpiDigits.DivideDigit | src/mbedtls/bignum.c:1680-1718 | one round: the stored digit and the rest below the shifted divisor are those of the division |
| MpiDigits.DivideDigits | src/mbedtls/bignum.c:1680-1718 | all rounds: quotient times divisor + rest stays the dividend, and the rest ends below the divisor; which sizes cannot run out of memory |
| MpiDivide.TakeDivisors | src/mbedtls/bignum.c:1673-1677 | the loop at the top place takes at most three divisors and leaves less than one |
| MpiDivide.FirstDigit | src/mbedtls/bignum.c:1669-1678 | the divisor goes up under the top of the dividend, comes off as often as it fits, and comes back unchanged |
| MpiDivide.Normalize | src/mbedtls/bignum.c:1660-1667 | both numbers are scaled by the same power, after which the divisor's top limb has all but one of its bits |
| MpiDivide.LongDivide | src/mbedtls/bignum.c:1651-1718 | for every nonzero divisor not above the dividend: quotient, and the remainder still scaled; four limbs more than the dividend suffice |
| MpiDivide.DivMpi | src/mbedtls/bignum.c:1629-1742 | Q and R for all signs and sizes, Q or R null, R or Q an operand; the division-by-zero error exactly for B = 0; the allocation error never when A is four limbs below the limit on a reliable heap |
| MpiDivide.DivisionLaw | include/mbedtls/bignum.h:724-743 | A = Q\*B + R, R below B in magnitude and with the sign of A |
| MpiDivide.AliasedDivision | include/mbedtls/bignum.h:724-743 | when Q is A or B, the quotient is right if and only if it is 0 or the lost signs cancel, the remainder if and only if Q is not A or what is lost does not matter |
| MpiDivide.MinusSevenByTwo | src/mbedtls/bignum.c:1720-1734 | the input -7 / 2 with Q in the place of A gives 3 and 1 |
| MpiDivide.AddDivisor | src/mbedtls/bignum.c:1778-1779 | the loop that lifts a negative remainder ends with the residue |
| MpiDivide.TakeAwayDivisor | src/mbedtls/bignum.c:1781-1782 | the loop that lowers a remainder keeps the residue and changes nothing below the modulus |
| MpiDivide.ModMpi | src/mbedtls/bignum.c:1766-1787 | the residue of every signed A modulo every positive B, R may be A; refused exactly for a negative B, division by zero exactly for 0 |
| HalfLimbs.TestIsExact | src/mbedtls/bignum.c:1597-1597 | the half-limb test, with its wrapping products, asks exactly whether the digit is too large |
| HalfLimbs.FirstGuess | src/mbedtls/bignum.c:1594-1595 | the first half digit is never too small and at most two above a half limb |
| HalfLimbs.NextGuess | src/mbedtls/bignum.c:1597-1603 | lowering keeps that, and a remainder of a half limb or more means the digit is right, so the early exit is |
| HalfLimbs.HalfDigit | src/mbedtls/bignum.c:1594-1603 | the loop ends with the exact half digit |
| HalfLimbs.DivideHalves | src/mbedtls/bignum.c:1585-1620 | both half digits and the remainder of a normalized division, although the middle remainder is computed in wrapping limbs |
| HalfLimbs.IntDivHalves | src/mbedtls/bignum.c:1538-1623 | without a double-width type: the same quotient as with one, and the remainder, for every limb size 2h |
| Montgomery.SeedInverts | src/mbedtls/bignum.c:1856-1857 | the seed inverts every odd limb modulo 16 |
| Montgomery.NewtonStep | src/mbedtls/bignum.c:1859-1860 | x\*(2 - m\*x) doubles the precision of an inverse |
| Montgomery.BitsHalve | src/mbedtls/bignum.c:1859-1859 | the loop counter runs exactly as long as precision is missing |
| Montgomery.MontgInit | src/mbedtls/bignum.c:1851-1863 | for every odd low limb and every limb size 4\*2^t bits, mm\*N[0] = -1 modulo the limb base |
| Montgomery.RowDivides | src/mbedtls/bignum.c:1888-1892 | the digit u1 makes the row divisible by the base |
| Montgomery.WindowFits | src/mbedtls/bignum.c:1883-1895 | the working window never needs more than n + 2 limbs |
| Montgomery.MontRow | src/mbedtls/bignum.c:1885-1894 | one row divides T + u0\*B + u1\*N by the base exactly |
| Montgomery.RowsNext | src/mbedtls/bignum.c:1883-1895 | the loop invariant T\*base^i = (low limbs of A)\*B + u\*N carries over to the next row |
| Montgomery.RowsBound | src/mbedtls/bignum.c:1883-1895 | the invariant keeps T below B + N after every row |
| Montgomery.MontRows | src/mbedtls/bignum.c:1883-1895 | after all n rows the invariant holds for the whole of A, over the cleared T |
| Montgomery.MontAccumulate | src/mbedtls/bignum.c:1877-1895 | before the final copy T\*R = A\*B + u\*N and T is below 2N |
| Montgomery.ReduceOnce | src/mbedtls/bignum.c:1899-1903 | both branches of the closing comparison: one subtracts N from A, the other subtracts into T and leaves A alone |
| Montgomery.MontFinish | src/mbedtls/bignum.c:1897-1903 | copying the window and reducing it leaves a number below N congruent to A\*B\*R^-1 |
| Montgomery.MontMul | src/mbedtls/bignum.c:1868-1906 | A becomes the Montgomery product: below N and A'\*R = A\*B modulo N, also when B is A; too small a T is refused with A unchanged |
| Montgomery.ScratchSize | src/mbedtls/bignum.c:1874-1894 | every row stores inside T if and only if T has 2n + 2 limbs, which the guard of n + 1 does not ensure |
| MontForm.InverseOfR | src/mbedtls/bignum.c:1851-1863 | R has an inverse modulo N whenever mm is what initialisation computes |
| MontForm.MontIsUnique | src/mbedtls/bignum.c:1868-1906 | the number montmul is proved to leave is determined: it is A\*B\*R^-1 mod N |
| MontForm.MontRep | src/mbedtls/bignum.c:1868-1906 | Montgomery products of powers in Montgomery form add exponents |
| MontForm.MontEnter | src/mbedtls/bignum.c:1998-2006 | W[1] = A\*R^2\*R^-1 mod N is A in Montgomery form |
| MontForm.MontLeave | src/mbedtls/bignum.c:1911-1921 | reduction by one takes a number out of Montgomery form |
| ExpMod.MulMod | src/mbedtls/bignum.c:1868-1906 | on residues mpi_montmul meets its own demands and leaves the Montgomery product, also for X by X and for a one-limb factor |
| ExpMod.MulPowers | src/mbedtls/bignum.c:1868-1906 | the product of two vectors that hold powers of A holds the power of the summed exponents |
| ExpMod.SquareOfR | src/mbedtls/bignum.c:1983-1996 | R^2 mod N, taken from a helper number that has been used, otherwise computed by a shift and a long division on one number, and left in the helper for later calls |
| ExpMod.ReduceInto | src/mbedtls/bignum.c:2001-2004 | W[1] becomes A mod N, by long division when A is not below N; it keeps its n + 1 limbs if and only if A has any |
| ExpMod.EnterForm | src/mbedtls/bignum.c:2006-2006 | W[1] becomes A in Montgomery form |
| ExpMod.StartPower | src/mbedtls/bignum.c:2011-2012 | X becomes 1 in Montgomery form |
| ExpMod.Reduce | src/mbedtls/bignum.c:1911-1921 | mpi_montred on limbs takes a number out of Montgomery form |
| ExpMod.Duplicate | src/mbedtls/bignum.c:2032-2033 | a table entry grown and copied holds the same residue, in a vector of its own |
| ExpMod.BuildTable | src/mbedtls/bignum.c:2014-2037 | the squarings and products fill vectors W[2^(w-1)] to W[2^w - 1] with the powers their indices say, for every configured window |
| MontForm.ConsumeBit | src/mbedtls/bignum.c:2045-2059 | reading the next bit of the exponent's limbs doubles the number read so far and adds the bit |
| MontForm.NextLimb | src/mbedtls/bignum.c:2047-2055 | going on to the next limb reads nothing |
| MontForm.AddBit | src/mbedtls/bignum.c:2076-2082 | a bit that joins the window keeps exponent = (flushed part)\*2^nbits + window |
| ExpMod.FlushWindow | src/mbedtls/bignum.c:2084-2099 | a full window brings the limbs of X to the power of all bits read |
| ExpMod.OneBit | src/mbedtls/bignum.c:2061-2100 | every branch of the scan (leading zero, zero outside a window, window bit, full window) keeps the invariant on the limbs of X |
| MontForm.TailRound | src/mbedtls/bignum.c:2106-2114 | the i-th tail round tests exactly the i-th held bit |
| ExpMod.Tail | src/mbedtls/bignum.c:2103-2114 | the remaining bits are applied to the limbs of X |
| ExpMod.Scan | src/mbedtls/bignum.c:2039-2114 | the whole scan raises X to Val(E), for every number of limbs and every window size |
| ExpMod.RaiseMagnitude | src/mbedtls/bignum.c:2006-2119 | from A mod N and R^2 mod N to A^E mod N on limbs |
| ExpMod.SubtractFrom | src/mbedtls/bignum.c:2121-2125 | X becomes N - X for X below N, although X is an operand of the addition |
| ExpMod.Temporaries | src/mbedtls/bignum.c:1969-1981 | vectors for W[1] and T and a copy of a negative A, or the allocation error |
| ExpMod.Accepts | src/mbedtls/bignum.c:1943-1947 | the tests accept exactly a positive odd N and an E that is not negative |
| ExpMod.ExpMod | src/mbedtls/bignum.c:1926-2139 | on limb vectors, X may be A: refuses exactly N even or not positive and E negative; otherwise A^E mod N, and N - (A^E mod N) for a negative base with an odd exponent; the helper number is used or left behind for the next call; when it can and cannot run out of memory |
| ExpMod.ExpModResidue | src/mbedtls/bignum.c:2121-2125 | the result is always congruent to the signed power, and is its reduced residue if and only if not (negative base, odd exponent, power divisible by N) |
| ExpMod.InvertibleBaseIsReduced | src/mbedtls/bignum.c:2121-2125 | a base invertible modulo N > 1 always gives the reduced residue |
| ExpMod.MultipleOfModulusLeavesIt | src/mbedtls/bignum.c:2121-2125 | a negative multiple of N with an odd exponent always leaves N, where the residue is 0 |
| ExpMod.MinusThreeModThree | src/mbedtls/bignum.c:2121-2125 | the input (-3)^1 mod 3, for limbs of any size |
| Bits.AndMask | src/xbee/xbee_cbuf.c:81-91 | x & (2^k - 1) is x modulo 2^k |
| Bits.AndSuccessor | src/xbee/xbee_cbuf.c:32-42 | x & (x + 1) is zero if and only if x + 1 is a power of two |
| Bits.OrDisjoint | src/util/jslong.c:107-127 | or of parts that do not overlap is their sum |
| CircularBuffer.MaskedIs | src/xbee/xbee_cbuf.c:81-91 | masking an unsigned difference is reduction modulo the ring size, however it wrapped |
| CircularBuffer.MaskedSpace | src/xbee/xbee_cbuf.c:81-91 | the masked used and free counts are the queue's length and its complement to the capacity |
| CircularBuffer.PutchSpec | src/xbee/xbee_cbuf.c:46-59 | putch appends unless full and says which, if and only if the ring is not overrun; in the overrun state it drops everything |
| CircularBuffer.GetchSpec | src/xbee/xbee_cbuf.c:63-77 | getch returns the oldest byte or reports empty, if and only if head is in range or the byte behind the buffer happens to be the oldest |
| CircularBuffer.PutSpec | src/xbee/xbee_cbuf.c:102-132 | put appends as many bytes as are free, in order, wrapping or not |
| CircularBuffer.GetSpec | src/xbee/xbee_cbuf.c:136-166 | get removes as many of the oldest bytes as asked for and there, in order; it leaves head out of range exactly when it ends at the end of memory |
| CircularBuffer.TakeToEndSpec | src/xbee/xbee_cbuf.c:148-154 | the first of two copies of a get takes the oldest bytes up to the end of memory and leaves a ring that an interrupt may use |
| CircularBuffer.GetInTwo | src/xbee/xbee_cbuf.c:148-158 | a get that wraps is that copy followed by a get of the rest |
| CircularBuffer.FlushSpec | src/xbee/xbee_cbuf.c:95-98 | flush empties the queue and brings head into range |
| CircularBuffer.StepRefines | include/xbee/cbuf.h:29-36 | every operation in a state it handles is the bounded queue's operation, with the same result |
| CircularBuffer.RunRefines | include/xbee/cbuf.h:29-36 | over every sequence of handled operations the buffer is a bounded first-in first-out queue |
| CircularBuffer.NoGetIsHandled | src/xbee/xbee_cbuf.c:46-77 | runs without xbee_cbuf_get are always handled |
| CircularBuffer.NoGetchIsHandled | src/xbee/xbee_cbuf.c:46-166 | runs without xbee_cbuf_getch are handled as long as single bytes are appended only when there is room |
| CircularBuffer.MixedReadsReturnAStaleByte | src/xbee/xbee_cbuf.c:63-166 | a concrete run with both reads in which getch returns the byte behind the buffer where the queue is empty |
| CircularBuffer.Init | src/xbee/xbee_cbuf.c:32-42 | succeeds exactly for a buffer that is not null and sizes 2^n - 1 of at least 3, leaving an empty ring, and otherwise changes nothing |
| CircularBuffer.Cbuf.Putch | src/xbee/xbee_cbuf.c:46-59 | the in-place operation is the ring's putch |
| CircularBuffer.Cbuf.Getch | src/xbee/xbee_cbuf.c:63-77 | the in-place operation is the ring's getch |
| CircularBuffer.Cbuf.Used | src/xbee/xbee_cbuf.c:81-84 | the masked difference is the number of buffered bytes |
| CircularBuffer.Cbuf.Free | src/xbee/xbee_cbuf.c:88-91 | the masked difference is the capacity less the buffered bytes |
| CircularBuffer.Cbuf.Flush | src/xbee/xbee_cbuf.c:95-98 | the in-place operation is the ring's flush |
| CircularBuffer.Cbuf.Put | src/xbee/xbee_cbuf.c:102-132 | the two copies are the ring's put |
| CircularBuffer.Cbuf.Get | src/xbee/xbee_cbuf.c:136-166 | the two copies are the ring's get |
| Efm32Tx.ConservedStep | ports/efm32/xbee_serial_efm32.c:80-99 | every step of every call and the interrupt keeps sent bytes + ring = accepted bytes less the flushed ones, in order |
| Efm32Tx.ConservedRun | ports/efm32/xbee_serial_efm32.c:80-414 | the same over every interleaving, with writes copied in any pieces, breaks and flushes |
| Efm32Tx.NothingLostWithoutFlush | ports/efm32/xbee_serial_efm32.c:219-414 | without tx_flush the bytes sent followed by the ring are exactly the accepted bytes |
| Efm32Tx.WakeStep | ports/efm32/xbee_serial_efm32.c:80-99 | one step keeps the wake-up invariant unless the interrupt hits putchar between enable and store |
| Efm32Tx.NoLostWakeup | ports/efm32/xbee_serial_efm32.c:80-414 | over every run a non-empty ring without break has TXBL enabled between calls; interrupts anywhere inside xbee_ser_write are harmless |
| Efm32Tx.IrqsDrain | ports/efm32/xbee_serial_efm32.c:80-99 | n interrupts send the n oldest bytes, and the one that finds nothing disables itself |
| Efm32Tx.EverythingIsSent | ports/efm32/xbee_serial_efm32.c:80-99 | from an awake state the interrupt alone sends the whole ring in order |
| Efm32Tx.PutcharLosesWakeup | ports/efm32/xbee_serial_efm32.c:259-274 | putchar loses the wake-up if and only if more interrupts than waiting bytes fire between its enable and its store; the byte then waits with TXBL off |
| Efm32Tx.WriteQueues | ports/efm32/xbee_serial_efm32.c:219-236 | a finished write, however it is split into copies and interrupted, has queued exactly as many of its bytes as were free at its start, behind everything queued before, and left TXBL enabled |
| Efm32Tx.PutcharQueues | ports/efm32/xbee_serial_efm32.c:259-274 | a putchar queues its byte behind everything queued before, however many interrupts fire inside it, unless the ring is full and none does |
| Efm32Tx.BreakIsSilent | ports/efm32/xbee_serial_efm32.c:80-99 | from the moment a break is set nothing is sent or accepted over any run, until it is cleared |
| Efm32Tx.BreakEnds | ports/efm32/xbee_serial_efm32.c:393-414 | clearing the break lets the interrupt send all that has waited, in order |
| Efm32Tx.FlushDiscards | ports/efm32/xbee_serial_efm32.c:310-317 | a flush empties the ring, and no interrupt sends anything of it |
| Efm32Rx.GetcharOnlyIsPossible | ports/efm32/xbee_serial_efm32.c:276-292 | from a head in range, every run of a client that reads with getchar only is possible: nothing ever strays |
| Efm32Rx.ReadOnlyIsPossible | ports/efm32/xbee_serial_efm32.c:238-257 | and so is, from any state, every run of one that reads with xbee_ser_read only |
| Efm32Rx.RoomStep | ports/efm32/xbee_serial_efm32.c:68-120 | each step keeps: RTS asserted means more than four bytes free, otherwise free bytes and the peer's remaining slack balance |
| Efm32Rx.NothingRefused | ports/efm32/xbee_serial_efm32.c:68-120 | over every run with flow control on and a peer that stops within four bytes, the ring refuses no byte |
| Efm32Rx.LosslessIrq | ports/efm32/xbee_serial_efm32.c:68-78 | a received byte joins the stream at its end |
| Efm32Rx.LosslessWrap | src/xbee/xbee_cbuf.c:148-158 | so does a read stopped between the two copies of a get that wraps |
| Efm32Rx.LosslessGetchar | ports/efm32/xbee_serial_efm32.c:276-292 | getchar keeps delivered + buffered = received if and only if the ring is not in the stray state |
| Efm32Rx.DrainThenGetchar | ports/efm32/xbee_serial_efm32.c:238-292 | a read that drains the ring down to the end of its memory, followed by a getchar, delivers a byte that was never received |
| Efm32Rx.StreamDelivered | ports/efm32/xbee_serial_efm32.c:68-292 | over every run without rx_flush and without a stray getchar, delivered followed by buffered bytes are those received before followed by the bytes of the run's receive interrupts, in order |
| Efm32Rx.EverythingIsDelivered | ports/efm32/xbee_serial_efm32.c:68-257 | a read of the whole ring at the end of any such run has delivered every byte that arrived, in order |
| Efm32Rx.RxIrqSpec | ports/efm32/xbee_serial_efm32.c:68-78 | the interrupt appends its byte if there is room, and RTS stays asserted only with more than four bytes free |
| Efm32Rx.ReadSpec | ports/efm32/xbee_serial_efm32.c:238-257 | a read delivers the oldest bytes, leaves the rest, and asserts RTS when few remain |
| Efm32Rx.GetcharSpec | ports/efm32/xbee_serial_efm32.c:276-292 | a getchar delivers the oldest byte outside the stray state |
| Efm32Rx.OpenedIsGood | ports/efm32/xbee_serial_efm32.c:140-204 | opening establishes every invariant the runs need |
| Efm32Rx.SlackIsTight | ports/efm32/xbee_serial_efm32.c:26-26 | from five free bytes, the byte that drops RTS and the four of the slack are a possible run that fills the ring, and one byte more is refused |
| Efm32Rx.NeverStuckWithoutFlush | ports/efm32/xbee_serial_efm32.c:105-120 | without rx_flush, RTS is low between calls only while more than the lower bound is buffered |
| Efm32Rx.ReadAssertsRts | ports/efm32/xbee_serial_efm32.c:114-120 | a read asserts RTS again if and only if it leaves no more than the lower bound |
| Efm32Rx.FlushStarvesGetchar | ports/efm32/xbee_serial_efm32.c:276-342 | after rx_flush with RTS low no number of getchars raises it again |
| Efm32Rx.ReadAfterFlushRecovers | ports/efm32/xbee_serial_efm32.c:238-342 | one read of any size does |
| Efm32Serial.Serial.constructor | ports/efm32/xbee_serial_efm32.c:140-204 | opening starts both machines in their opened states: nothing buffered, no break, TXBL and flow control on, RTS asserted |
| Efm32Serial.Serial.TxIrq | ports/efm32/xbee_serial_efm32.c:80-99 | the handler is the transmit step: it gives the oldest byte to the USART, and disables itself in a break or with nothing to send |
| Efm32Serial.Serial.Write | ports/efm32/xbee_serial_efm32.c:219-236 | error cases, return value, the accepted prefix queued behind what waits, TXBL enabled, and the call is its three machine steps |
| Efm32Serial.Serial.WriteSteps | ports/efm32/xbee_serial_efm32.c:219-236 | the three steps enqueue the prefix and enable TXBL |
| Efm32Serial.Serial.Putchar | ports/efm32/xbee_serial_efm32.c:259-274 | error cases, -ENOSPC exactly when full; 0 means that the byte is queued behind what waits, anything else that nothing is; the call is its two machine steps in the source's order |
| Efm32Serial.Serial.Break | ports/efm32/xbee_serial_efm32.c:393-414 | break flag set or cleared and TXBL the other way round, nothing queued or sent; the call is its two machine steps |
| Efm32Serial.Serial.TxFlush | ports/efm32/xbee_serial_efm32.c:310-317 | nothing waits afterwards, nothing is sent; the call is the flush step |
| Efm32Serial.Serial.CheckRxBufferUpper | ports/efm32/xbee_serial_efm32.c:105-111 | raises the pin when at most four bytes are free and never lowers it |
| Efm32Serial.Serial.CheckRxBufferLower | ports/efm32/xbee_serial_efm32.c:114-120 | lowers the pin when at most a third is buffered and never raises it |
| Efm32Serial.Serial.RxIrq | ports/efm32/xbee_serial_efm32.c:68-78 | the received byte is appended if there is room, the pin goes high at four free bytes; the handler is the receive step, whether flow control is on or not |
| Efm32Serial.Serial.Read | ports/efm32/xbee_serial_efm32.c:238-257 | error cases, the oldest bytes and the rest left, the pin low when flow control is on and few remain; the call is the take and check steps |
| Efm32Serial.Serial.Getchar | ports/efm32/xbee_serial_efm32.c:276-292 | -ENODATA with nothing changed exactly when getch finds nothing, otherwise the byte getch finds and the take and check steps; outside the stray state that is the oldest byte |
| Efm32Serial.Serial.RxFlush | ports/efm32/xbee_serial_efm32.c:335-342 | nothing waits afterwards, RTS and flow control as before; the call is the flush step |
| Efm32Serial.Serial.Flowcontrol | ports/efm32/xbee_serial_efm32.c:416-438 | on: both checks, giving the pin by the bytes buffered; off: RTS asserted; no byte moves |
| Efm32Serial.Serial.SetRts | ports/efm32/xbee_serial_efm32.c:440-455 | flow control off and the pin as asked, no byte moves |
| Hcs08Serial.RtsStep | ports/hcs08/xbee_serial_hcs08.c:204-280 | each step keeps RTS = (at least eight bytes free) if and only if it is none of three named races, for every ring size |
| Hcs08Serial.UninterruptedReadHasNoRace | ports/hcs08/xbee_serial_hcs08.c:207-236 | a read that no interrupt enters has none of the races, whatever its size |
| Hcs08Serial.InterruptRepairs | ports/hcs08/xbee_serial_hcs08.c:506-510 | after any interrupt, races or not, RTS is asserted only with eight bytes free |
| Hcs08Serial.RtsRun | ports/hcs08/xbee_serial_hcs08.c:204-554 | over every run without a race, manual RTS or flush, RTS is exact after every step |
| Hcs08Serial.GetcharOnlyNeverRaces | ports/hcs08/xbee_serial_hcs08.c:260-280 | from a head in range, no run of a client that reads with getchar only has a race, so Hcs08Serial.RtsRun covers every one of them |
| Hcs08Serial.ReadRaceIsReached | ports/hcs08/xbee_serial_hcs08.c:207-236 | a read of eight bytes with RTS off, and enough interrupts before its check, is a read race, from every such state |
| Hcs08Serial.StrayAndOverrunAreReached | ports/hcs08/xbee_serial_hcs08.c:207-280 | a read down to the end of memory leads to a stray race at the next getchar, and to an overrun race once the ring is full |
| Hcs08Serial.IsrSpec | ports/hcs08/xbee_serial_hcs08.c:506-554 | the interrupt appends its byte if there is room and drops RTS if that leaves fewer than eight bytes free |
| Hcs08Serial.ReadSpec | ports/hcs08/xbee_serial_hcs08.c:207-236 | a read hands out the oldest bytes, leaves the rest, and asserts RTS if eight were read or are free |
| Hcs08Serial.GetcharSpec | ports/hcs08/xbee_serial_hcs08.c:260-280 | a getchar hands out the oldest byte outside the stray state, and asserts RTS if eight bytes are free |
| Hcs08Serial.StreamStep | ports/hcs08/xbee_serial_hcs08.c:204-554 | a step keeps handed-out + buffered = buffered before + arrived if and only if its byte finds room, its getchar is not stray, its flush finds nothing |
| Hcs08Serial.StreamRun | ports/hcs08/xbee_serial_hcs08.c:204-554 | over every run of such steps the bytes handed out followed by the ring are the ring before followed by the bytes of the run's interrupts, in order |
| Hcs08Serial.NothingRefused | ports/hcs08/xbee_serial_hcs08.c:506-510 | over every race-free run without a stray getchar and with a peer that stops within seven bytes of RTS dropping, each byte finds room |
| Hcs08Serial.StreamDelivered | ports/hcs08/xbee_serial_hcs08.c:204-554 | so over every such run without a stray getchar the client gets exactly what was sent, and RTS is exact at its end |
| Hcs08Serial.GetcharClientGetsAll | ports/hcs08/xbee_serial_hcs08.c:260-280 | from a head in range a client that reads with getchar only gets it without any further condition |
| Hcs08Serial.FlowOnExact | ports/hcs08/xbee_serial_hcs08.c:434-451 | turning flow control on establishes the invariant from any state |
| Hcs08Serial.RtsLaws | ports/hcs08/xbee_serial_hcs08.c:34-42 | setting a port's RTS bit sets that bit and leaves the other three |
| Hcs08Serial.FlowLaws | ports/hcs08/xbee_serial_hcs08.c:34-42 | setting a port's flow bit sets that bit and leaves the other three |
| Hcs08Serial.TestLaws | ports/hcs08/xbee_serial_hcs08.c:204-206 | the shifted test and the interrupt's test read exactly the port's two bits |
| Hcs08Serial.StepProjects | ports/hcs08/xbee_serial_hcs08.c:204-554 | a step of one port is the unpacked port's step, and the other port's bits, pin and ring are unchanged |
| Hcs08Serial.PortsIndependent | ports/hcs08/xbee_serial_hcs08.c:34-42 | over every interleaving of both ports each behaves as if it were alone |
| Hcs08Serial.RtsExactOnBothPorts | ports/hcs08/xbee_serial_hcs08.c:204-554 | RTS of each port is exact after every interleaving of both ports' race-free events |
| Hcs08Serial.StreamsOnBothPorts | ports/hcs08/xbee_serial_hcs08.c:34-42 | over every interleaving of both ports each client gets exactly what its own peer has sent |
| Hcs08Serial.Driver.SetRtsPin | ports/hcs08/xbee_serial_hcs08.c:453-483 | RTS bit and pin of the port as asked, flow bit, ring and the other port as before |
| Hcs08Serial.Driver.Flowcontrol | ports/hcs08/xbee_serial_hcs08.c:434-451 | flow bit as asked, RTS bit and pin by free space when on, asserted when off, ring and the other port as before |
| Hcs08Serial.Driver.RxIsr | ports/hcs08/xbee_serial_hcs08.c:506-554 | the received byte is appended if there is room, RTS drops if fewer than eight bytes are left, the other port is as before; both handlers are the receive step of their port |
| Hcs08Serial.Driver.Read | ports/hcs08/xbee_serial_hcs08.c:207-236 | size 0, negative size, the limit of 255, the oldest bytes and the rest left, RTS after it, the other port as before; take and check steps |
| Hcs08Serial.Driver.Getchar | ports/hcs08/xbee_serial_hcs08.c:260-280 | -ENODATA without a change, otherwise one byte, the oldest outside the stray state, RTS after it, the other port as before; the two steps |
| Hcs08Serial.Driver.RxFlush | ports/hcs08/xbee_serial_hcs08.c:320-325 | nothing waits afterwards, RTS, pin and the other port as before |
| Hcs08Serial.Driver.EndOfCall | ports/hcs08/xbee_serial_hcs08.c:226-233 | both reading calls end with the same reassertion step |
| JsLong.Add | include/xbee/jslong.h:227-232 | sum modulo 2^64, also when the result is either operand or both |
| JsLong.Sub | include/xbee/jslong.h:234-237 | difference modulo 2^64 under every aliasing |
| JsLong.Neg | include/xbee/jslong.h:225-226 | negation modulo 2^64 under aliasing, the borrow read back from the stored low word |
| JsLong.AddThenSub | include/xbee/jslong.h:227-237 | (a + b) - b = a in place |
| JsLong.AddNegated | include/xbee/jslong.h:225-232 | a + NEG(a) = 0 |
| JsLong.SubIsAddOfNeg | include/xbee/jslong.h:107-109 | on the native branch's values, subtraction is addition of the negation |
| JsLong.I2L | include/xbee/jslong.h:297-297 | sign extension of every 32-bit integer |
| JsLong.UI2L | include/xbee/jslong.h:298-298 | zero extension |
| JsLong.ISHL | include/xbee/jslong.h:255-268 | the pair stored denotes a\*2^b modulo 2^64 exactly under the condition of IshlExact |
| JsLong.IshlLow | include/xbee/jslong.h:255-268 | shifts of 1 to 31: a\*2^b modulo 2^64 for every signed a, the arithmetic shift supplying the high word |
| JsLong.IshlHigh | include/xbee/jslong.h:255-268 | shifts of 32 to 63: a\*2^b modulo 2^64 |
| JsLong.IshlExact | include/xbee/jslong.h:131-131 | over the documented range 0 to 64, right if and only if not (b = 0 and a negative) and not (b = 64 and a nonzero) |
| JsLong.CmpExact | include/xbee/jslong.h:209-212 | for each of six operators the two-word comparison is the 64-bit one, signed and unsigned, if and only if not (operator accepts equality, high words equal, low words fail it) |
| JsLong.AssertionIsSufficient | include/xbee/jslong.h:201-212 | the operators the debug assertion lets through, and !=, are always right |
| JsLong.LessEqualMisjudges | include/xbee/jslong.h:209-212 | a concrete pair misjudged by <= |
| JsLong.StrictOrder | include/xbee/jslong.h:82-83 | the strict comparison, signed and unsigned, is total, asymmetric and transitive, and > is its converse |
| JsDivide.CombineProducts | src/util/jslong.c:72-90 | the cross sums of the 16-bit products are added with the one possible carry accounted for |
| JsDivide.Mul32 | src/util/jslong.c:72-90 | the exact 64-bit product of two words |
| JsDivide.Mul | src/util/jslong.c:64-68 | the product modulo 2^64 |
| JsDivide.Estimate | src/util/jslong.c:102-107 | the first digit estimate with the bounds both corrections rely on |
| JsDivide.Correct | src/util/jslong.c:108-115 | at most two corrections give digit and remainder, and a wrapped addition means none is due |
| JsDivide.HalfStep | src/util/jslong.c:104-115 | one 16-bit quotient digit and its remainder |
| JsDivide.NormUDivMod32 | src/util/jslong.c:97-129 | exact quotient and remainder of two words by a normalized word |
| JsDivide.CountLeadingZeros | src/util/jslong.c:134-152 | 2^(31-r) <= x < 2^(32-r), and 32 exactly for zero |
| JsDivide.NormalizeValue | src/util/jslong.c:208-221 | normalizing a pair by k bits multiplies the three-word number by 2^k without loss |
| JsDivide.ShiftBack | src/util/jslong.c:304-310 | shifting the pair down again divides by 2^k |
| JsDivide.EstimateOffByOne | src/util/jslong.c:293-300 | dividing by the top word alone overestimates the last digit by at most one |
| JsDivide.CorrectedDigit | src/util/jslong.c:293-309 | that one correction makes digit and remainder exact |
| JsDivide.DivideByWord | src/util/jslong.c:166-234 | quotient and remainder for every one-word divisor |
| JsDivide.DivideLong | src/util/jslong.c:293-309 | quotient digit and remainder for a normalized two-word divisor |
| JsDivide.DivideByPair | src/util/jslong.c:236-312 | quotient and remainder for a two-word divisor below 2^63 |
| JsDivide.UDivMod | src/util/jslong.c:157-319 | the quotient is always right; the remainder is right if and only if not (divisor at least 2^63 and dividend not below it), where it is the dividend |
| JsDivide.Div | src/util/jslong.c:323-348 | C's truncated quotient modulo 2^64 for every signed pair with a nonzero divisor |
| JsDivide.Mod | src/util/jslong.c:352-374 | C's truncated remainder if and only if not both operands are the smallest number, where it returns that number |
| JsDivide.TruncDivMod | src/util/jslong.c:323-374 | truncated quotient and remainder reassemble the dividend, the remainder takes its sign |
| JsDivide.ShiftLeftIs | src/util/jslong.c:378-395 | over 0 to 64 bits, a\*2^b modulo 2^64 if and only if not (b = 64 and the low word nonzero) |
| JsDivide.ShiftRightIs | src/util/jslong.c:420-437 | over 0 to 64 bits, floor(a / 2^b) if and only if not (b = 64 and the high word nonzero) |
| JsDecimal.Chunk | src/util/jslong.c:461-501 | one inner loop appends four digits, or the significant ones of the last chunk, worth exactly the remainder |
| JsDecimal.RoomForChunk | src/util/jslong.c:461-501 | the 20-character buffer never overflows |
| JsDecimal.LowDigits | src/util/jslong.c:461-501 | the repeated division produces the digits of every nonzero value, least significant first, without leading zeros |
| JsDecimal.ParseReversed | src/util/jslong.c:461-501 | copying the digits in reverse order keeps the number they denote |
| JsDecimal.UDecStr | src/util/jslong.c:461-501 | parsing the string gives the value back; 1 to 20 digits, a leading zero only for zero |
| JsDecimal.DecStr | src/util/jslong.c:441-453 | a minus sign exactly for negative values, and parsing the rest gives the magnitude; no leading zeros behind a sign or without one; at most 20 characters |
| Timing.CompareIsOrder | include/xbee/platform.h:606-630 | the true order for times less than 2^15 apart across any wrap; at exactly 2^15 each is before the other |
| Timing.CompareTransitive | include/xbee/platform.h:606-630 | transitive within a span below 2^15 |
| Timing.TimeoutMeaning | include/xbee/platform.h:661-678 | what a check of any timeout at any later time computes, across counter wraps |
| Timing.TimeoutWindow | include/xbee/platform.h:661-678 | delays 1 to 32767: false before the delay, true for the 32768 ticks from it |
| Timing.TimeoutForgets | include/xbee/platform.h:677-678 | and false again for as long after that |
| Timing.PollingObservesExpiry | include/xbee/platform.h:710-726 | polls at most 32768 ticks apart always see the expiry, at the first poll not before it |
| Timing.SecondsTimer.Seconds | ports/efm32/xbee_platform_efm32.c:55-62 | a call at time t after one at t0 returns the true seconds of t, and the statics again say so, when less than one counter turn lies between |
| Timing.SecStepRight | ports/efm32/xbee_platform_efm32.c:55-62 | a call is right when less than 2^32 ms have passed since the last whole second accounted for |
| Timing.SecStepWrong | ports/efm32/xbee_platform_efm32.c:55-62 | and wrong for every longer gap below 998 turns of the counter |
| Timing.SecondsAreTrue | ports/efm32/xbee_platform_efm32.c:55-62 | with calls at most 2^32 - 1000 ms apart every value is floor(T/1000) modulo 2^32, across any number of wraps |
| Timing.SecondsFromStart | ports/efm32/xbee_platform_efm32.c:55-62 | from power-on, when the first call comes before 2^32 ms |
| Timing.SysTick.Tick | ports/efm32/xbee_platform_efm32.c:75-84 | after n ticks ms is n modulo 2^32 and s is floor(n/1000) modulo 2^32, for every n |
| Timing.MbedTick | ports/mbed/xbee_platform_mbed.cpp:28-31 | a wrap of the millisecond counter counts a second early |
| Timing.MsTimer.Isr | ports/mbed/xbee_platform_mbed.cpp:28-31 | after n ticks SEC_TIMER is (n div 2^32)\*4294968 + (n mod 2^32) div 1000 modulo 2^32, for every n |
| Timing.RunTicks | ports/mbed/xbee_platform_mbed.cpp:28-31 | both platforms agree before the first wrap and differ by one at it |
| DosBaud.Baudrate | ports/dos/xbee_serial_dos.c:411-446 | -EINVAL for a null port, otherwise for every 32-bit request two latch bytes that hold the divisor DivisorIsChosen describes, and its rate |
| DosBaud.DivisorIsChosen | ports/dos/xbee_serial_dos.c:428-438 | requests 1 to 114 are the divisor, 0 and those above 115200 get 1, others the most whole times the rate goes into 115200; the rate is the most whole times the divisor does |
| DosBaud.BaudrateTwice | ports/dos/xbee_serial_dos.c:411-446 | asking again for the stored rate changes neither rate nor divisor |
| DosBaud.NestedFloor | ports/dos/xbee_serial_dos.c:433-438 | n/(n/(n/b)) = n/b for all 1 <= b <= n, and n/(n/b) is at least b |
| DosBaud.SmallDivisor | ports/dos/xbee_serial_dos.c:428-438 | a divisor whose square does not exceed n is the quotient of its own quotient |
| DosBaud.Idempotent | ports/dos/xbee_serial_dos.c:411-446 | for every request the stored rate yields the same divisor and itself |
| DosBaud.RateForRequest | ports/dos/xbee_serial_dos.c:433-438 | for rates 115 to 115200 the stored rate exceeds the request by exactly (N mod b)/(N/b) and is below 2b |
| DosBaud.RateOfDivisor | ports/dos/xbee_serial_dos.c:428-438 | requests 1 to 114 name a divisor and get more than eight times that many bits per second |
| DosBaud.FivePercent | include/xbee/serial.h:313-325 | for every 32-bit request the documented 5 percent holds if and only if it is a rate of 115 to 115200 whose excess is at most a twentieth of it, or lies above 115200 by at most a nineteenth |
| DosBaud.FivePercentFails | include/xbee/serial.h:313-325 | 80000 is served with 115200 |
| Readline.FoldFits | ports/dos/xbee_platform_dos.c:154-159 | the line never exceeds the largest length - 1 it was polled with and holds printable characters only |
| Readline.EraseUndoes | ports/dos/xbee_platform_dos.c:139-146 | a backspace undoes the key before it if and only if that key was taken or the line was empty |
| Readline.CtrlDIsIgnored | include/xbee/platform.h:553-553 | CTRL-D neither ends a line nor changes it, against the documentation |
| Readline.OtherKeysAreIgnored | ports/dos/xbee_platform_dos.c:154-159 | a key that is neither printable nor an eraser, or finds the line full, changes nothing |
| Readline.TypedIsAppended | ports/dos/xbee_platform_dos.c:154-159 | printable keys that fit are appended to any line as they are |
| Readline.ErasersShorten | ports/dos/xbee_platform_dos.c:139-146 | each backspace or delete takes one character off, down to the empty line |
| Readline.ErasersUndoTyping | ports/dos/xbee_platform_dos.c:139-159 | as many erasers as keys were typed give the line back |
| Readline.LineIsUnerased | ports/dos/xbee_platform_dos.c:137-166 | whenever there is room for every printable key the line is those keys read backwards, each dropped that an eraser after it pays for |
| Readline.LineOfPolls | ports/mbed/xbee_platform_mbed.cpp:88-151 | the same over polls, some of which find no key; text without erasers is kept as it is |
| Readline.Editor.Readline | ports/dos/xbee_platform_dos.c:107-171 | one poll with any length: error cases, the buffered line shortened, extended by the key or kept, always terminated and the fold of the keys, and a newline returns its length |
| Readline.Editor.EditLine | ports/dos/xbee_platform_dos.c:137-166 | the in-place edit shortens the line, appends the key or keeps it, and is one step of the fold |
| Readline.Editor.PollLine | ports/mbed/xbee_platform_mbed.cpp:88-151 | however the keys are spread over polls, the first newline returns the length of the fold, which the buffer holds terminated; if the printable keys fit, that is the unerased keys, and plain text is left as typed; without a newline the line is still held and open |
| Readline.Editor.PollLines | ports/mbed/xbee_platform_mbed.cpp:88-151 | over any poll history on one buffer the lines read out at the newlines are the lines of the history, and the open line is held |
| Readline.NoLineYet | ports/mbed/xbee_platform_mbed.cpp:88-151 | polls without a newline finish no line, and their keys are those of the open one |
| Readline.LinesSplit | ports/mbed/xbee_platform_mbed.cpp:88-151 | the lines of a history are the fold of the keys up to its first newline, followed by the lines of the rest as if nothing had come before |

## Left out

- ExpMod.ExpMod: asks for an A with at least one limb (without any, the copy frees W[1] and the product would read a null pointer; ExpMod.ReduceInto states that), for an X that is neither E nor N, which the scan and the correction still read after X has been written, and for a helper number that is none of the operands.
- MpiDivide.DivMpi: asks that Q and R are two numbers, if both are wanted; one number cannot hold both results.
- MpiDivide.ModMpi: asks for an R that is not B: the closing loops compare R with B, and with one number for both they would compare it with itself.
- Mpi.Mpi.Grow: `size_t` does not wrap; whether an allocation below the limit fails is an arbitrary choice at each call, unless the heap is said to be reliable.
- Montgomery.MontMul: asks for T of 2n + 2 limbs, which exponentiation provides; with n + 1 to 2n + 1 limbs, which the code's own guard lets through, Montgomery.ScratchSize shows that it stores behind T, and what happens then is not modelled.
- CircularBuffer.Init: accepts the size 2^32 - 1 as the code does, but the ring of 2^32 bytes it would set up is not modelled further.
- MulAddAsm.PowerPc.RunRow: does not model the layout of limbs in bytes or the register allocation; it covers the 32-bit and 64-bit forms alike because the base is a parameter.
- Efm32Rx.StreamDelivered: excludes a getchar in the stray state, where the property is false (Efm32Rx.LosslessGetchar gives the exact condition).
- Hcs08Serial.StreamDelivered: excludes the races and a getchar in the stray state, where the property is false (Hcs08Serial.StreamStep gives the exact condition of a step).
- Hcs08Serial.RtsRun: excludes the three races, each of which is proved to break the property.
- Efm32Serial.Serial.Write: the class method runs without an interrupt inside it; the interleavings are those of module Efm32Tx, where the copy may be split anywhere.
- Readline.Editor.Readline: console echo, the beep and the delay are not modelled, and a line is continued in the buffer it was started in: in another buffer the static cursor would point into the old one.
- Timing.SecStepWrong: does not go beyond 998 turns of the counter; some longer gaps give the right second again by chance.
- The other assembly kernels (AMD64, AArch64, 68020 with its X flag, MicroBlaze, TriCore, ARM and Thumb, Alpha, MIPS, Watcom, SPARC): they would refine the same row function with the same lemmas.
- Greatest common divisor, modular inverse, prime generation, string and binary conversion of mbedtls_mpi numbers, and the forms of addition, subtraction, division and residue that take a signed word and wrap it in a number of one limb.
- jsll_shr, the word-wise AND, OR, XOR and NOT macros, the test macros and the conversions to and from floating point.
- Hardware set-up of the serial ports (pins, clocks, baud divisors of EFM32 and HCS08), the HCS08 transmit calls, which block, and the debug-mode argument checks.
- Races inside one read-modify-write of the HCS08 flag byte, and between the test of a ring and the pin it drives.
- The DOS transmit path, where an interrupt can drain the ring between the enqueue and the interrupt disable.
- XMODEM, firmware update, AT commands, sockets, the ZigBee layers, the file system, and the AES, SHA-256, DRBG, entropy and SRP code.
