# fibdrv in Dafny

fibdrv is a Linux character device that computes Fibonacci numbers. A file's position
selects the index: `lseek` moves it and clamps it to `[0, MAX_LENGTH]`, with `MAX_LENGTH`
equal to 368. A one-word `write` selects the algorithm that a later `read` runs.

The driver has four algorithms:

- fast doubling on a 256-bit signed bignum;
- the linear recurrence on the same bignum;
- fast doubling in `long long`;
- the linear recurrence in `long long`.

The bignum holds seven 32-bit unsigned limbs plus a signed 32-bit top limb. Together they
form a 256-bit two's-complement integer. Its operations are:

- init, from_int and is_zero;
- add, sub, neg and abs;
- mul and div, with divrem underneath div;
- shl1, shr1 and from_uint_shift_unit;
- to_dec, which renders the value as decimal text.

The project has these modules:

- `Arith` (arith.dfy) holds modular arithmetic and powers of 2 and 10.
- `Machine` and `Limbs` (limbs.dfy) hold the fixed-width integer types and the C
  conversions between them. They also define the `BigNum` datatype. A `BigNum` has two
  readings: `Uns` reads the pattern as unsigned below 2^256, and `Val` reads it as signed.
  `OfVal`/`OfUns` build the pattern of a number.
- `BigNumSpec` (bignum_spec.dfy) states what each bignum operation computes as a function
  of its operands' values, and proves the algebra of those functions.
- `DecimalSpec` (decimal_spec.dfy) covers decimal numerals, the `"%09u"` digit groups and
  reading digits back as a number.
- `BigNum` (bignum.dfy) holds the bignum routines as imperative methods, with the loops of
  the C. Each method is proved against its `BigNumSpec` function.
- `FibSpec` (fib_spec.dfy) covers the Fibonacci numbers, the addition and doubling
  identities, and where F(n) outgrows 64 and 256 bits.
- `Fibonacci` (fib.dfy) holds the four algorithms as methods with their loops. C signed
  overflow in the `long long` versions is modelled as two's-complement wrap-around.
- `Device` (device.dfy) covers the file position as a `File` class and the driver's mode as
  a `Driver` class.

## Model

| member | source | states |
|---|---|---|
| BigNum.Init | bignum.c:26-29 | the result is the all-zero pattern, of value 0 |
| BigNum.FromInt | bignum.c:31-38 | the result has value `i`. Limbs 0 and 1 hold the low and high 32 bits. Limbs 2-6 and the sign limb are all ones for negative `i` and zero otherwise |
| BigNum.IsZero | bignum.c:262-273 | the result is true exactly when every limb is zero, which is exactly when the value is 0 |
| BigNum.Add | bignum.c:77-90 | the result is the pattern of (a + b) mod 2^256 |
| BigNum.Sub | bignum.c:92-105 | the result is the pattern of (a - b) mod 2^256 |
| BigNum.Neg | bignum.c:152-163 | the result is the pattern of (-a) mod 2^256 |
| BigNumSpec.SumValue | bignum.c:77-90 | addition is the signed sum modulo 2^256, and is exact whenever that sum lies in [-2^255, 2^255) |
| BigNumSpec.DifferenceValue | bignum.c:92-105 | subtraction is the signed difference modulo 2^256, exact when in range |
| BigNumSpec.NegationValue | bignum.c:152-163 | negation is exact for every value except -2^255, which negates to itself |
| BigNumSpec.AddZero | bignum.c:77-90 | adding zero leaves every pattern unchanged |
| BigNumSpec.AddNegation | bignum.c:77-90 | a + neg(a) is zero for every a, the minimum included |
| BigNumSpec.DifferenceIsSumOfNegation | bignum.c:92-105 | sub(a, b) is add(a, neg(b)) |
| BigNumSpec.NegationInvolutive | bignum.c:152-163 | neg(neg(a)) is a |
| BigNumSpec.NegationFixedPoints | bignum.c:152-163 | neg(a) is a exactly when a is zero or the minimum |
| BigNum.Abs | bignum.c:165-174 | the result has a non-negative sign limb. When abs is exact, its value is the magnitude of a |
| BigNumSpec.AbsNonNegative | bignum.c:165-174 | abs never yields a negative value, so its signed and unsigned readings agree |
| BigNumSpec.AbsIdempotent | bignum.c:165-174 | abs(abs(a)) is abs(a) |
| BigNumSpec.AbsValue | bignum.c:165-174 | for a non-negative operand, or one whose low limb is non-zero, abs is the magnitude |
| BigNumSpec.AbsLosesBorrow | bignum.c:168-172 | for negative a with low limb 0, abs differs from neg and falls 2^32 short of -a |
| BigNumSpec.AbsOfMinus2To32 | bignum.c:168-172 | abs(-2^32) is zero |
| BigNum.Shl1 | bignum.c:176-186 | the result is (2a + lsb) mod 2^256 |
| BigNum.Shr1 | bignum.c:188-201 | the result is floor(a/2) of the unsigned pattern, with bit 0 of msb entering at bit 255 |
| BigNumSpec.ShiftLeftThenRight | bignum.c:176-201 | shifting left and then right, with the lost top bit fed back, restores every operand |
| BigNumSpec.ShiftRightThenLeft | bignum.c:176-201 | shifting right and then left, with the lost low bit fed back, restores every operand |
| BigNumSpec.ShiftLeftDoubles | bignum.c:176-186 | shl1 is 2a + lsb on the signed value whenever that fits |
| BigNumSpec.ShiftRightHalves | bignum.c:188-201 | shr1 halves non-negative values, and its result is never negative when msb is 0 (the shift is logical) |
| BigNum.FromUintShiftUnit | bignum.c:203-219 | the result is u * 2^(32 * unit) mod 2^256; words past the top limb are dropped |
| BigNum.AddShifted | bignum.c:123-124 | placing `tmp` at limb `unit` and adding it adds tmp * 2^(32 * unit) modulo 2^256 |
| BigNum.MulRow | bignum.c:120-124 | one row of partial products: adds the sum of a[i] * b[j] * 2^(32(i+j)) over the limbs the loop visits |
| BigNum.MulRowsLoop | bignum.c:119-125 | all rows below the sign limb: the partial-product sum modulo 2^256 |
| BigNum.MulMagnitudes | bignum.c:118-131 | the product of two non-negative operands modulo 2^256 |
| BigNum.Mul | bignum.c:107-134 | the result is Product(a, b): the product of the abs results, negated when exactly one sign is negative |
| BigNumSpec.ProductValue | bignum.c:107-134 | when both abs calls are exact, mul is the signed product modulo 2^256, and exact when it fits |
| BigNumSpec.ProductExample | bignum.c:107-134 | mul(-5, 7) is -35 |
| BigNumSpec.ProductLosesBorrow | bignum.c:107-134 | mul(-2^32, 1) is 0, because abs loses its borrow |
| BigNum.DivStep | bignum.c:238-252 | one step of restoring division keeps the invariant that the 512-bit (rem, quo) register holds the partial remainder and quotient bits |
| BigNum.KeepBit | bignum.c:241-245 | step 3a: when rem - b is non-negative, keeping it and shifting a 1 into quo, with quo's top bit entering rem, extends the division invariant by a 1 quotient bit |
| BigNum.RestoreBit | bignum.c:246-251 | step 3b: when rem - b is negative, adding b back and shifting a 0 into quo extends the division invariant by a 0 quotient bit |
| BigNum.DivRem | bignum.c:221-260 | for b > 0, the quotient and remainder of Euclidean division of the magnitudes. For b = 0, the quotient is all ones and the remainder is a |
| BigNum.Div | bignum.c:137-150 | the result is Quotient(a, b): the magnitude quotient, signed like the product |
| BigNumSpec.QuotientValue | bignum.c:137-150 | for a non-zero divisor and exact abs, div is C's truncating division |
| BigNumSpec.QuotientByZero | bignum.c:137-150 | dividing by zero gives -1 for a non-negative dividend and 1 for a negative one |
| BigNumSpec.QuotientExample | bignum.c:137-150 | div(-35, 7) is -5 |
| BigNum.ToDec | bignum.c:40-74 | buffers under 10 bytes get a lone NUL. Otherwise, if the magnitude fits, the buffer starts with the numeral (a '-' before a negative one) and then a NUL. If it does not fit, the buffer gets the low digits with up to nine leading '.' |
| BigNumSpec.RenderedValue | bignum.c:61-66 | where abs is exact, the text is the signed shortest numeral of the value, and its digits read back as the magnitude |
| BigNumSpec.RenderedExample | bignum.c:40-74 | 0 renders as "0" and -123 as "-123" |
| BigNum.WriteGroups | bignum.c:52-60 | the loop writes the magnitude's base-10^9 digits as zero-padded groups of nine, right to left, ending at the NUL |
| BigNum.WriteGroup | bignum.c:53-58 | one divrem by 10^9 writes the next nine digits and drops them from the quotient |
| BigNum.TrimAndMove | bignum.c:61-66 | the leading zeros are skipped, '-' is prefixed for a negative value, and the numeral plus NUL is moved to the front |
| BigNum.SkipZeros | bignum.c:62-63 | the scan stops at the first digit of the shortest numeral, keeping a lone "0" |
| BigNum.CopyInto | bignum.c:57 | `memcpy`: the bytes from `at` on become the copied text, and every other byte is unchanged |
| BigNum.MoveToFront | bignum.c:66 | `memmove`: the bytes from `from` to the end move to the front, and the bytes past the moved block are unchanged |
| BigNum.Fill | bignum.c:70-72 | `memset`: the first `len` bytes become `c`, and the rest are unchanged |
| BigNum.MarkOverflow | bignum.c:67-73 | the bytes before the first group, or the first nine when there are none, become '.' |
| DecimalSpec.DecimalRoundTrip | bignum.c:56 | reading a numeral's digits gives the number back |
| DecimalSpec.DecimalLeading | bignum.c:62-63 | a numeral starts with '0' only when it is "0" |
| DecimalSpec.DecimalLength | bignum.c:52-60 | a numeral has at most w digits exactly when the number is below 10^w |
| DecimalSpec.PadDecimal | bignum.c:56 | below 10^w, the "%0wu" digits are zeros followed by the numeral |
| FibSpec.FibAdd | fibdrv.c:78-84 | F(m+n+1) = F(m+1) F(n+1) + F(m) F(n), the addition rule the doubling identities follow from |
| FibSpec.FibDouble | fibdrv.c:78-84 | F(2m) = F(m)(2F(m+1) - F(m)) and F(2m+1) = F(m+1)^2 + F(m)^2 |
| FibSpec.FibFitsInt64 | fibdrv.c:20-23 | F(n) < 2^63 for n <= 92 |
| FibSpec.FibOverflowsInt64 | fibdrv.c:20-23 | F(n) >= 2^63 for n >= 93 |
| FibSpec.FibFitsBigNum | fibdrv.c:24 | F(n) < 2^255 for n <= MAX_LENGTH = 368, so it is a non-negative bignum |
| FibSpec.FibFitsPattern | fibdrv.c:24 | F(369), which the fast loop also computes, is below 2^256 |
| FibSpec.FibOverflowsBigNum | fibdrv.c:24 | F(n) >= 2^255 for n >= 369 |
| FibSpec.FibSquareFits | fibdrv.c:82-83 | up to F(185), the doubles and squares the fast loop forms stay below 2^255 |
| Fibonacci.HighestBit | fibdrv.c:75 | 63 - clz(k) is the e with 2^e <= k < 2^(e+1) |
| Fibonacci.MaskStart | fibdrv.c:75 | the mask starts at the highest set bit, with no bits scanned yet |
| Fibonacci.MaskNext | fibdrv.c:75-87 | testing `k & mask` appends that bit to the scanned prefix, and `mask >>= 1` moves to the next bit |
| Fibonacci.MaskDone | fibdrv.c:75 | when the mask reaches 0, the scanned prefix is k |
| Fibonacci.DoublingIsFib | fibdrv.c:75-92 | after scanning prefix n <= 368 of k's bits, the pair is exactly (F(n), F(n+1)) |
| Fibonacci.EvenPass | fibdrv.c:77-86 | a pass for a clear bit takes (F(m), F(m+1)) to (F(2m), F(2m+1)) |
| Fibonacci.OddPass | fibdrv.c:77-91 | a pass for a set bit takes (F(m), F(m+1)) to (F(2m+1), F(2m+2)) |
| Fibonacci.DoublingRound | fibdrv.c:77-91 | the loop body moves the pair for prefix n/2 to the pair for prefix n |
| Fibonacci.DoublingLoop | fibdrv.c:75-93 | the loop leaves the first member of the pair for k |
| Fibonacci.DoublingIsFibMod | fibdrv.c:75-92 | for every prefix n whose passes all multiply operands with exact abs, the pair is (F(n), F(n+1)) modulo 2^256 |
| Fibonacci.ExactUpTo | fibdrv.c:75-92 | up to prefix 368 every operand the passes multiply is non-negative, so DoublingIsFibMod's hypothesis holds there |
| Fibonacci.ExactPass | fibdrv.c:78-83 | a pass over 0 <= a <= b with 2b < 2^255 multiplies only operands with exact abs |
| Fibonacci.NextMod | fibdrv.c:77-91 | a pass with exact products moves residues of (F(n/2), F(n/2+1)) to residues of (F(n), F(n+1)) |
| Fibonacci.PassMod | fibdrv.c:77-91 | with exact products, a clear bit takes residues of (F(m), F(m+1)) to residues of (F(2m), F(2m+1)), and a set bit to residues of (F(2m+1), F(2m+2)) |
| Fibonacci.EvenHalfMod | fibdrv.c:78-80 | t = (2b - a) a is (2y - x) x modulo 2^256 when a and b are x and y modulo 2^256 and both factors have exact abs |
| Fibonacci.OddHalfMod | fibdrv.c:82-84 | a^2 + b^2 is F(2m+1) modulo 2^256 when a and b are F(m) and F(m+1) modulo 2^256 |
| Fibonacci.SumNextMod | fibdrv.c:88 | adding residues of F(2m) and F(2m+1) gives a residue of F(2m+2) |
| Fibonacci.ProductMod | fibdrv.c:80-83 | with exact abs on both operands, `bignum_mul` multiplies residues modulo 2^256 |
| Fibonacci.TwiceMinusMod | fibdrv.c:78-79 | `shl1` then `sub` gives 2y - x modulo 2^256 from residues of x and y |
| Fibonacci.FibBignumFast | fibdrv.c:64-94 | k <= 1 gives k. For 2 <= k <= 368 the result is the bignum of F(k), exactly. For any k whose passes all multiply with exact abs, the result is F(k) modulo 2^256 |
| Fibonacci.FibBignumOrig | fibdrv.c:113-130 | k <= 1 gives k. Otherwise the result is F(k) mod 2^256, and exactly F(k) for k <= 368 |
| Fibonacci.WrappedDoubling | fibdrv.c:156-158 | wrapping doubling on residues of F(m) and F(m+1) yields residues of F(2m) and F(2m+1) |
| Fibonacci.WrappedNext | fibdrv.c:160-162 | a wrapping add of residues of F(i) and F(i+1) is a residue of F(i+2) |
| Fibonacci.WrappingRound | fibdrv.c:155-163 | the loop body keeps the pair congruent to (F(n), F(n+1)) modulo 2^64 |
| Fibonacci.FibLlFast | fibdrv.c:149-166 | k <= 1 gives k. Otherwise the result is F(k) wrapped to 64 bits, exactly F(k) for k <= 92 |
| Fibonacci.FibLlOrig | fibdrv.c:185-196 | k <= 1 gives k. Otherwise the result is F(k) wrapped to 64 bits, exactly F(k) for k <= 92 |
| Device.Target | fibdrv.c:267-278 | SEEK_SET targets the offset. SEEK_CUR targets pos + offset and SEEK_END targets MAX_LENGTH - offset, each congruent modulo 2^64 and exact when it fits 64 bits. Any other `orig` targets 0 |
| Device.Clamp | fibdrv.c:280-283 | the position lies in [0, MAX_LENGTH]: in-range targets are kept, larger ones go to MAX_LENGTH and negative ones to 0 |
| Device.SeekSet | fibdrv.c:269-271 | SEEK_SET goes to the offset, clamped |
| Device.SeekCur | fibdrv.c:272-274 | SEEK_CUR moves by the offset from the current position, clamped; offset 0 stays put |
| Device.SeekEnd | fibdrv.c:275-277 | SEEK_END goes to MAX_LENGTH - offset, clamped |
| Device.SeekOther | fibdrv.c:267-278 | an unknown `orig` goes to position 0 |
| Device.SeekRoundTrip | fibdrv.c:265-286 | every in-range position p is reached by SEEK_SET p and by SEEK_END (MAX_LENGTH - p) |
| Device.SeekWraps | fibdrv.c:273-276 | far seeks overflow 64 bits and land on 0 instead of MAX_LENGTH |
| Device.File.constructor | fibdrv.c:227-234 | a file opened on the device starts at position 0; `fib_open` takes the mutex and leaves the position to the kernel |
| Device.File.Lseek | fibdrv.c:265-286 | the returned and stored position is the clamped target, always in [0, MAX_LENGTH] |
| Device.WriteOutcome | fibdrv.c:257-262 | a write returns 1 or -1. One that returns -1 leaves the mode as it was; one that returns 1 selects the written word or FIBDRV_BIGNUM_FAST |
| Device.WriteKeepsMode | fibdrv.c:257-261 | no write leaves the mode outside the mode table |
| Device.WriteForgets | fibdrv.c:257-261 | unless the copy fails, the new mode does not depend on the old one. It is the written word exactly when a 4-byte write names a mode, or the word is the default mode |
| Device.WriteResult | fibdrv.c:257-262 | the write returns -1 exactly when a valid mode word fails to copy in, and 1 otherwise |
| Device.Driver.constructor | fibdrv.c:33 | the driver loads in FIBDRV_BIGNUM_FAST |
| Device.Driver.Write | fibdrv.c:252-263 | the new mode and the result follow the fib_write rule, and the mode stays a valid table index |

## Left out

- Module registration, the character-device and class setup, and `open`/`release` with the
  mutex are left out. They manage kernel objects, not values.
- The read path is left out: the dispatch table, the five read wrappers and their
  `size >= sizeof` checks, `copy_to_user`, and the `duration` timing through `ktime_get`.
  These are kernel I/O and the clock.
- `memset`, `memmove`, `snprintf("%09u")` and the `copy_*_user` calls are modelled by their
  effect on the values, not their implementations.
- NULL checks on the result pointers are left out, because Dafny values cannot be null.
- The in-place aliasing of the C calls (`bignum_sub(&t, &a, &t)` and the like) is modelled
  on values. Each routine either copies its operands first or reads each operand limb
  before it writes the same result limb, so aliasing does not change any result.
- Fibonacci.FibBignumFast: F(k) itself is claimed only for k <= 368 = MAX_LENGTH. Beyond
  that, F(k) modulo 2^256 is claimed only when every pass multiplies operands with exact
  abs (ExactAlong). `bignum_abs` loses the borrow out of limb 0 when an operand is negative
  with a zero low limb, and the model does not decide for which k > 368 an intermediate
  residue takes that form. Up to 368 the hypothesis always holds (ExactUpTo).
- Fibonacci.FibBignumFast: requires k < 2^31. The mask is a 32-bit `int` set to
  `1 << (63 - clz(k))`, which is undefined behaviour for k >= 2^31. `lseek` clamps the file
  position to MAX_LENGTH (fibdrv.c:280-284), but the read wrappers pass `*offset` on
  unchecked (fibdrv.c:104, 140, 175, 205). An index above MAX_LENGTH therefore arrives only
  from a read that brings its own offset and bypasses the clamp.
- Fibonacci.FibLlFast: requires k < 2^31, for the same reason.
- BigNum.DivRem: requires non-negative sign limbs. It has two callers. `bignum_div`
  (bignum.c:147) passes it abs results, which are never negative (AbsNonNegative).
  `bignum_to_dec` (bignum.c:50-55) passes 10^9 and, as the dividend, first an abs result
  and then each previous quotient, which is non-negative.
- BigNum.ToDec: requires ToDecFits. The one excluded input is a negative value whose digits
  fill every byte before the NUL, where the C writes '-' to `str[-1]`.
- BigNum.ToDec: does not state the bytes after the NUL. `memmove` leaves old digits there.
- BigNum.Shl1: requires lsb <= 1; every caller passes 0 or a single carried bit.
- Device.SeekCur: states the landing position only when the 64-bit sum does not overflow.
  SeekWraps shows one overflowing case.
- Device.SeekEnd: likewise, only when MAX_LENGTH - offset does not overflow.
- Device.Driver.Write: takes the first word of the user buffer as a value, and whether
  `copy_from_user` fails as a flag. The C cast-reads the user buffer directly and then
  copies it again, so a concurrent change between the two reads is not modelled. A copy
  that fails part-way is modelled as leaving the mode unchanged.

## Deviations and notes

- `bignum_abs` decrements limb 0 without propagating a borrow. For a negative value whose
  low limb is 0, the decrement is lost, so abs(-2^32) is 0 (AbsLosesBorrow and
  AbsOfMinus2To32). The error carries into `bignum_mul`, where mul(-2^32, 1) is 0
  (ProductLosesBorrow), and into `bignum_div` and `bignum_to_dec`. The model follows the
  code. `AbsOf` is the function it computes, and the value lemmas assume `AbsIsExact`.
- Division by zero is not detected. Every restoring step keeps the subtraction, so the
  magnitude quotient is all ones and the signed result is -1 or 1 (QuotientByZero). The
  model follows the code, not the expectation that such a division yields zero.
- `bignum_shr1` shifts the top limb as unsigned, so the shift is logical, not arithmetic.
- `fib_bignum_fast` and `fib_ll_fast` start the mask at the highest set bit of k, not at a
  fixed bit.
- Signed `long long` overflow is undefined in C. The model treats it as wrap-around
  (`Wrap64`), which is what the proofs of FibLlFast and FibLlOrig are about beyond k = 92.
- Several C loop bodies are separate methods in the model. Examples are WriteGroup,
  DoublingRound, WrappingRound, MulRow, MulRowsLoop and AddShifted. Each has its own
  contract, and its caller's loop invariant is stated in those terms.
