# Verification of the native core

This project models the native (C and C++) part of the repository and proves properties of the
model. `dafny verify dfyconfig.toml` checks everything.

| files | what they model |
|---|---|
| `Arithmetic.dfy`, `Bits.dfy` | powers, congruences, bitwise operations |
| `Vli.dfy`, `Comba.dfy`, `VliModular.dfy`, `Octets.dfy` | multi-word arithmetic of micro-ecc: arrays of w-bit words, least significant first, for every width w and every number of words |
| `Primes.dfy`, `FieldArith.dfy`, `CoZ.dfy` | arithmetic modulo the field prime, the co-Z point formulas and doublings, and what they make of operands without a line |
| `Group.dfy`, `Curves.dfy`, `SmallCurve.dfy` | what is assumed of the points, the formulas on points, and a curve that meets the assumptions |
| `Ecc.dfy`, `Ecdsa.dfy` | scalar regularisation, the Montgomery ladder, key agreement, signing and verifying |
| `ByteStrings.dfy`, `PtrBuffer.dfy`, `AutoBuffer.dfy` | octets and the two buffer classes |
| `LogCrypt.dfy`, `LogBuffer.dfy` | record headers, the block cipher, the persistent log buffer and its recovery |
| `PeriodLogs.dfy` | selecting the records of a file by hour |
| `Appender.dfy` | writers, flushing threads and the file |
| `Adler32.dfy` | the checksum with deferred reduction, and the combination of checksums |
| `MessageQueue.dfy`, `MutexVector.dfy` | the run loop with its messages, and the group lock |
| `Ini.dfy` | INI files |

Conventions. A number is an array of words with a value function (`Val`); the C operations' wrap-around
is written out as remainders. Points are elements of an abstract commutative group with coordinates
(`Curves.Curve`) for which the chord and tangent rule holds; the order n is an odd prime of `num_n_bits` bits
that annihilates every point. What the code computes with are coordinates; the point they belong to is a ghost
parameter. Threads'
critical sections are single steps. What the random number source, the clock and the compressor
return are parameters. The static counters of sequence numbers are fields.

Results where the code does less than one might expect:

- The co-Z formulas have no result for equal or opposite points, and the ladder meets opposite points for the
  scalars n - 2 and n - 1, and for 1 unless n = 2^num_n_bits - 1: `uECC_compute_public_key` fails for these private
  keys and signing for these nonces (`Ecc.ExceptionalScalars`, `Ecc.KeysWithoutPublicKey`, `Ecc.ComputePublicKey`,
  `Ecdsa.SignWithK`). For a point with x = 0 the ladder gives (0, 0) too (`Ecc.Ladder`), so `uECC_shared_secret`
  fails for such a public key; `Ecc.KeyAgreement` has the exact condition.
- Verification refuses a right signature if and only if an addition of Shamir's trick meets equal or opposite
  points (`Ecdsa.Verify`, and for Q = d G as a test on numbers `Ecdsa.AdditionsOfKey`); `Ecdsa.LostAddition` is such
  a signature.
- Signing neither reduces r modulo n nor refuses s = 0, so a signature meets the standard's condition if and only if
  x(k G) < n and s is not 0 (`Ecdsa.SignatureAccepted`); `SmallCurves.UnreducedR` and `SmallCurves.ZeroS` are
  signatures that do not.
- `adler32_combine` yields 65521 for a half that should be 0; `Adler32.CombineExact` says exactly when it
  is right and `Adler32.CombineFails` gives an input on which it is not.
- `INI::Set` takes a value one character longer than `INI::Parse` can read back; `Ini.RoundTrip` gives the exact
  condition and `Ini.AcceptedButCut` an input.
- The hours of a record with one of the two unencrypted magic numbers are not read, and such a record ends the
  scan by hour: what comes behind it is left out, or delivered whatever its hour. `PeriodLogs.SelectsPeriod` says
  exactly when the selection is right all the same, and `PeriodLogs.PlainRecordOverruns` and
  `PeriodLogs.PlainRecordHides` are files for which it is not.
- `uECC_vli_modInv` returns 1, not a number below mod, for mod = 1 (`VliModular.VliModInv`,
  `VliModular.InverseModuloOne`).

## Model

| member | source | states |
|---|---|---|
| Vli.VliIsZero | klog/src/main/jni/micro-ecc-master/uECC.c:217-224 | true exactly if the number in the words is 0 |
| Vli.VliTestBit | klog/src/main/jni/micro-ecc-master/uECC.c:227-229 | bit test on the words is bit test on the number |
| Vli.VliNumBits | klog/src/main/jni/micro-ecc-master/uECC.c:232-259 | the bit length: the number is below 2^bits and, unless 0, at least 2^(bits-1) |
| Vli.VliCmpUnsafe | klog/src/main/jni/micro-ecc-master/uECC.c:271-285 | the sign of left - right, from the top differing word |
| Vli.VliEqual | klog/src/main/jni/micro-ecc-master/uECC.c:287-296 | equal words if and only if equal numbers, by an OR over word differences |
| Vli.VliAdd | klog/src/main/jni/micro-ecc-master/uECC.c:330-344 | value plus carry times base^n is the exact sum, whichever buffers overlap; the carry test that compares the sum with one operand is right in every case, words beyond n stay |
| Vli.VliSub | klog/src/main/jni/micro-ecc-master/uECC.c:349-363 | value minus borrow times base^n is the exact difference, with overlap allowed |
| Vli.VliCmp | klog/src/main/jni/micro-ecc-master/uECC.c:304-312 | the sign of left - right, recovered from a full subtraction's borrow and zero test |
| Vli.VliRshift1 | klog/src/main/jni/micro-ecc-master/uECC.c:315-326 | in-place halving of the number, top word first |
| Vli.ValUnique | klog/src/main/jni/micro-ecc-master/uECC.c:287-296 | words are determined by the number they hold (partner of VliEqual) |
| Comba.MulAdd | klog/src/main/jni/micro-ecc-master/uECC.c:400-405 | the three-word accumulator modulo base^3 grows by a * b, including the carry into r2 |
| Comba.MulAddHalf | klog/src/main/jni/micro-ecc-master/uECC.c:375-398 | the half-word form, without a double-width type, has the same effect as the double-width form on every input |
| Comba.Mul2Add | klog/src/main/jni/micro-ecc-master/uECC.c:482-489 | the accumulator grows by 2 * a * b, including the bit the doubling shifts out |
| Comba.Mul2AddHalf | klog/src/main/jni/micro-ecc-master/uECC.c:451-480 | the half-word form of the doubled product has the same effect as the double-width form |
| Comba.ColumnsAreProduct | klog/src/main/jni/micro-ecc-master/uECC.c:411-442 | the column sums, weighted by powers of the base, add up to the product (grade-school multiplication) |
| Comba.ColumnFits | klog/src/main/jni/micro-ecc-master/uECC.c:411-442 | with at most base words no column, with its carry, overflows the three-word accumulator |
| Comba.VliMult | klog/src/main/jni/micro-ecc-master/uECC.c:411-442 | the 2n result words hold exactly the product of the operands |
| Comba.SquareIsColumn | klog/src/main/jni/micro-ecc-master/uECC.c:501-510 | the doubled cross terms and the middle term of a column of a square are that column of the product x * x |
| Comba.VliSquare | klog/src/main/jni/micro-ecc-master/uECC.c:493-518 | the 2n result words hold exactly the square, so squaring and multiplying by itself agree |
| VliModular.VliModAdd | klog/src/main/jni/micro-ecc-master/uECC.c:535-545 | congruent to the sum modulo mod for any left operand; equal to the reduced sum if left is below mod |
| VliModular.VliModSub | klog/src/main/jni/micro-ecc-master/uECC.c:549-560 | the difference modulo mod, also when it wraps |
| VliModular.VliMmod | klog/src/main/jni/micro-ecc-master/uECC.c:564-604 | product % mod for every 2n-word product and every modulus whose top word is not 0, through the two swapped buffers |
| VliModular.ReduceStep | klog/src/main/jni/micro-ecc-master/uECC.c:588-602 | one shift-and-subtract step: the live buffer stays congruent and below the modulus as shifted next |
| VliModular.VliModMult | klog/src/main/jni/micro-ecc-master/uECC.c:607-615 | (left * right) % mod, result may overlap an operand |
| VliModular.LostCarry | klog/src/main/jni/micro-ecc-master/uECC.c:718-721 | the carry lost when mod is added before a subtraction cancels against the borrow |
| VliModular.VliModInv | klog/src/main/jni/micro-ecc-master/uECC.c:691-734 | terminates; 0 for a zero input; else, for odd mod, result * input is congruent to the greatest common divisor g of input and mod, and the result is below mod, or 1 for mod = 1 |
| VliModular.InverseModuloOne | klog/src/main/jni/micro-ecc-master/uECC.c:691-734 | modulo 1 the result is 1 for every input but 0, which is not reduced |
| VliModular.EuclidSubtractB | klog/src/main/jni/micro-ecc-master/uECC.c:723-731 | subtract-and-halve keeps the multipliers' congruences and the common divisors |
| VliModular.EuclidEnd | klog/src/main/jni/micro-ecc-master/uECC.c:708-733 | when both numbers are equal they are the greatest common divisor |
| Octets.VliNativeToBytes | klog/src/main/jni/micro-ecc-master/uECC.c:954-962 | SEC 1, 2.3.7: the low num octets of the number, big endian |
| Octets.VliBytesToNative | klog/src/main/jni/micro-ecc-master/uECC.c:964-974 | SEC 1, 2.3.8: the words hold the big-endian number of the octets |
| Octets.OctetsThereAndBack | klog/src/main/jni/micro-ecc-master/uECC.c:954-974 | octets read into words and written back are the same octets, for any length |
| Octets.Bits2Int | klog/src/main/jni/micro-ecc-master/uECC.c:1194-1230 | for a hash of any length: the number of its leftmost num_n_bits bits, or of all of it if it has no more, less n exactly if the cut falls inside an octet and the number is n or more |
| Octets.HashIsLeftmostBits | klog/src/main/jni/micro-ecc-master/uECC.c:1194-1230 | SEC 1, 4.1.3, step 5, for every hash: congruent modulo n to the hash's number divided by 2^max(0, 8 length - num_n_bits), and which of the two numbers it is |
| Octets.OctetOfBigEndian | klog/src/main/jni/micro-ecc-master/uECC.c:964-974 | the number of an octet string has that many octets, and octet i of the string is the octet of the number with length - 1 - i octets below it |
| Primes.InverseMod | klog/src/main/jni/micro-ecc-master/uECC.c:689-734 | every non-zero residue of a prime has an inverse |
| Primes.ZeroFactor | klog/src/main/jni/micro-ecc-master/uECC.c:689-734 | a product is 0 modulo a prime only if a factor is |
| FieldArith.FieldInverse | klog/src/main/jni/micro-ecc-master/uECC.c:689-734 | 1 / z modulo the field prime, and 0 for 0 |
| CoZ.XYcZAdd | klog/src/main/jni/micro-ecc-master/uECC.c:784-813 | the formula's four results, as congruences: both operands' x and y times powers of the difference d = x2 - x1, and the third point of the line through them |
| CoZ.XYcZAddC | klog/src/main/jni/micro-ecc-master/uECC.c:815-855 | the same with the line to -Q as well |
| CoZ.ApplyZ | klog/src/main/jni/micro-ecc-master/uECC.c:747-758 | x times z^2 and y times z^3 |
| CoZ.DoubleDefault | klog/src/main/jni/micro-ecc-master/curve-specific.inc:50-95 | for z = 0 nothing changes; else half the slope h with 2h = 3 x^2 - 3 z^4 and the point of the tangent, at the scale y z |
| CoZ.DoubleSecp256k1 | klog/src/main/jni/micro-ecc-master/curve-specific.inc:1109-1146 | the same with the slope 3 x^2 |
| CoZ.SumAtScale | klog/src/main/jni/micro-ecc-master/uECC.c:784-787 | on coordinates of a common scale z the formula gives P and the affine chord sum P + Q, both at the scale z (X2 - X1) |
| CoZ.DifferenceAtScale | klog/src/main/jni/micro-ecc-master/uECC.c:815-818 | P - Q and P + Q by the affine chords, at that scale |
| CoZ.DoubleAtScale | klog/src/main/jni/micro-ecc-master/curve-specific.inc:50-95 | the doubling formulas give the affine tangent sum at the scale y z |
| CoZ.OppositeDifference | klog/src/main/jni/micro-ecc-master/uECC.c:819-855 | of opposite points the formula makes (0, 0) and a point with y^2 = x^3 |
| CoZ.CollapsedDifference | klog/src/main/jni/micro-ecc-master/uECC.c:819-855 | from such a pair, in either order, it makes (0, 0) twice |
| CoZ.CollapsedSum | klog/src/main/jni/micro-ecc-master/uECC.c:788-813 | a sum with (0, 0) stays such a pair |
| Curves.SumHolds | klog/src/main/jni/micro-ecc-master/uECC.c:784-787 | registers that hold separate points Q and R (neither infinite, not equal, not opposite) hold Q and Q + R after XYcZ_add, at a scale that is not 0 |
| Curves.DifferenceHolds | klog/src/main/jni/micro-ecc-master/uECC.c:815-818 | and Q - R and Q + R after XYcZ_addC |
| Curves.DoubleHolds | klog/src/main/jni/micro-ecc-master/curve-specific.inc:50-95 | a register that holds Q holds 2 Q after doubling |
| Curves.NotOnAxis | klog/src/main/jni/micro-ecc-master/uECC.c:740-741 | no point of odd order has y = 0, so only infinity has the coordinates (0, 0) |
| Curves.Unscaled | klog/src/main/jni/micro-ecc-master/uECC.c:747-758 | applying 1 / z gives the affine coordinates back |
| SmallCurves.SmallCurveIsValid | klog/src/main/jni/micro-ecc-master/uECC.c:139-158 | everything that is assumed of a curve and its points holds of y^2 = x^3 - 3x + 10 modulo 11 with its 7 points |
| Ecc.PointOrder | klog/src/main/jni/micro-ecc-master/uECC.c:915-932 | only multiples of n annihilate a point that is not infinite |
| Ecc.RegularisedScalar | klog/src/main/jni/micro-ecc-master/uECC.c:902-913 | for every k below 2^num_n_bits the selected scalar stands for k + n, or for k + 2n if k + n has no bit num_n_bits: that bit set, none above, congruent to k |
| Ecc.RegularizeK | klog/src/main/jni/micro-ecc-master/uECC.c:902-913 | the returned carry selects the buffer that holds that scalar, also when k is the first buffer |
| Ecc.ExceptionalScalars | klog/src/main/jni/micro-ecc-master/uECC.c:857-913 | for 0 < k < n the ladder on the regularised k avoids opposite points if and only if k is not n - 2, not n - 1, and not 1 when n + 1 < 2^num_n_bits |
| Ecc.XYcZInitialDouble | klog/src/main/jni/micro-ecc-master/uECC.c:760-782 | 2 P and P at a common scale for any initial Z; for the point (0, 0) a collapsed pair |
| Ecc.LadderStep | klog/src/main/jni/micro-ecc-master/uECC.c:876-880 | sums and differences of k P and (k+1) P in the group |
| Ecc.StepDown | klog/src/main/jni/micro-ecc-master/uECC.c:876-879 | XYcZ_addC in the ladder: from k P, (k+1) P to P or -P and (2k+1) P, or to a collapsed pair exactly if (2k+1) P is infinite |
| Ecc.StepUp | klog/src/main/jni/micro-ecc-master/uECC.c:880 | XYcZ_add then: to 2k P, (2k+1) P or (2k+1) P, (2k+2) P, or still collapsed |
| Ecc.FindScale | klog/src/main/jni/micro-ecc-master/uECC.c:886-893 | the quotient Xb yP / (xP Yb (X1 - X0)), or 0 for a zero denominator |
| Ecc.FoundScale | klog/src/main/jni/micro-ecc-master/uECC.c:886-893 | it is 1 / Z after the last XYcZ_add |
| Ecc.LadderEnd | klog/src/main/jni/micro-ecc-master/uECC.c:882-900 | the last step gives the affine coordinates of the multiple; (0, 0) if the ladder has collapsed or the point has x = 0 |
| Ecc.Ladder | klog/src/main/jni/micro-ecc-master/uECC.c:857-900 | for every point, every scalar and every initial Z: the multiple whose bits are the scalar's below num_bits - 1 with bit num_bits - 1 implicitly set, or (0, 0), exactly if a step meets opposite points or x is 0 |
| Ecc.EccPointMult | klog/src/main/jni/micro-ecc-master/uECC.c:857-900 | the same with the x-coordinate of the result as words |
| Ecc.RegularMultiple | klog/src/main/jni/micro-ecc-master/uECC.c:902-932 | the ladder on the regularised k delivers k Q, or infinity exactly if k is exceptional or x(Q) is 0 |
| Ecc.KeysWithoutPublicKey | klog/src/main/jni/micro-ecc-master/uECC.c:915-932 | the private keys n - 2 and n - 1, and 1 unless n = 2^num_n_bits - 1, have no public key |
| Ecc.ComputePublicKey | klog/src/main/jni/micro-ecc-master/uECC.c:1156-1188 | succeeds exactly for 0 < d < n other than these, and then gives d G |
| Ecc.SharedSecret | klog/src/main/jni/micro-ecc-master/uECC.c:1034-1077 | the octets of the x-coordinate of what the ladder reaches, and whether that is infinite; the random initial Z goes to the buffer that is not used and changes nothing |
| Ecc.AgreementPoint | klog/src/main/jni/micro-ecc-master/uECC.c:1034-1077 | SEC 1, 3.3.1: a (b G) = b (a G) |
| Ecc.KeyAgreement | klog/src/main/jni/micro-ecc-master/uECC.c:1034-1077 | both parties succeed exactly if neither private key is exceptional, neither public key has x = 0 and no random source fails; then they derive the same octets, whatever those sources give |
| Ecdsa.InvertNonce | klog/src/main/jni/micro-ecc-master/uECC.c:1272-1276 | multiplying by a blinding number before and after the inversion gives 1 / k |
| Ecdsa.SignatureScalar | klog/src/main/jni/micro-ecc-master/uECC.c:1282-1294 | s is below n and s k = e + r d modulo n, with an unreduced hash e |
| Ecdsa.SignWithK | klog/src/main/jni/micro-ecc-master/uECC.c:1232-1304 | when an attempt succeeds or fails, exceptional nonces included, and that r = x(k G) unreduced and s satisfy the signature equation and are what the octets say |
| Ecdsa.TableSum | klog/src/main/jni/micro-ecc-master/uECC.c:1513-1521 | G + Q in affine coordinates for separate G and Q |
| Ecdsa.AddedEntry | klog/src/main/jni/micro-ecc-master/uECC.c:1544-1550 | adding a table entry: the sum at the scale z (x2 - x1), or z = 0 for good exactly if entry and running point are not separate |
| Ecdsa.ShamirsTrick | klog/src/main/jni/micro-ecc-master/uECC.c:1513-1555 | one pass over the bits of both scalars gives u1 G + u2 Q in affine coordinates, or (0, 0), exactly if an addition meets equal or opposite points; the table is never read at its empty entry first |
| Ecdsa.Verify | klog/src/main/jni/micro-ecc-master/uECC.c:1454-1564 | accepts exactly the pairs r, s in 1 .. n-1 for which x((e/s) G + (r/s) Q), reduced once, is r (SEC 1, 4.1.4) and no addition of Shamir's trick is lost; for Q not separate from G this is stated if G + Q is not used |
| Ecdsa.Verdict | klog/src/main/jni/micro-ecc-master/uECC.c:1554-1563 | the comparison with r decides, since a lost addition leaves 0, which r is not |
| Ecdsa.AcceptsByInverse | klog/src/main/jni/micro-ecc-master/uECC.c:1506-1511 | the verdict does not depend on which inverse of s is used |
| Ecdsa.VerifierReachesNonce | klog/src/main/jni/micro-ecc-master/uECC.c:1506-1552 | with Q = d G the verifier's point is k G |
| Ecdsa.SignatureAccepted | klog/src/main/jni/micro-ecc-master/uECC.c:1454-1564 | a signature made with d meets the standard's condition for d G and the same hash if and only if x(k G) < n and s is not 0 |
| Ecdsa.AdditionsOfKey | klog/src/main/jni/micro-ecc-master/uECC.c:1537-1551 | for Q = d G whether an addition is lost is a test on numbers modulo n: d and the two multipliers |
| Ecdsa.LostAddition | klog/src/main/jni/micro-ecc-master/uECC.c:1537-1551 | private key 2, nonce 4 and a hash of 2 x(4 G): the signature is right and refused, because the last addition adds 2 G to 2 G |
| Ecdsa.SignThenVerify | klog/src/main/jni/micro-ecc-master/uECC.c:1156-1564 | key, signature and verification one after the other: accepted exactly if x(k G) < n, s is not 0 and no addition is lost, whenever signing succeeds |
| SmallCurves.UnreducedR | klog/src/main/jni/micro-ecc-master/uECC.c:1232-1304 | on a curve of order 7 a signature with a safe key and nonce whose r = 8 is refused |
| SmallCurves.ZeroS | klog/src/main/jni/micro-ecc-master/uECC.c:1289-1303 | and one with s = 0 |
| PtrBuffers.PtrBuffer.Attach | klog/src/main/jni/comm/ptrbuffer.cc:155-160 | attaching takes over memory, length and maximum |
| PtrBuffers.PtrBuffer.Seek | klog/src/main/jni/comm/ptrbuffer.cc:88-112 | the position clamped into 0 .. length |
| PtrBuffers.PtrBuffer.WriteAt | klog/src/main/jni/comm/ptrbuffer.cc:62-69 | as much as fits is written, the length grows to cover it, all memory outside stays, after every single store |
| PtrBuffers.PtrBuffer.Write | klog/src/main/jni/comm/ptrbuffer.cc:57-60 | the same at the current position, which moves behind what was written |
| PtrBuffers.PtrBuffer.SetLength | klog/src/main/jni/comm/ptrbuffer.cc:114-121 | length clamped to the maximum, position clamped to the length |
| AutoBuffers.RoundUp | klog/src/main/jni/comm/autobuffer.cc:296-299 | the smallest multiple of the unit that is large enough |
| AutoBuffers.AutoBuffer.FitSize | klog/src/main/jni/comm/autobuffer.cc:296-317 | growing keeps the contents, zeroes the new room and takes whole units |
| AutoBuffers.AutoBuffer.AllocWrite | klog/src/main/jni/comm/autobuffer.cc:66-71 | makes room and extends the length, keeping the contents |
| AutoBuffers.AutoBuffer.WriteAt | klog/src/main/jni/comm/autobuffer.cc:100-108 | contents overwritten from a position and extended if the data reaches further |
| AutoBuffers.AutoBuffer.Write | klog/src/main/jni/comm/autobuffer.cc:81-84 | at the end of the contents this appends |
| LogCrypts.TeaEncrypt | klog/src/main/jni/log/crypt/log_crypt.cc:45-55 | in place, through 16 rounds: round i adds to each word in turn a number whose every bit is the parity of that bit of (v << 4) + k, v + i * 0x9e3779b9 and (v >> 5) + k' on 32 bits, with key words 0, 1 and then 2, 3 |
| Bits.BitOfXor | klog/src/main/jni/log/crypt/log_crypt.cc:51-52 | bit i of an XOR is set exactly if one of the operands' bits i is |
| Bits.BitOfOr | klog/src/main/jni/micro-ecc-master/uECC.c:970-973 | bit i of an OR is set exactly if one of the operands' bits i is or both are |
| LogCrypts.MixIsParity | klog/src/main/jni/log/crypt/log_crypt.cc:51-52 | each of the 32 bits that a half round adds is the parity of that bit of its three terms |
| LogCrypts.TeaStatesUnique | klog/src/main/jni/log/crypt/log_crypt.cc:45-55 | this description leaves no choice: from one block under one key all states of all rounds are determined |
| LogCrypts.ZeroBlock | klog/src/main/jni/log/crypt/log_crypt.cc:50-51 | the zero block under the zero key becomes v0 = 0x9e3779b9 in the first half round |
| LogCrypts.EncryptIsTea | klog/src/main/jni/log/crypt/log_crypt.cc:434-438 | every whole block of the data, as two little-endian words, goes through these 16 rounds and is stored where it was |
| LogCrypts.EncryptTail | klog/src/main/jni/log/crypt/log_crypt.cc:440-441 | the octets behind the last whole block are stored as they are |
| LogCrypts.LengthField | klog/src/main/jni/log/crypt/log_crypt.cc:176-188 | the length of a header is the little-endian number in its octets 5 to 8 if it starts with 6, 7, 8 or 9, else 0 |
| LogCrypts.RoundsInverse | klog/src/main/jni/log/crypt/log_crypt.cc:45-55 | the rounds can be undone in reverse order, for any key and any number of rounds |
| LogCrypts.LogCrypt.CryptAsyncLog | klog/src/main/jni/log/crypt/log_crypt.cc:420-442 | for any output buffer: its start becomes the data's whole blocks encrypted and the last length % 8 octets as they are, their number returned; without a key a plain copy; what lies behind stays |
| LogCrypts.EncryptRoundTrip | klog/src/main/jni/log/crypt/log_crypt.cc:420-442 | decrypting block by block gives the data back |
| LogCrypts.EncryptAppend | klog/src/main/jni/log/crypt/log_crypt.cc:420-442 | encrypting the leftover tail again together with new data is encrypting everything at once |
| LogCrypts.LogCrypt.GetSeq | klog/src/main/jni/log/crypt/log_crypt.cc:57-73 | 0 for synchronous records, else the next 16-bit number without 0 |
| LogCrypts.LogCrypt.SetHeaderInfo | klog/src/main/jni/log/crypt/log_crypt.cc:204-236 | octet by octet: 7 or 9 for asynchronous records with and without key, 6 or 8 for synchronous ones, the sequence number, the hour twice, length 0, the public key; nothing else changes |
| LogCrypts.LogCrypt.UpdateLogHour | klog/src/main/jni/log/crypt/log_crypt.cc:165-174 | only the end hour octet changes |
| LogCrypts.LogCrypt.UpdateLogLen | klog/src/main/jni/log/crypt/log_crypt.cc:190-194 | only octets 5 to 8 change: the little-endian number there grows modulo 2^32, or starts at 0 without a magic number |
| LogCrypts.LogCrypt.Fix | klog/src/main/jni/log/crypt/log_crypt.cc:444-466 | whether there are 73 octets starting with 6, 7, 8 or 9, and then the length in octets 5 to 8, the sequence number and the kind |
| LogBuffers.LogBuffer.constructor | klog/src/main/jni/log/log_buffer.cc:25-39 | attaching any memory takes over the length that it announces, cut down to what it holds; a key implies compression |
| LogBuffers.LogBuffer.Reset | klog/src/main/jni/log/log_buffer.cc:150-169 | an empty record behind a header of the right kind, number, hour and key, or failure without one |
| LogBuffers.LogBuffer.Write | klog/src/main/jni/log/log_buffer.cc:103-148 | exactly when an append succeeds; the body is then the stored form of all data so far, remainder and length field agree with it, the header but for its length stays, or is new for the first data; and memory is recoverable after every single store on the way, of one octet or of the length field |
| LogBuffers.LogBuffer.BodyAppend | klog/src/main/jni/log/log_buffer.cc:133-145 | re-encrypting from the leftover octets on gives the stored form of the longer data |
| LogBuffers.LogBuffer.Flush | klog/src/main/jni/log/log_buffer.cc:54-79 | delivers the whole frame or the bare body, nothing for an empty record, and zeroes the record |
| LogBuffers.Delivered | klog/src/main/jni/log/log_buffer.cc:54-79 | what memory with a record delivers, octet by octet: nothing for an empty body, else the bare body, or header with the hour stamped into octet 4, body and a closing 0 |
| LogBuffers.NothingDelivered | klog/src/main/jni/log/log_buffer.cc:54-64 | memory without a magic number delivers nothing |
| LogBuffers.ClearedIs | klog/src/main/jni/log/log_buffer.cc:180-184 | a flush zeroes record and closing octet, or the header of an empty record, and nothing else |
| LogBuffers.LogBuffer.Clear | klog/src/main/jni/log/log_buffer.cc:180-184 | the record's octets are zero, the rest of memory stays |
| LogBuffers.LogBuffer.WriteAll | klog/src/main/jni/log/log_buffer.cc:103-148 | any sequence of fitting appends succeeds, and the body is the one-shot encryption of everything appended, the length field its length and the remainder its length % 8 |
| LogBuffers.SameHoweverCut | klog/src/main/jni/log/log_buffer.cc:54-148 | two buffers with one key, given the same octets in different pieces and flushed, deliver the same body |
| LogBuffers.ChunkingDoesNotMatter | klog/src/main/jni/log/log_buffer.cc:103-148 | buffers given the same octets in different pieces deliver the same body |
| LogBuffers.FlushedBodyDecrypts | klog/src/main/jni/log/log_buffer.cc:54-79 | decrypting a flushed body gives the concatenation of everything that was appended |
| LogBuffers.ReattachAndFlush | klog/src/main/jni/log/log_buffer.cc:187-196 | a new buffer on the memory of an old one flushes what the old one would have flushed |
| LogBuffers.FlushOutputHour | klog/src/main/jni/log/log_buffer.cc:171-177 | two flushes of one memory differ in the hour octet at most |
| LogBuffers.StillRecoverable | klog/src/main/jni/log/log_buffer.cc:187-196 | memory that differs from a non-empty record only behind `kept` still announces the old length and holds the old octets before it |
| LogBuffers.CrashDelivers | klog/src/main/jni/log/log_buffer.cc:187-196 | after a crash in an append the delivery is the whole new body, or one of the old length agreeing with the old body up to its last incomplete block (completely, if unencrypted) |
| PeriodLogs.GetPeriodLogs | klog/src/main/jni/log/crypt/log_crypt.cc:242-386 | terminates on any octets; a positive answer has begin < end <= file size; and the loop computes the scan function |
| PeriodLogs.RecordIs | klog/src/main/jni/log/crypt/log_crypt.cc:290-321 | a record stands where there is 6, 7, 8 or 9, room for 73 octets, for as many as octets 5 to 8 say and for one more, which is 0 |
| PeriodLogs.RunOverGap | klog/src/main/jni/log/crypt/log_crypt.cc:323-329 | the scan passes octet by octet over any stretch in which no record stands |
| PeriodLogs.ScanTakes | klog/src/main/jni/log/crypt/log_crypt.cc:283-367 | on a file of well-formed records with stretches before, between and behind them in which no record stands, the scan takes exactly these records, at their offsets, up to the first unencrypted one |
| PeriodLogs.StrayOctet | klog/src/main/jni/log/crypt/log_crypt.cc:323-329 | one stray octet in front of a record does not hide it |
| PeriodLogs.SelectsByMarks | klog/src/main/jni/log/crypt/log_crypt.cc:242-386 | what is selected from such a file with hours in any order: from the first record in or before which hour B is reached up to the last one from there for hour E, or to the end of the file |
| PeriodLogs.SelectsPeriod | klog/src/main/jni/log/crypt/log_crypt.cc:242-386 | on such a file with non-decreasing hours exactly the records with end hour >= B and begin hour < E are delivered, whole, and nothing of any other, if and only if the hours read before the first unencrypted record tell enough |
| PeriodLogs.SelectedByIndex | klog/src/main/jni/log/crypt/log_crypt.cc:242-386 | what is selected from such a file in every case: nothing if no hour read is B or later, the whole rest if none is E or later, else up to the first record that begins in E or later |
| PeriodLogs.SelectsEncrypted | klog/src/main/jni/log/crypt/log_crypt.cc:242-386 | if all records are encrypted, exactly the records of the period are selected |
| PeriodLogs.PlainRecordOverruns | klog/src/main/jni/log/crypt/log_crypt.cc:150-163 | an unencrypted record behind one of the period makes records outside the period be delivered |
| PeriodLogs.PlainRecordHides | klog/src/main/jni/log/crypt/log_crypt.cc:150-163 | an unencrypted record in front hides a record of the period |
| PeriodLogs.TakeNext | klog/src/main/jni/log/crypt/log_crypt.cc:330-366 | one record's hours keep what is known of begin, end and the last hour |
| PeriodLogs.FlushedIsWellFormed | klog/src/main/jni/log/log_buffer.cc:54-79 | what a buffer flushes as a frame is a well-formed record for the scanner, ending in the hour of the flush |
| Appenders.RunConserves | klog/src/main/jni/log/appender.cc:308-399 | in every interleaving of writers and flushing threads the accepted records are, as a multiset, those in the buffer, in flight and in the file |
| Appenders.ExactlyOnePlace | klog/src/main/jni/log/appender.cc:345-399 | a record accepted once is in the buffer, in one thread's hands or in the file, and only there |
| Appenders.RunKeepsOrder | klog/src/main/jni/log/appender.cc:345-399 | with one flushing thread file, in-flight chunk and buffer are the accepted records in order |
| Appenders.RunAccepts | klog/src/main/jni/log/appender.cc:345-399 | after any run the accepted records are those before it and then those that the writers' sections of the run handed over, in their order |
| Appenders.HandedOverAt | klog/src/main/jni/log/appender.cc:345-399 | the records handed over, read off the list of sections: each writing section adds its record behind those of the sections before, a flushing one adds none |
| Appenders.Appender.AppendAsync | klog/src/main/jni/log/appender.cc:378-399 | a writer's section puts the record's octets, or the warning text's from 122880 octets on, behind those in the buffer and the record behind those accepted, unless it is empty, and wakes the flushing thread exactly if it has written and the buffer holds 51200 |
| Appenders.Appender.TakeBuffer | klog/src/main/jni/log/appender.cc:345-356 | a flushing section takes all octets and records out of the buffer, and nothing is accepted or lost |
| Appenders.Appender.StoreTaken | klog/src/main/jni/log/appender.cc:308-323 | a file section puts the octets and records that the thread has taken behind those of the file and leaves it none |
| Appenders.Appender.WriteDirect | klog/src/main/jni/log/appender.cc:326-375 | a record's octets go straight behind those of the file, and the record counts as accepted |
| Appenders.Appender.OctetsInOrder | klog/src/main/jni/log/appender.cc:345-399 | with one flushing thread the octets of file, chunk and buffer are the accepted records |
| Adler32.DeferredModulo | klog/src/main/jni/comm/adler32.c:84-119 | reducing once at the end of a block gives what reducing at every octet gives (RFC 1950, section 9) |
| Adler32.SumsAreTotals | klog/src/main/jni/comm/adler32.c:84-119 | RFC 1950, section 8.2, in closed form: modulo 65521 the halves are a plus all octets, and b plus n times a plus every octet n - i times |
| Adler32.NoOverflow | klog/src/main/jni/comm/adler32.c:10-12 | within 5552 octets no sum exceeds 4294690200 < 2^32; within 15 the short path's bounds hold |
| Adler32.Chain16Modulo | klog/src/main/jni/comm/adler32.c:22-41 | the first twelve subtractions bring any 32-bit number below 32 * BASE without changing its remainder |
| Adler32.Chain4Modulo | klog/src/main/jni/comm/adler32.c:42-49 | the last five subtractions are the remainder for every number below 32 * BASE |
| Adler32.Mod | klog/src/main/jni/comm/adler32.c:20-53 | the remainder, by division or by subtractions |
| Adler32.Do16 | klog/src/main/jni/comm/adler32.c:14-18 | sixteen unrolled steps are sixteen unreduced octet steps, without overflow |
| Adler32.Update | klog/src/main/jni/comm/adler32.c:56-124 | for every length and every reduced start value, through all length paths, the two halves in closed form: a + sum of d[i] and b + n a + sum of (n - i) d[i], modulo 65521; 1 for a null buffer |
| Adler32.Combine | klog/src/main/jni/comm/adler32.c:127-148 | the combination's two halves put together |
| Adler32.CombinedRange | klog/src/main/jni/comm/adler32.c:127-148 | both halves are in 1 .. 65521 and have the remainders of the concatenation's halves |
| Adler32.SumsOfConcat | klog/src/main/jni/comm/adler32.c:127-148 | the checksum of a concatenation from the checksums of its parts |
| Adler32.CombineExact | klog/src/main/jni/comm/adler32.c:127-148 | the combination is the checksum of the concatenation if and only if neither of its halves is 0 |
| Adler32.CombineFails | klog/src/main/jni/comm/adler32.c:143-147 | a concrete input on which it is not, since the code compares with > BASE |
| MessageQueues.QueueMap.PostMessage | klog/src/main/jni/comm/messagequeue/message_queue.cc:306-323 | the message, its time counting from now if it is delayed, stands behind all others under a fresh id, the loop is notified and nothing else changes; the invariant holds |
| MessageQueues.QueueMap.SingletonMessage | klog/src/main/jni/comm/messagequeue/message_queue.cc:325-353 | an older message of handler and title is kept, or replaced under its id; if there was one at most, exactly one is pending then, under the returned id; the invariant holds |
| MessageQueues.QueueMap.FasterMessage | klog/src/main/jni/comm/messagequeue/message_queue.cc:398-426 | the message left has no longer to wait than the new one nor than the older one, whose id it has, and is the only one if there was one at most; the invariant holds |
| MessageQueues.QueueMap.BroadcastMessage | klog/src/main/jni/comm/messagequeue/message_queue.cc:355-375 | a message to handler 0 of the queue; the invariant holds |
| MessageQueues.QueueMap.CancelPost | klog/src/main/jni/comm/messagequeue/message_queue.cc:496-523 | removes the message with this id from its place in the list, or there is none |
| MessageQueues.QueueMap.CancelAll | klog/src/main/jni/comm/messagequeue/message_queue.cc:525-577 | keeps exactly the messages of other handlers, or of other titles if one is given, in order |
| MessageQueues.QueueMap.BreakRunloop | klog/src/main/jni/comm/messagequeue/message_queue.cc:250-264 | the flag is set and the loop notified; the invariant holds |
| MessageQueues.QueueMap.RunSection | klog/src/main/jni/comm/messagequeue/message_queue.cc:717-802 | stops and releases if told to by flag or breaker function; else dispatches exactly if some message is immediate or its delay, or period once started, has passed since it was recorded, namely the first such; else sleeps until exactly the moment the first one's has, ten minutes at most |
| MessageQueues.QueueMap.WakeUp | klog/src/main/jni/comm/messagequeue/message_queue.cc:785-788 | waking, for whatever reason, keeps the invariant |
| MessageQueues.ServeGood | klog/src/main/jni/comm/messagequeue/message_queue.cc:734-788 | serving keeps the invariant; an immediate message is not dispatched before an older one, a delayed or periodic one not before its delay or period is over |
| MessageQueues.ServeIs | klog/src/main/jni/comm/messagequeue/message_queue.cc:730-788 | the same of the section as a function of the queue: a one-shot message leaves the list and is done, a periodic one stays with its period counting from now, and a sleep ends with the first wait |
| MessageQueues.WaitTimeIs | klog/src/main/jni/comm/messagequeue/message_queue.cc:377-396 | what is left of the delay, or of the period once started, after the time spent; never negative, 0 for an immediate message |
| MessageQueues.FasterLeaves | klog/src/main/jni/comm/messagequeue/message_queue.cc:407-425 | keeping the older message if it has less to wait and replacing it otherwise leaves the sooner one |
| MessageQueues.KeptIs | klog/src/main/jni/comm/messagequeue/message_queue.cc:525-577 | a message is kept exactly if it is of another handler, or of another title if one is given |
| MessageQueues.OnePlace | klog/src/main/jni/comm/messagequeue/message_queue.cc:306-426 | pending ids are distinct, and every message is pending, dispatched once, or cancelled or replaced, never two of these |
| MessageQueues.NothingToDo | klog/src/main/jni/comm/messagequeue/message_queue.cc:250-426 | no missed wake-up: a loop asleep, not notified and before its deadline has not been told to stop, no message is immediate, and none's delay, or period once started, has passed |
| MessageQueues.PushGood | klog/src/main/jni/comm/messagequeue/message_queue.cc:306-426 | appending under an id no pending message has keeps ids distinct and every message in one place |
| MessageQueues.EraseGood | klog/src/main/jni/comm/messagequeue/message_queue.cc:496-577 | removing keeps the invariant and frees the id for reuse |
| MessageQueues.EraseAllKeeps | klog/src/main/jni/comm/messagequeue/message_queue.cc:525-577 | erasing while iterating removes exactly the matching messages |
| MutexVectors.ScopedMutexVector.Lock | klog/src/main/jni/comm/thread/mutexvector.h:49-75 | up to its first wait Lock gets in exactly if the lock is held for its vector or by nobody, counts itself, and notifies exactly if it changes the vector; else nothing changes |
| MutexVectors.ScopedMutexVector.UnLock | klog/src/main/jni/comm/thread/mutexvector.h:77-90 | one holder less, notifying exactly when the count drops to 0 |
| MutexVectors.ScopedMutexVector.TryLock | klog/src/main/jni/comm/thread/mutexvector.h:92-112 | gets in on the same condition and with the same effect as Lock, or gives up and changes nothing |
| MutexVectors.StepIs | klog/src/main/jni/comm/thread/mutexvector.h:49-112 | what each section does to lock and threads: who gets in, who waits, who goes away, and whether all who wait are notified; no other thread changes |
| MutexVectors.RunGood | klog/src/main/jni/comm/thread/mutexvector.h:49-112 | every run of any number of threads keeps the invariant: count, common vector, justified waits |
| MutexVectors.LeaveGood | klog/src/main/jni/comm/thread/mutexvector.h:77-90 | a leaving holder finds its own vector and a positive count, as the code asserts |
| MutexVectors.GroupExclusion | klog/src/main/jni/comm/thread/mutexvector.h:49-112 | in every reachable state all holders share one vector, the count is their number, and no thread whose turn has come waits unnotified |
| Ini.INI.Set | klog/src/main/jni/comm/ini.h:118-138 | when a value is taken, and that only this key changes |
| Ini.INI.Get | klog/src/main/jni/comm/ini.h:143-159 | the value or the default; a missing section is created without changing what is printed |
| Ini.INI.Create | klog/src/main/jni/comm/ini.h:82-95 | a new empty section, unless the name is bad or taken |
| Ini.INI.Parse | klog/src/main/jni/comm/ini.h:167-252 | reading line by line, with the line buffer's limit, computes the parse function |
| Ini.INI.Save | klog/src/main/jni/comm/ini.h:269-295 | the text is a print-out of the sections that have keys, in some order |
| Ini.ParseClean | klog/src/main/jni/comm/ini.h:167-252 | whatever the text, only verified names and values that fit are parsed |
| Ini.ParseLine | klog/src/main/jni/comm/ini.h:179-196 | a printed line of at most 4095 characters is parsed as one line even if its line break no longer fits in the buffer |
| Ini.ParseLongLine | klog/src/main/jni/comm/ini.h:179-187 | a line that does not fit in the buffer is parsed in pieces of 4095 characters |
| Ini.NameCharIs | klog/src/main/jni/comm/ini.h:34-58 | the characters of a name are letters, digits, '-', '_', '.' and the blank |
| Ini.NothingRead | klog/src/main/jni/comm/ini.h:190-229 | a comment changes nothing, nor does a line without '=' or before any section that starts no section |
| Ini.SectionRead | klog/src/main/jni/comm/ini.h:198-219 | a line starting with '[' makes the longest name behind it the current section, created if need be; with no name behind it no section is current |
| Ini.EntryRead | klog/src/main/jni/comm/ini.h:220-245 | in a section the part before the first '=' is the key and the part behind it the value, unless the key is no name |
| Ini.RoundTrip | klog/src/main/jni/comm/ini.h:167-295 | parsing a print-out gives back the non-empty sections if and only if names verify, values have no line break and key, '=' and value take at most 4095 characters |
| Ini.AcceptedButCut | klog/src/main/jni/comm/ini.h:131-136 | a value that Set takes and that parsing cuts short |
| Ini.SaveAndParse | klog/src/main/jni/comm/ini.h:167-295 | the same for the two operations run one after the other |
| Vli.VliClear | klog/src/main/jni/micro-ecc-master/uECC.c:207-213 | the words are 0, those beyond n stay |
| Vli.VliSet | klog/src/main/jni/micro-ecc-master/uECC.c:262-268 | dest holds the number that src held, also when they are the same array |
| Vli.VliNumDigits | klog/src/main/jni/micro-ecc-master/uECC.c:232-240 | the index above the highest non-zero word |
| Comba.HalfWordProduct | klog/src/main/jni/micro-ecc-master/uECC.c:375-392 | four half-word products put together are the exact two-word product |
| VliModular.VliModInvUpdate | klog/src/main/jni/micro-ecc-master/uECC.c:676-687 | half of the number modulo the odd mod, with the carry of the addition put back on top |
| VliModular.SubtractAndHalve | klog/src/main/jni/micro-ecc-master/uECC.c:718-722 | u - v modulo mod and then halved modulo mod |
| VliModular.EuclidStep | klog/src/main/jni/micro-ecc-master/uECC.c:709-732 | one round of the loop keeps the Euclid invariant and makes a + b smaller |
| VliModular.ShiftedModulus | klog/src/main/jni/micro-ecc-master/uECC.c:568-586 | the modulus shifted left until its top bit is the product's top bit |
| VliModular.HalveBoth | klog/src/main/jni/micro-ecc-master/uECC.c:599-601 | the 2n-word shifted modulus halved in place, half by half with the bit carried over |
| Octets.ShiftRightBits | klog/src/main/jni/micro-ecc-master/uECC.c:1216-1223 | all words shifted right by some bits: the number divided by a power of two |
| Comba.LowColumn | klog/src/main/jni/micro-ecc-master/uECC.c:421-427 | a column of the lower half added to the carry |
| Comba.HighColumn | klog/src/main/jni/micro-ecc-master/uECC.c:431-437 | a column of the upper half added to the carry |
| Comba.SquareColumn | klog/src/main/jni/micro-ecc-master/uECC.c:501-511 | a column of a square, from doubled terms and the middle one |
| VliModular.EuclidLoop | klog/src/main/jni/micro-ecc-master/uECC.c:708-732 | the loop ends with equal numbers and the invariant |
| Octets.StoreOctet | klog/src/main/jni/micro-ecc-master/uECC.c:970-973 | one octet into its word, those above in place and those below 0 |
| Ecc.RegularMult | klog/src/main/jni/micro-ecc-master/uECC.c:915-932 | regularisation into two buffers, then the ladder on the selected one, for every scalar |
| Ecc.EccPointComputePublicKey | klog/src/main/jni/micro-ecc-master/uECC.c:915-932 | the public key of a private key in range, unless the ladder fails |
| Ecc.LoadInitialZ | klog/src/main/jni/micro-ecc-master/uECC.c:1060-1067 | the initial Z is 1 or comes from the random source, and is in 1 .. p-1 |
| Ecdsa.NonceX | klog/src/main/jni/micro-ecc-master/uECC.c:1255-1261 | the x-coordinate of k G as words, 0 for an exceptional nonce |
| Ecdsa.StoreSignature | klog/src/main/jni/micro-ecc-master/uECC.c:1272-1303 | r and s into the signature, for a nonce and a point already checked |
| Ecdsa.ShamirAdd | klog/src/main/jni/micro-ecc-master/uECC.c:1544-1550 | one addition of the loop, on the running point and its z |
| Ecdsa.Normalised | klog/src/main/jni/micro-ecc-master/uECC.c:1554-1555 | the running point in affine coordinates, (0, 0) once z is 0 |
| Ecdsa.LoadBlinding | klog/src/main/jni/micro-ecc-master/uECC.c:1263-1270 | the blinding number is 1 or comes from the random source, and is in 1 .. n-1 |
| Ecdsa.FinishSignature | klog/src/main/jni/micro-ecc-master/uECC.c:1295-1303 | an s that needs more octets than the field is refused, else appended behind r |
| Ecdsa.ReadSignature | klog/src/main/jni/micro-ecc-master/uECC.c:1476-1504 | the two numbers of a signature and whether both are in 1 .. n-1 |
| Ecdsa.CombinedPoint | klog/src/main/jni/micro-ecc-master/uECC.c:1506-1552 | u1 = e/s and u2 = r/s by one inverse of s below n, and what Shamir's trick makes of them |
| Ecdsa.SameAfterOneReduction | klog/src/main/jni/micro-ecc-master/uECC.c:1557-1563 | x compared with r after n has been taken off at most once |
| LogCrypts.LogCrypt.EncryptBlocks | klog/src/main/jni/log/crypt/log_crypt.cc:434-438 | the first blocks of the output are the encrypted blocks of the input |
| LogBuffers.LogBuffer.Append | klog/src/main/jni/log/log_buffer.cc:112-147 | the body is the stored form of the longer data; memory stays recoverable throughout |
| LogBuffers.LogBuffer.Stage | klog/src/main/jni/log/log_buffer.cc:117-131 | new data behind the record, the length untouched if it comes from the compressor |
| LogCrypts.LogCrypt.EncryptAll | klog/src/main/jni/log/crypt/log_crypt.cc:430-441 | all of the data: whole blocks encrypted, the rest as it is, nothing behind touched |
| LogBuffers.LogBuffer.Deliver | klog/src/main/jni/log/log_buffer.cc:62-75 | the closed record, or its body, behind what the output holds |
| LogBuffers.LogBuffer.Reencrypt | klog/src/main/jni/log/log_buffer.cc:133-143 | leftover and new octets encrypted and written back |
| LogBuffers.LogBuffer.Rewrite | klog/src/main/jni/log/log_buffer.cc:133-145 | leftover and new octets encrypted and written back, length and length field brought up to date |
| LogBuffers.LogBuffer.Close | klog/src/main/jni/log/log_buffer.cc:171-178 | end hour and tailer, nothing else |
| PeriodLogs.PlainRecordEndsScan | klog/src/main/jni/log/crypt/log_crypt.cc:150-163 | whatever follows it, an unencrypted record at the start of a file ends the scan with nothing selected |
| Adler32.Mod4 | klog/src/main/jni/comm/adler32.c:42-52 | the remainder of a number with only a few BASEs in it |
| Adler32.OneOctet | klog/src/main/jni/comm/adler32.c:68-77 | the single-octet path |
| Adler32.FewOctets | klog/src/main/jni/comm/adler32.c:83-93 | the path below 16 octets, with one subtraction and the short chain |
| Adler32.ManyOctets | klog/src/main/jni/comm/adler32.c:95-123 | whole blocks, then the rest if there is one |
| Adler32.Block | klog/src/main/jni/comm/adler32.c:96-105 | one block of 5552 octets |
| Adler32.Remainder | klog/src/main/jni/comm/adler32.c:107-120 | fewer than 5552 octets, by sixteens and then singly |
| MessageQueues.QueueMap.CreateQueue | klog/src/main/jni/comm/messagequeue/message_queue.cc:619-636 | a new empty queue, unless there is one |
| MutexVectors.ScopedMutexVector.AfterWait | klog/src/main/jni/comm/thread/mutexvector.h:62-74 | what is done after every wake-up has the effect of the enter function too |
| Ini.INI.Select | klog/src/main/jni/comm/ini.h:97-111 | selects an existing section of a verified name |
| Ini.INI.ReadLine | klog/src/main/jni/comm/ini.h:184-187 | a line ends with its line break or when the buffer is full |
| Ini.INI.ParseOneLine | klog/src/main/jni/comm/ini.h:189-246 | one line's effect on the current section and the sections |

## Left out

- Point formulas: field elements are numbers below p here, on which the modular operations compute what `VliModAdd`, `VliModSub`, `VliModMult` and `VliModInv` are proved to compute on words; the fast reductions `mmod_fast` are taken to be exact. That the chord and tangent rule makes a group is assumed of the points.
- Curve constants, `mod_sqrt` and `x_side`: no point compression, no point validation and no decoding of public keys; a public key is the coordinates of a point of the curve.
- Ecdsa.Verify: for a public key G or -G, or (0, 0), it states nothing if the multipliers have a bit in common, so that the table entry G + Q, which the code cannot compute, is used; key generation gives -G and (0, 0) never, and G only for an order n = 2^num_n_bits - 1.
- Curves whose order takes another number of words than the field (secp160r1).
- Assembly variants, the one-octet-word and little-endian-copy variants of the octet conversions, and the widths of the word and bit counters (int8_t, int16_t).
- Random number generation, the retry loops around key generation and signing, and deterministic signing with its hash callbacks.
- Ecc.SharedSecret: for private keys of more than num_n_bits bits (possible when num_n_bits is not a multiple of 8) and for keys that are not in 1 .. n - 1 it states the multiple taken, `LadderScalar`, without relating it to the key.
- LogBuffers.LogBuffer.Write: requires that the new data and the tailer fit, as every caller arranges by size limits; what the compressor emits is any non-empty octet string, and its failures leave memory unchanged.
- LogBuffers.LogBuffer.Flush: for memory whose header announces more than fits before the tailer the code would write the tailer behind the region; no record written by a log buffer is such, and the buffer's operations require `Valid()`.
- AutoBuffers.AutoBuffer.FitSize: allocating memory does not fail.
- Crashes inside the four-octet store of the length field (taken as one store), inside the first write to an empty buffer, and inside a flush.
- Synchronous records (`CryptSyncLog`), key set-up from the server's public key, and time zones: the hour is a parameter.
- PeriodLogs.GetPeriodLogs: file input never fails, and `long` has 64 bits, so the position arithmetic does not wrap; the error messages are not modelled.
- PeriodLogs.SelectsPeriod: the hours in the records are 0 to 23, as the clock gives them; what the scan makes of other octets there is stated by `PeriodLogs.GetPeriodLogs` only as the same computation.
- Appenders.Appender.AppendAsync: the octet-level statement is for a buffer without key and compression and for flushing without frames; other modes are covered on records. Requires that the warning text fits.
- Closing the appender, failing file operations, file rotation, console output and recursion guards.
- Adler32.Update: a null buffer with length 1 is read by the code and is not modelled; the start value's halves are below 65521, as in every checksum.
- Adler32.Combine: the halves of both checksums are below 65521.
- MessageQueues: one clock reading per critical section; the counter of ids does not wrap; handler lists, duty functions, nested run loops, waiting for messages and the watchdog are not modelled, and cancelling a periodic message while it is being handled is taken as taking effect at once.
- MutexVectors: the mutex and the condition variable themselves; waiting is split into the section before it and the one after it.
- Ini: text with NUL characters and section names of 512 or more characters, for which the code's buffers are not made; files are text parameters; the order of sections and keys in the file is any order.
- The Kotlin and Java code, JNI glue, and all other native helpers, which would add no harder property.
