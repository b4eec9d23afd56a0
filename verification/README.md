# A verified model of the robot controller firmware

The firmware carries a big-number and RSA library, a UDP bootloader with its PC-side loader,
and several hand-written ring buffers and formatters. This project models their behaviour in
Dafny and proves what each of them is for. `dafny verify dfyconfig.toml` checks all of it.

## What is modelled

**Multi-precision arithmetic** (`Mul`, `Limbs`, `Bits`, `BigNum`, `Shifts`, `Division`,
`NumberTheory`, `BinaryGcd`, `InvMod`, `Montgomery`, `ExpMod`, `BinaryIO`, `Radix`, `Numerals`). An
`Mpi` is an object with a sign and a growing row of 32-bit limbs, changed in place, and passed by
reference so that operands may be the same object. Every operation is tied to one line of arithmetic
on its integer value. The hard parts are the carries that must not leave a buffer, the quotient
digit of Knuth's division with 31 (not 32) normalised bits, Newton lifting and the two subtractions
in Montgomery multiplication, the sliding window, and the binary extended Euclid.

**RSA** (`Primes`, `RsaMath`, `Rsa`, `Oaep`, `RsaOaep`, `Pkcs1`). Fermat's theorem and the Chinese
remainder step are proved from the ground up. For every key the check accepts whose factors are
prime, the CRT path is plain exponentiation, and the public and the private operation undo each
other on bytes. OAEP holds for any hash function; its decoding accepts exactly the encodings, and
decryption returns what was encrypted.

**The firmware update** (`Octets`, `Flash`, `Images`, `Bootloader`, `Device`, `Frames`, `Exchange`,
`Answers`, `Loader`, `Powerup`). `Device` is the bootloader with its statics and its flash;
`Bootloader.Step` says what one call of its main step does. `Frames` is about runs under arbitrary
bytes and timeouts: the invariant, progress, and that only complete frames with both check bytes
right ever reach the flash, and only a checked address leaves the bootloader. `Answers` says byte
for byte what each message is answered. `Exchange` and `Loader` put the host and a lossy network
around it: every message and every answer datagram may be lost, the device is polled under any
schedule, and while the host waits for a lost answer the device may give its command up. A load that
ends has the image in the flash, and ten losses cannot stop it; a word that is read is the word in
memory; a restore that follows a load leaves both right, and the restored power-up field is accepted
by the device exactly under a stated condition.

**Ring buffers** (`RingQue`, `Rtt`). Every run of the queue's operations is a run of a plain
first-in-first-out sequence, with the front allowed one past the end of the array. In the trace ring
a probe reads between any two byte copies of the firmware; what it has read and what lies in the
ring always make up what was published.

**MD5, HMAC and the integer formatter** (`Md5Rounds`, `Md5`, `Md5Answers`, `Format`). Incremental
code is proved equal to one-shot definitions. The streaming results hold for any compression
function; `Md5Rounds.Process` is the one of RFC 1321, which the program's four named registers
compute; two answers of its appendix are computed through.

## Where the code does not do what one would expect

Each of these has the exact condition as a lemma or in a contract.

- Adding a number to itself in place (`mpi_add_abs` with X, A and B one object) gives twice the
  number only if no limb is 2^31 or more: `BigNum.DoubledExact`.
- `mpi_div_mpi` takes the signs from the operands after it has written the quotient, so a quotient
  object that is also an operand may get another sign: `Division.QuotientRight`, and
  `Division.RemainderRight` for the remainder; -7 divided by 2 in place gives 3:
  `Division.DivideInPlace`.
- `mpi_mod_int` is right for every number only for a modulus of at most 2^16 or a divisor of
  2^32: `Radix.ModIntExact`.
- `mpi_exp_mod` with a negative base ignores the parity of the exponent, and returns N where the
  residue is 0: `ExpMod.NegativeBaseRight`, with inputs in `ExpMod.NegativeBaseMisses`.
- `mpi_gcd` returns 0 when B is 0 and A is not: `BinaryGcd.GcdResult`.
- `mpi_inv_mod` does not end for the modulus 1: every residue is then 0, and halving 0 never
  makes it odd: `InvMod.HalveModuloOne`.
- A negative number in radix 16 may need one place more than `mpi_write_string` asks for:
  `Numerals.TextFits`.
- A block padded by PKCS#1 v1.5 around an empty message is not accepted back: `Pkcs1.DecodeEncode`.
- The last chunk of an image whose length is no multiple of four is refused as data and its
  remaining bytes are read as commands; some tails, 01 FE for one, are even acknowledged:
  `Exchange.DataTakenAsData`, `Exchange.OddTailAcknowledged`, `Exchange.TailTakenForVersion`.
- `restorebootparam` leaves an unacceptable field when the old count matched and was 1 or above
  256, and fails for the count 0: `Powerup.RestoredVerified`.
- `ringque::empty` misses an empty queue in one position of front and back: `RingQue.RingQue.Empty`
  and, for a run that gets there, `RingQue.EmptyUnseen`. In the bootloader a timer that runs out then
  ends a waiting command: `Frames.DropsUnseen`.

## Model

| member | source | states |
|---|---|---|
| BigNum.Grow | src/polarSSL/library/bignum.c:91-117 | zero limbs are added on top up to the asked length, the value is kept, and a long enough number is left alone |
| BigNum.Copy | src/polarSSL/library/bignum.c:122-145 | sign and value of the source are taken over; only significant limbs are copied and the target never shrinks; copying onto itself changes nothing |
| BigNum.Lset | src/polarSSL/library/bignum.c:162-175 | the number becomes the given machine integer, sign included |
| Shifts.Lsb | src/polarSSL/library/bignum.c:218-228 | the number of trailing zero bits, 0 for zero |
| Shifts.Msb | src/polarSSL/library/bignum.c:233-246 | the bit length of the magnitude |
| Shifts.ShiftL | src/polarSSL/library/bignum.c:560-605 | the magnitude is multiplied by the power of two; no carry is lost and the length grows exactly as far as the result needs |
| Shifts.ShiftR | src/polarSSL/library/bignum.c:610-648 | the magnitude is divided by the power of two, rounding down, also when everything is shifted out |
| BigNum.CmpAbs | src/polarSSL/library/bignum.c:653-678 | the sign of the difference of the magnitudes, whatever leading zero limbs the operands carry |
| BigNum.CmpMpi | src/polarSSL/library/bignum.c:683-711 | the sign of the difference of the numbers; the two zeros are equal |
| BigNum.CmpInt | src/polarSSL/library/bignum.c:716-727 | the sign of the difference to a machine integer |
| BigNum.AddAbs | src/polarSSL/library/bignum.c:732-779 | the sum of the magnitudes for every aliasing but X, A and B all one number; in that case the limbs are what the carry test on the already changed limb makes of them |
| BigNum.DoubledExact | src/polarSSL/library/bignum.c:762-762 | adding a number to itself in place gives twice the number exactly when no limb is 2^31 or more |
| BigNum.SubHlp | src/polarSSL/library/bignum.c:784-800 | the limb range is reduced by the subtrahend and the borrow is absorbed further up, without leaving the buffer when the minuend is the larger |
| BigNum.SubAbs | src/polarSSL/library/bignum.c:805-843 | the difference of the magnitudes, or the negative-value error exactly when the first is the smaller, for every aliasing |
| BigNum.AddMpi | src/polarSSL/library/bignum.c:848-874 | the signed sum; with X, A and B one number its sign and what mpi_add_abs makes of its limbs |
| BigNum.SubMpi | src/polarSSL/library/bignum.c:879-905 | the signed difference, for every aliasing |
| BigNum.AddInt | src/polarSSL/library/bignum.c:910-921 | the signed sum with a machine integer |
| BigNum.SubInt | src/polarSSL/library/bignum.c:926-937 | the signed difference to a machine integer |
| BigNum.MulHlp | src/polarSSL/library/bignum.c:942-1001 | the range at an offset grows by the factor times the row, and the ripple carry stops inside the buffer because the final product fits |
| BigNum.MulRows | src/polarSSL/library/bignum.c:1028-1029 | rows added from the high limb of B down leave, after the last, the whole product; no row carries past the i+j limbs |
| BigNum.MulMpi | src/polarSSL/library/bignum.c:1006-1038 | the signed product, also when X is A, B or both |
| BigNum.MulInt | src/polarSSL/library/bignum.c:1043-1054 | the signed product with one limb, the factor taken modulo 2^32 |
| Division.EstimateNotBelow | src/polarSSL/library/bignum.c:1109-1122 | the quotient of the two top limbs by the divisor's top limb, capped at a limb, is never below the true digit |
| Division.TestExact | src/polarSSL/library/bignum.c:1166-1181 | with 31 bits in the divisor's top limb the three-by-two test lets through no digit below the true one and none more than one above it |
| Division.Refine | src/polarSSL/library/bignum.c:1166-1181 | the decrementing loop stops at the true digit or one above it |
| Division.DivideDigit | src/polarSSL/library/bignum.c:1107-1194 | one round replaces remainder and quotient digit by those of one more digit of the exact division, with at most one add-back |
| Division.DivideDigits | src/polarSSL/library/bignum.c:1107-1194 | after the last round the remainder is below the divisor and the quotient exact |
| Division.Normalize | src/polarSSL/library/bignum.c:1078-1094 | both operands are shifted by the same amount, which leaves exactly 31 bits in the divisor's top limb |
| Division.DivMpi | src/polarSSL/library/bignum.c:1059-1218 | quotient and remainder for every divisor but 0 and every choice of the four objects, the sign rule of the overwritten operands included; a zero divisor is refused with nothing changed |
| Division.QuotientRight | src/polarSSL/library/bignum.c:1198-1199 | the quotient is the truncating one if and only if it is 0, Q is both operands, or the operand that Q overwrites was positive |
| Division.RemainderRight | src/polarSSL/library/bignum.c:1202-1206 | the remainder has the value and sign of the dividend's if and only if Q is not the dividend, the remainder is 0, or a long division had operands of one sign |
| Division.DivideInPlace | src/polarSSL/library/bignum.c:1196-1209 | -7 divided by 2 into its own object gives 3 and 1 |
| Division.DivInt | src/polarSSL/library/bignum.c:1223-1234 | the same by a machine integer of either sign, for every choice of the three objects |
| Division.ModMpi | src/polarSSL/library/bignum.c:1239-1257 | the residue in [0, B) for every A, or the error for a negative or zero modulus |
| Radix.ModInt | src/polarSSL/library/bignum.c:1262-1314 | the residue, of negative numbers too, for every modulus of at most 2^16 or a divisor of 2^32; otherwise the half-limb loop's value turned around for negative numbers; and the two errors |
| Radix.HalfLimbIsMod | src/polarSSL/library/bignum.c:1291-1302 | for a modulus of at most 16 bits or a divisor of 2^32 the loop leaves the remainder of every number |
| Radix.ModIntExact | src/polarSSL/library/bignum.c:1291-1302 | the loop is right for every number if and only if the modulus is at most 2^16 or divides 2^32 |
| Numerals.ReadString | src/polarSSL/library/bignum.c:276-340 | the text is accepted exactly when it is digits of the radix with an optional leading minus, and then denotes the number; both digit loops |
| Numerals.DigitsAre | src/polarSSL/library/bignum.c:257-270 | the digits are 0 to 9 and A to F when written, and either case of the letters when read |
| Numerals.NoOtherDigits | src/polarSSL/library/bignum.c:257-270 | no other character is a digit |
| Numerals.ReadByMultiplying | src/polarSSL/library/bignum.c:309-333 | digits appended by multiplication give the number, with the sign kept through leading zeros |
| Numerals.ReadByShifting | src/polarSSL/library/bignum.c:290-308 | digits put in place from the last one give the same number |
| Numerals.WriteHlp | src/polarSSL/library/bignum.c:345-367 | the recursion prints the digits of X, high order first, and uses X up |
| Numerals.WriteString | src/polarSSL/library/bignum.c:372-437 | the text reads back as the number for every radix and sign; too small a buffer is refused with the size asked for |
| Numerals.NeededIs | src/polarSSL/library/bignum.c:382-387 | the size asked for is the bit length, half of it or a quarter, by the radix, and three places more |
| Numerals.NumeralDenotes | src/polarSSL/library/bignum.c:345-367 | the printed digits are digits of the radix, start with no minus, and denote the number |
| Numerals.TextFits | src/polarSSL/library/bignum.c:382-393 | sign, digits and end mark fit the computed size in every radix, except for a negative number in radix 16 whose bit length is 1 to 3 above a whole byte |
| Montgomery.FourBitsRight | src/polarSSL/library/bignum.c:1323-1324 | the start value inverts every odd limb modulo 16 |
| Montgomery.NewtonDoubles | src/polarSSL/library/bignum.c:1325-1329 | each Newton step squares the modulus up to which the inverse is right |
| Montgomery.MontgInit | src/polarSSL/library/bignum.c:1319-1332 | mm * N[0] = -1 modulo 2^32 for every odd N |
| Montgomery.StepRoom | src/polarSSL/library/bignum.c:1353-1359 | in each round the accumulator plus both products stays below N plus B limbs higher, so no carry leaves the window |
| Montgomery.MontMul | src/polarSSL/library/bignum.c:1337-1369 | A becomes A*B/R modulo N and below N, for A below R and B at most N; neither the real nor the dummy subtraction borrows past its buffer |
| Montgomery.MontRed | src/polarSSL/library/bignum.c:1374-1383 | A becomes A/R modulo N and below N |
| ExpMod.SquareOfR | src/polarSSL/library/bignum.c:1437-1450 | R^2 mod N, computed once and then taken from the cache |
| ExpMod.FillTable | src/polarSSL/library/bignum.c:1480-1489 | every entry of the upper half of the window table holds its own power of the base in Montgomery form |
| ExpMod.ConsumeBit | src/polarSSL/library/bignum.c:1510-1551 | one exponent bit keeps the split of the consumed prefix into an applied part and a pending window, and only filled entries are used |
| ExpMod.ExpTail | src/polarSSL/library/bignum.c:1554-1565 | the bits still pending at the end are applied one by one |
| ExpMod.ExpMpi | src/polarSSL/library/bignum.c:1388-1589 | A^E mod N for A >= 0, E >= 0 and odd N > 0, also with X being A and with a cached R^2; bad moduli and exponents are refused with nothing changed |
| ExpMod.NegativeBaseRight | src/polarSSL/library/bignum.c:1572-1576 | for a negative base the result is the residue of A^E if and only if E is odd and N does not divide |A|^E |
| ExpMod.NegativeBasePrime | src/polarSSL/library/bignum.c:1572-1576 | for a prime N: if and only if E is odd and N does not divide A |
| ExpMod.NegativeBaseCoprime | src/polarSSL/library/bignum.c:1572-1576 | for A and N coprime and N above 1: if and only if E is odd |
| ExpMod.NegativeBaseMisses | src/polarSSL/library/bignum.c:1572-1576 | (-3)^1 modulo 3 comes out as 3, and (-2)^2 modulo 5 as 1 |
| ExpMod.NegativeBaseCongruent | src/polarSSL/library/bignum.c:1572-1576 | the result is congruent to A^E modulo N exactly when E is odd or N divides the power |
| BinaryGcd.GcdStrip | src/polarSSL/library/bignum.c:1618-1619 | taking out factors of two from one operand keeps the odd gcd |
| BinaryGcd.GcdSubtract | src/polarSSL/library/bignum.c:1621-1630 | the difference of two odd numbers, halved, keeps the odd gcd |
| BinaryGcd.GcdMpi | src/polarSSL/library/bignum.c:1594-1641 | the result for all A and B; the loop terminates because the sum falls |
| BinaryGcd.GcdResult | src/polarSSL/library/bignum.c:1605-1634 | that result is the greatest common divisor if and only if B is not 0 or A is 0 |
| InvMod.HalveStep | src/polarSSL/library/bignum.c:1697-1704 | making both coefficients even before halving keeps the Bezout identity, and the halving is exact |
| InvMod.BezoutSubtract | src/polarSSL/library/bignum.c:1721-1732 | subtracting the rows keeps both Bezout identities |
| InvMod.InvMpi | src/polarSSL/library/bignum.c:1661-1751 | for N other than 1 the inverse in [1, N) exactly when A and N are coprime, the not-acceptable error otherwise, bad input for N <= 0 |
| InvMod.HalveModuloOne | src/polarSSL/library/bignum.c:1668-1704 | with N = 1 and any A the gcd is accepted, TU is 0, and after any number of passes of the first halving loop its low bit is still clear, so the loop never ends |
| BinaryIO.ReadBinary | src/polarSSL/library/bignum.c:517-535 | the number the big-endian bytes denote, leading zeros dropped |
| BinaryIO.BytesWeigh | src/polarSSL/library/bignum.c:517-535 | each further byte multiplies by 256 and adds, so the first weighs most |
| BinaryIO.WriteBinary | src/polarSSL/library/bignum.c:540-555 | big-endian bytes of exactly the asked length that denote the number, or the error exactly when it does not fit |
| BinaryIO.BEInjective | src/polarSSL/library/bignum.c:517-555 | byte strings of one length denote different numbers when they differ, so reading undoes writing |
| Primes.Fermat | src/polarSSL/library/rsa.c:284-305 | a^(p-1) = 1 modulo a prime p that does not divide a |
| Primes.ExponentReduces | src/polarSSL/library/rsa.c:284-291 | exponents that differ by a multiple of p-1 give the same residue modulo a prime p, for every base |
| RsaMath.GarnerRight | src/polarSSL/library/rsa.c:293-304 | the recombination is congruent to both half results and lies in [0, P*Q) |
| RsaMath.CrtIsPower | src/polarSSL/library/rsa.c:263-318 | for key numbers in the checked relations with prime factors the CRT value is x^D mod N |
| RsaMath.PublicUndoesPrivate | src/polarSSL/library/rsa.c:228-318 | raising x^D to E gives x back modulo N |
| RsaMath.PrivateUndoesPublic | src/polarSSL/library/rsa.c:228-318 | raising x^E to D gives x back modulo N |
| Rsa.CheckPubkey | src/polarSSL/library/rsa.c:143-161 | the size and parity conditions on N and E |
| Rsa.PubkeyRange | src/polarSSL/library/rsa.c:143-161 | in numbers: N odd from 2^127 to below 2^4096 and E odd from 2 to below 2^64 |
| Rsa.LambdaExact | src/polarSSL/library/rsa.c:189-191 | (P-1)(Q-1) is a multiple of gcd(P-1, Q-1), so the second half of the division test never fails |
| Rsa.CheckPrivkey | src/polarSSL/library/rsa.c:166-223 | accepts exactly the keys with N = PQ, D reduced to DP and DQ, QP the inverse of Q, E coprime to (P-1)(Q-1) and DE = 1 modulo their least common multiple |
| Rsa.Public | src/polarSSL/library/rsa.c:228-258 | input^E mod N as bytes of the same length; refused exactly for inputs not below N |
| Rsa.PrivatePlain | src/polarSSL/library/rsa.c:281-282 | input^D mod N without the CRT |
| Rsa.Recombine | src/polarSSL/library/rsa.c:293-304 | T becomes T2 + ((T1 - T2) * QP mod P) * Q |
| Rsa.Private | src/polarSSL/library/rsa.c:263-318 | the CRT value of the input as bytes, refused exactly for inputs not below N, with the caches kept right |
| Rsa.PrivateIsPower | src/polarSSL/library/rsa.c:281-305 | with an accepted key of prime factors the CRT path and the plain path compute the same number |
| Rsa.PrivateNeverFails | src/polarSSL/library/rsa.c:290-308 | with such a key and a full-length context no step of the CRT path fails for any input below N |
| Rsa.PrivateThenPublic | src/polarSSL/library/rsa.c:228-318 | signing and then verifying returns the input bytes |
| Rsa.PublicThenPrivate | src/polarSSL/library/rsa.c:228-318 | encrypting and then decrypting returns the input bytes |
| Oaep.MgfMask | src/polarSSL/library/rsa.c:330-366 | exactly the target range is XORed with the mask made from the source range |
| Oaep.MaskIsMgf1 | src/polarSSL/library/rsa.c:342-365 | up to 256 hash blocks the mask is MGF1 of RFC 8017, appendix B.2.1, although only one counter byte counts |
| Oaep.Pad | src/polarSSL/library/rsa.c:397-432 | the output is the OAEP encoding of label, seed and message, or untouched with an error exactly when the message is too long |
| Oaep.EncodeAsStandard | src/polarSSL/library/rsa.c:397-432 | the encoding is EM of RFC 8017, section 7.1.1: 00, the seed XORed with the mask of the masked data, and label hash, zeros, 01 and message XORed with the mask of the seed |
| Oaep.Unpad | src/polarSSL/library/rsa.c:566-618 | the message of the block, an error exactly for blocks that are no encoding, and the too-large error only beyond the caller's limit |
| Oaep.FeistelInverse | src/polarSSL/library/rsa.c:424-432 | taking the two masks off in the opposite order gives seed and data back |
| Oaep.DecodeEncode | src/polarSSL/library/rsa.c:373-619 | decoding gives back every encoded message, for every hash, label, seed and length up to olen - 2 hlen - 2 |
| Oaep.DecodeOnlyEncodings | src/polarSSL/library/rsa.c:566-618 | a block that decodes is the encoding of the message it decodes to, so nothing else is accepted |
| RsaOaep.PaddedBelowModulus | src/polarSSL/library/rsa.c:403-405 | a block with a leading zero byte is below a modulus of full byte length |
| RsaOaep.Encrypt | src/polarSSL/library/rsa.c:373-439 | the public operation applied to the encoded block; refused by the padding exactly when the message is too long, and with a full-length modulus done exactly when N is odd and E not negative; the cache stays right |
| RsaOaep.Decrypt | src/polarSSL/library/rsa.c:534-619 | the private operation, done exactly when its input is below N and the CRT parts are usable, then the decoding of what it gave with each of its errors |
| RsaOaep.DecryptUndoesEncrypt | src/polarSSL/library/rsa.c:373-619 | decryption returns the encrypted message, for every accepted key with prime factors |
| RsaOaep.RoundTrip | src/polarSSL/library/rsa.c:373-619 | encryption followed by decryption: neither fails and the message comes back, for every accepted key of full length with prime factors, every hash, label and seed, and every message that fits |
| Pkcs1.Pad | src/polarSSL/library/rsa.c:459-496 | the block is type, padding of the type's kind, a zero and the message |
| Pkcs1.BlockAsStandard | src/polarSSL/library/rsa.c:461-496 | the block is 00, 02 to encrypt or 01 to sign, the padding, 00 and the message |
| Pkcs1.AcceptedType | src/polarSSL/library/rsa.c:652-690 | what is accepted starts with 00 and 02 for the private operation, 01 for the public one |
| Pkcs1.Unpad | src/polarSSL/library/rsa.c:640-712 | the message, or the padding error exactly when the block is no encoding of a message that is not empty |
| Pkcs1.DecodeEncode | src/polarSSL/library/rsa.c:445-713 | an encoded message comes back if and only if it is not empty |
| Pkcs1.DecodeOnlyEncodings | src/polarSSL/library/rsa.c:652-704 | whatever is accepted is the encoding of a message that is not empty |
| Md5Rounds.MixingFunctions | src/polarSSL/library/md5.c:111-174 | the four mixing functions as written are those of RFC 1321, section 3.4 |
| Md5Rounds.Picked | src/polarSSL/library/md5.c:113-190 | the message words written out operation by operation follow the rule of each round |
| Md5Rounds.ProcessBlock | src/polarSSL/library/md5.c:78-199 | the program with four named registers in changing parts computes the compression of RFC 1321, where the registers move on |
| Md5Answers.RotateIs | src/polarSSL/library/md5.c:99-99 | the rotation by n places gives x 2^n modulo 2^32 plus x / 2^(32-n) |
| Md5Answers.EmptyAnswer | src/polarSSL/library/md5.c:78-279 | the empty message has the hash of RFC 1321, appendix A.5 |
| Md5Answers.AbcAnswer | src/polarSSL/library/md5.c:78-279 | abc has the hash of RFC 1321, appendix A.5 |
| Md5.Context.Update | src/polarSSL/library/md5.c:204-243 | the context stands for the old message followed by the input, of any length, in state, buffer and both count words |
| Md5.CountOn | src/polarSSL/library/md5.c:215-219 | the two count words hold the byte count modulo 2^64 across every carry |
| Md5.LengthWords | src/polarSSL/library/md5.c:262-264 | the two shifted words are the bit count modulo 2^64 |
| Md5.PaddedWhole | src/polarSSL/library/md5.c:269-270 | the padding brings the length to 56 modulo 64 and message, padding and length to whole blocks |
| Md5.Context.Finish | src/polarSSL/library/md5.c:256-279 | the output is the compression folded over the message padded as in sections 3.1 and 3.2 of RFC 1321 |
| Md5.Digest | src/polarSSL/library/md5.c:284-293 | the hash of a whole buffer |
| Md5.DigestParts | src/polarSSL/library/md5.c:204-279 | however a message is cut into parts, empty ones included, its hash is that of the whole |
| Md5.Context.HmacStarts | src/polarSSL/library/md5.c:332-357 | both pads belong to the key, hashed first if longer than a block, and the inner hash has taken in the inner pad |
| Md5.Context.HmacUpdate | src/polarSSL/library/md5.c:362-365 | the text so far grows by the input |
| Md5.Context.HmacFinish | src/polarSSL/library/md5.c:370-381 | the code of section 2 of RFC 2104 for the key and the text |
| Md5.Context.HmacReset | src/polarSSL/library/md5.c:386-390 | the same key with an empty text |
| Md5.HmacAsStandard | src/polarSSL/library/md5.c:332-381 | the code is H(K XOR opad, H(K XOR ipad, text)) with ipad 36 and opad 5C all over, and a key above 64 bytes hashed first |
| Md5.HmacDigest | src/polarSSL/library/md5.c:395-406 | the code of RFC 2104 for every key and text length |
| Md5.Md5 | src/polarSSL/library/md5.c:284-293 | MD5 of a whole buffer: padding and folding as in RFC 1321 over its own compression |
| Md5.HmacMd5 | src/polarSSL/library/md5.c:395-406 | HMAC-MD5 of a whole buffer for every key length |
| Flash.SectorHolds | iapTool/iapToolTest/f4kerneltest/stmflash.c:48-67 | an address in the flash lies within the bounds of exactly the sector computed for it |
| Flash.SectorSizes | iapTool/iapToolTest/f4kerneltest/stmflash.c:48-67 | four sectors of 16 KiB, one of 64 KiB and seven of 128 KiB |
| Flash.Controller.EraseSectorOnce | iapTool/iapToolTest/f4kerneltest/stmflash.c:106-121 | the sector becomes blank and marked unless it was marked; nothing else changes |
| Flash.Controller.ProgramWord | src/HAL/stmflash.c:124-133 | four cells lose the bits the word has not, or nothing happens outside the flash |
| Flash.Controller.WriteBytes | src/HAL/stmflash.c:93-140 | the requests that are refused, the sector erased, the bytes and-ed in, and all marks taken off when a word fails |
| Flash.Controller.ResetEraseMark | iapTool/iapToolTest/f4kerneltest/stmflash.c:95-99 | only the mark of the address's sector is taken off |
| Images.ChunkInSector | src/HAL/stmflash.c:92-94 | a chunk that stays in a 256-byte page stays in one sector |
| Images.ChunkWritten | iapTool/iapToolTest/f4kerneltest/stmflash.c:131-156 | writing the next chunk extends the loaded part of the image by just that chunk, and writing it again changes nothing |
| Images.WrittenTwice | src/HAL/stmflash.c:93-140 | a reported write done twice is that write done once |
| Images.WriteRefused | src/HAL/stmflash.c:93-103 | requests not in whole words, above 256 bytes or below the flash are refused and change nothing |
| Images.WriteBeyond | src/HAL/stmflash.c:93-140 | a request that leaves the flash fails and takes all erase marks off |
| Images.WrittenFresh | src/HAL/stmflash.c:93-140 | in a sector not yet erased the bytes stand in the flash, the rest of the sector is blank, and all other sectors are as before |
| Images.LoadedAll | iapTool/iapToolTest/f4kerneltest/stmflash.c:131-156 | a fully loaded image stands in the flash byte for byte, and sectors it does not touch are as before |
| Octets.XorCheckSum | udpBootLoader/iap/st_bootloader_protocol.c:473-483 | the XOR of a run of bytes |
| Octets.CheckByte | udpBootLoader/iap/st_bootloader_protocol.c:10-14 | a block XORs to zero with its check byte and with no other byte |
| Octets.WordRoundTrip | iapTool/iapdev/iapdev.py:40-45 | the receiver reads back the word the host split into bytes |
| Octets.WordIs | iapTool/iapdev/iapdev.py:40-45 | the first of four bytes is the most significant |
| Octets.StaleBitsLeave | udpBootLoader/iap/st_bootloader_protocol.c:114-119 | four bytes shifted into the register leave nothing of its old contents |
| Device.Device.BlReadMemory | udpBootLoader/iap/st_bootloader_protocol.c:79-169 | one call of the read command in every step: what is consumed, answered and kept, and how the call ends |
| Device.Device.BlGo | udpBootLoader/iap/st_bootloader_protocol.c:177-245 | one call of the go command; a checked address leaves the bootloader |
| Device.Device.BlWriteMemory | udpBootLoader/iap/st_bootloader_protocol.c:255-392 | one call of the write command in every step, with the flash it leaves |
| Device.Device.BlExecuteCmd | udpBootLoader/iap/st_bootloader_protocol.c:547-562 | the table entry with the command's code is run, an unknown code is an error |
| Device.Device.IapRun | udpBootLoader/iap/iap.c:40-91 | one call of the outer machine is one step of the specified machine, and keeps its invariant |
| Bootloader.StepSound | udpBootLoader/iap/iap.c:40-91 | for every poll a step keeps: inner step 0 outside a command, inner step within the command's range, a length that is a multiple of 4 up to 256 while data is awaited |
| Bootloader.ReceiveSound | udpBootLoader/User/udpDevice.cpp:172-186 | datagrams of any bytes keep the same; a datagram is taken whole if and only if the queue has room for it, else the queue is filled up with its first bytes |
| Frames.AwaitedFits | udpBootLoader/iap/st_bootloader_protocol.c:79-392 | every byte count a step waits for fits the receive queue |
| Frames.StepWaits | udpBootLoader/iap/st_bootloader_protocol.c:79-392 | with too few bytes and no broken flow a step changes nothing |
| Frames.StepMoves | udpBootLoader/iap/st_bootloader_protocol.c:79-392 | with enough bytes or a broken flow a step uses bytes up or answers the command; only on an empty queue that does not look empty it may instead drop the command |
| Frames.DropsUnseen | udpBootLoader/User/udpDevice.cpp:217-223 | a device with nothing to do stays as it is, unless the timer ran out on an empty queue that does not look empty: then exactly a command that waits is dropped, but for a write that waits for its length |
| Frames.BreakDrops | udpBootLoader/iap/st_bootloader_protocol.c:79-392 | when the timer runs out on too few bytes, they are dropped, and with them the command that waits |
| Frames.OnlyCheckedFrames | udpBootLoader/iap/st_bootloader_protocol.c:255-392 | after any sequence of datagrams and polls the flash is what complete write frames, each with both check bytes right, make of it |
| Frames.OnlyCheckedFromIdle | udpBootLoader/iap/st_bootloader_protocol.c:177-392 | the same from a bootloader waiting for a command; and it is left only by 21 DE, four address bytes and a check byte that XOR to zero |
| Answers.PairAnswer | udpBootLoader/iap/iap.c:59-77 | two bytes are taken as a command exactly when they are complements, and refused by a NACK otherwise |
| Answers.CommandAnswer | udpBootLoader/iap/st_bootloader_protocol.c:48-71 | read, go and write are acknowledged and wait for an address; the version and the chip identifier are answered byte for byte; other commands send nothing |
| Answers.ReadAddressAnswer | udpBootLoader/iap/st_bootloader_protocol.c:97-133 | a read takes exactly an address that XORs to zero with its check byte, and drops any other without an answer |
| Answers.ReadLengthAnswer | udpBootLoader/iap/st_bootloader_protocol.c:135-166 | the bytes of the flash and their XOR are sent exactly when both length bytes agree |
| Answers.WriteAddressAnswer | udpBootLoader/iap/st_bootloader_protocol.c:273-317 | a write takes exactly an address that XORs to zero with its check byte, and refuses any other |
| Answers.WriteLengthAnswer | udpBootLoader/iap/st_bootloader_protocol.c:319-336 | a length is taken exactly for whole words |
| Answers.DataAnswer | udpBootLoader/iap/st_bootloader_protocol.c:338-386 | data is acknowledged exactly when length, data and check byte XOR to zero and the flash took it; with a wrong check byte the flash is left alone |
| Answers.GoAddressAnswer | udpBootLoader/iap/st_bootloader_protocol.c:195-237 | the bootloader is left exactly when the address and its check byte XOR to zero |
| Answers.GoLeaves | udpBootLoader/iap/st_bootloader_protocol.c:177-245 | a go command and five bytes received whole are acknowledged twice and leave the bootloader if the five XOR to zero, and only once without leaving it if not |
| Answers.GoLeavesForGood | udpBootLoader/iap/st_bootloader_protocol.c:177-245 | and any further polls change nothing |
| Answers.GoInTwoMessages | iapTool/iapdev/iapdev.py:63-82 | the same for the two messages of the host, with any steady polls between them |
| Exchange.Exchanged | udpBootLoader/iap/st_bootloader_protocol.c:79-392 | one message under any schedule of polls ends in an answer, a flash and a state that depend only on the message and on the step in which it found the device; only a timer that runs out on an empty queue that is not seen to be empty can make the device drop, after its answer, the command it waits in |
| Exchange.StrayAtDataStep | udpBootLoader/iap/st_bootloader_protocol.c:319-336 | a command that meets the device waiting for a length is refused as one and its rest dropped at the break |
| Exchange.DataTakenAsData | udpBootLoader/iap/st_bootloader_protocol.c:323-335 | a data message is taken as data if and only if its length is a multiple of four |
| Exchange.OddTailAcknowledged | udpBootLoader/iap/st_bootloader_protocol.c:323-335 | for every tail whose length is no multiple of four and every schedule: the host sees an acknowledgement if and only if the bytes behind the length byte, taken two by two as a command and its complement, come to a command that replies |
| Exchange.TailTakenForVersion | udpBootLoader/iap/st_bootloader_protocol.c:48-56 | the tail 01 FE is acknowledged |
| Loader.Host.ForwardWrite | iapTool/F4Kernel/f4kerneliapdev.py:91-93 | old input is dropped, the message is lost or delivered, and any part of the answer may be lost; while the host then waits for more, the device may drop the command it waits in |
| Loader.Host.ConfirmAck | iapTool/iapdev/iapdev.py:54-61 | true exactly when the first byte is the acknowledgement, which is taken out; otherwise the buffer is emptied |
| Loader.Host.Read | iapTool/chardev/udpchardev.py:36-51 | the asked number of bytes, or none when fewer came |
| Loader.Host.SendCommand | iapTool/iapdev/iapdev.py:212-216 | an acknowledged command means the device was idle and now waits for the address; each failure is paid for by losses or by a leftover step |
| Loader.Host.SendAddress | iapTool/iapdev/iapdev.py:217-223 | an acknowledged address is the one the device holds |
| Loader.Host.SendData | iapTool/iapdev/iapdev.py:205-228 | acknowledged data was written; unacknowledged data was written or not |
| Loader.Host.TryWrite | iapTool/iapdev/iapdev.py:200-229 | one attempt at any write leaves the flash as before or after that write, whichever it was before; after it if acknowledged |
| Loader.Host.TryChunk | iapTool/iapdev/iapdev.py:200-229 | one attempt leaves the image loaded up to the chunk's start or its end, and up to its end if acknowledged |
| Loader.Host.LoadBin | iapTool/iapdev/iapdev.py:186-229 | a load that ends has the image in the flash at the address asked for, or at the board's program address for 0, for any pattern of losses and from any step the device was left in; it gives up exactly at the 21st failed attempt, which takes more than ten lost messages or answers, or ten when the device was not idle, and leaves a whole number of chunks |
| Loader.Host.ReadUint32 | iapTool/iapdev/iapdev.py:259-294 | a word that is returned is the word in the flash, whatever part of the answer was lost; with no loss one is returned |
| Loader.RestRead | iapTool/iapdev/iapdev.py:283-294 | of all ways to lose parts of an answer none makes the reader take other bytes for the word |
| Loader.Host.LoadUint32 | iapTool/iapdev/iapdev.py:231-257 | the flash is as before or as after the write of that word, and as after it when loading ends well; giving up takes more than five losses, or five when the device was not idle |
| Powerup.RestoreBootParam | iapTool/iapdev/iapdev.py:114-149 | a finished restore leaves the restored words and their check word and nothing else changed but their sectors; it fails only after a loss or when the old field counts no words |
| Powerup.WordsToRestore | iapTool/iapdev/iapdev.py:116-142 | the words written back: the old ones when the check word matches and the count is not two, else the two default words, with the boot word set |
| Powerup.RestoredVerified | iapTool/iapdev/iapdev.py:114-149 | the device accepts the restored field if and only if the old one was not a good field or one of 2 to 256 words; the boot word is set and the other variables of a good field are kept |
| Powerup.RestoredField | iapTool/iapdev/iapdev.py:131-149 | word for word: a good field of 3 to 65535 words is kept but for its first word, a field of two, with a count too large or with a wrong check word becomes 0x5555AAAA and 2, a good field of one becomes the first word alone |
| Powerup.NothingToRestore | iapTool/iapdev/iapdev.py:131-142 | the restore fails by itself exactly for a count of 0 with a first word of 0 |
| Powerup.CheckWord | iapTool/iapdev/iapdev.py:127-130 | a row XORs to zero with its check word and with no other |
| Powerup.LoadAndRestore | iapTool/F4Kernel/loadf4kernel.py:68-69 | a load followed by a restore, as the scripts run them: if both finish the image is in the flash and the field holds the restored words |
| Powerup.RestorableAfterLoad | src/HAL/stmflash.c:93-140 | the restore may follow the load whenever the image lies outside the field's sector, that was not erased before, and the field has at most 4095 words |
| Powerup.RestoredWordsStay | iapTool/iapdev/iapdev.py:116-142 | such a load does not change which words are restored |
| Powerup.CheckFunc | src/HAL/powerupOption.cpp:14-22 | the XOR of the words |
| Powerup.VerifyPowerupField | src/HAL/powerupOption.cpp:24-34 | true exactly for a count of 1 to 256 with the matching check word behind the words |
| Powerup.VerifiedMeans | src/HAL/powerupOption.cpp:24-34 | a field is a good one if and only if it counts 1 to 256 words and they XOR to zero with the word behind them |
| Powerup.CountIs | src/HAL/powerupOption.cpp:24-34 | the count is the little-endian number at offset 0xC004 of the flash |
| Powerup.NumberIs | src/HAL/powerupOption.cpp:24-34 | a word in memory is a number with its lowest byte first |
| Powerup.Write | src/HAL/powerupOption.cpp:41-63 | a refused or needless write changes nothing; any other leaves the field with the one word replaced and the check word right, the erase mark off |
| Powerup.WriteKeepsField | src/HAL/powerupOption.cpp:41-63 | writing a variable other than the count of a field of 2 to 11 words leaves a verified field with just that variable changed |
| Powerup.OneWordField | src/HAL/powerupOption.cpp:54-59 | in a field of one word the check word lies on the count, which survives only the value one |
| Powerup.InitInApp | src/HAL/powerupOption.cpp:65-111 | a verified field of eleven words is left alone; any other becomes one, with the words it had and defaults for the missing |
| RingQue.RingQue.ElemsInQue | src/utility/ringque.h:110-116 | the difference of the positions is the number of queued bytes, also with the front one past the end |
| RingQue.RingQue.Empty | src/utility/ringque.h:47-47 | the positions meet only in an empty queue; an empty queue goes unseen exactly with the front one past the end and the back at the start |
| RingQue.EmptyUnseen | src/utility/ringque.h:47-47 | a run of four operations that ends with an empty queue for which empty() is false |
| RingQue.RingQue.Clear | src/utility/ringque.h:49-49 | the queue is empty |
| RingQue.RingQue.Push | src/utility/ringque.h:85-91 | the byte is appended, or refused exactly when size - 1 bytes are queued; the back stays inside the array |
| RingQue.RingQue.Pop | src/utility/ringque.h:98-103 | the oldest byte is dropped, or refused exactly when there is none |
| RingQue.RingQue.PushArray | src/utility/ringque.h:134-168 | as many bytes as fit are appended, across the end of the array or not |
| RingQue.RingQue.PopArray | src/utility/ringque.h:176-210 | as many bytes as asked for and queued are taken from the front, across the end of the array or not |
| RingQue.FittingIsLargest | src/utility/ringque.h:136-143 | the count taken is the largest that fits the buffer and the room |
| RingQue.RingQue.Perform | src/utility/ringque.h:85-210 | every run of push, pop, push_array and pop_array leaves the contents and returns the results of a plain first-in-first-out sequence of capacity size - 1 |
| RingQue.FifoConserves | src/utility/ringque.h:85-210 | after any run the queue is what it held and all that was taken in, in that order, less as many of the oldest bytes as came out |
| RingQue.RingQue.Reverse | src/utility/ringque.h:262-280 | the cells between two positions in either order are reversed in place, all others kept |
| RingQue.ThreeReversals | src/utility/ringque.h:244-246 | the three reversals are the rotation by the front position |
| RingQue.RingQue.AlignQue2Array | src/utility/ringque.h:228-254 | the queue is the same and starts at the start of the array, for every queue but one of bytes with the front past the end |
| RingQue.RingQue.BackPtr | src/utility/ringque.h:72-79 | the queue is the same and all free room lies behind the back in one piece, from any position |
| RingQue.RingQue.FrontPtr | src/utility/ringque.h:58-65 | the queue is the same and lies behind the front in one piece |
| RingQue.RingQue.CallBackPush | src/utility/ringque.h:212-220 | what the callback delivered is appended |
| Rtt.UpRing.HostReads | src/logger/SEGGER_RTT.c:335-338 | the probe takes a run of unread bytes in order; bytes read and bytes in the ring still make up all bytes published |
| Rtt.UpRing.GetAvailWriteSpace | src/logger/SEGGER_RTT.c:438-454 | the answer is room that is still there afterwards, whatever the probe does meanwhile |
| Rtt.UpRing.MemCpy | src/logger/SEGGER_RTT.c:344-344 | bytes are copied into the room only, with the probe reading between any two |
| Rtt.UpRing.WriteBlocking | src/logger/SEGGER_RTT.c:327-358 | everything is published in order at every interleaving with the probe; with room from the start no round waits for it |
| Rtt.UpRing.WriteNoCheck | src/logger/SEGGER_RTT.c:378-401 | data that fits is published, across the end of the buffer or not |
| Rtt.UpRing.PostTerminalSwitch | src/logger/SEGGER_RTT.c:416-422 | the two switch bytes are published |
| Rtt.UpRing.WriteSkipNoLock | src/logger/SEGGER_RTT.c:669-754 | all of the data is published or none, and all of it if there was room |
| Rtt.UpRing.WriteNoLock | src/logger/SEGGER_RTT.c:779-829 | what each mode publishes, as counted by the status; only the blocking mode waits |
| Rtt.UpRing.SetTerminal | src/logger/SEGGER_RTT.c:1331-1362 | the switch is published and the terminal becomes active together, or neither; only the blocking mode waits |
| Rtt.UpRing.TerminalOut | src/logger/SEGGER_RTT.c:1381-1454 | switch, text and switch back are published, whole, trimmed or not at all by the mode; skip and trim end even if the probe never reads |
| Rtt.FramedHeard | src/logger/SEGGER_RTT.c:1381-1454 | a probe that decodes the stream hears the framed text on its own terminal and on no other, and what follows on the active one |
| Rtt.DownRing.ReadNoLock | src/logger/SEGGER_RTT.c:479-528 | the bytes read are the next ones the probe sent, as many as asked for or at least all that were there, while the probe goes on sending |
| Rtt.Publish | src/logger/SEGGER_RTT.c:348-353 | bytes in the room join the unread ones when the offset moves past them |
| Format.Desc.StoreChar | src/logger/rtt_vsnprintf.c:117-126 | a character is appended while there is room and dropped after that |
| Format.FirstDigit | src/logger/rtt_vsnprintf.c:178-188 | the divisor is the power of the base at the first digit shown and never leaves 32 bits |
| Format.TopDigit | src/logger/rtt_vsnprintf.c:192-200 | dividing by the place and going on with the rest prints the digits of the number |
| Format.NumeralIsFixed | src/logger/rtt_vsnprintf.c:145-149 | the digits printed without a precision are the numeral of the number |
| Format.PrintUnsigned | src/logger/rtt_vsnprintf.c:132-216 | digits and padding by flags, width and precision, as far as they fit the buffer |
| Format.UnsignedReadsBack | src/logger/rtt_vsnprintf.c:132-216 | between the spaces stand digits that denote the number; the flags decide on which side the spaces are and whether zeros take their place |
| Format.PrintInt | src/logger/rtt_vsnprintf.c:222-292 | the text of the number behind what was there, whole if it fits the buffer and cut to it otherwise |
| Format.IntTextLength | src/logger/rtt_vsnprintf.c:226-292 | the text has as many characters as the width asks for, or as sign and digits need |
| Format.UnsignedTextLength | src/logger/rtt_vsnprintf.c:132-216 | the unsigned text has as many characters as the width asks for, or as the digits need |
| Format.IntReadsBack | src/logger/rtt_vsnprintf.c:222-292 | between the spaces stands a text that reads back as v: a minus exactly for a negative number, a plus exactly by the flag on one that is not negative; the flags decide on which side the spaces are and whether zeros take their place |
| Format.ShownIs | src/logger/rtt_vsnprintf.c:146-167 | as many digits as the precision asks for, or just as many as the number needs |

## Left out

- Memory allocation failures, the limit on the number of limbs, wiping of memory and timing countermeasures as goals (the memory bounds of the dummy subtraction are kept).
- A limb buffer is a sequence held by its number, so two numbers never share one buffer; `mpi_swap` and the cached R^2, which the source shares by copying the struct, are values here.
- The half-limb quotient estimate of the division (bignum.c:1123-1163); the double-limb branch is modelled.
- The multiply-accumulate macros are one step, multiply, add, and carry; bn_mul.h is not part of this model.
- Shifts, masks and ORs of limbs with disjoint bits are written as products, quotients and sums; on the target a limb has 32 bits and a double limb 64.
- InvMod.InvMpi: excludes the modulus 1, for which the source does not end.
- Division.ModMpi: excludes the remainder object being the modulus object, for which the source does not end: its second loop makes R - R = 0 and finds 0 >= 0.
- ExpMod.ExpMpi: excludes the result object being the exponent or the modulus, which the source overwrites before it reads them.
- `mpi_is_prime`, `mpi_gen_prime`, `mpi_fill_random` and `rsa_gen_key`: random source and probabilistic claims; bit access by position and file input and output of numbers.
- PSS and PKCS#1 signatures: they depend on templates from headers that are not part of this model.
- The random source of the two paddings is a parameter: the seed, or the padding bytes it delivered.
- Pkcs1.Pad: does not model the retries for nonzero padding bytes, nor their failure.
- Oaep.Unpad: a block shorter than two digests and two bytes, which no encryption makes, is excluded; the source computes negative lengths for it.
- The unrolled MD5 operations are a loop over tables of the same words, shifts and constants; `Md5.Context` takes the compression as a parameter.
- Flash.Controller.WriteBytes: follows the device's word loop, with programming that can only clear bits; a word outside the flash fails, an erase never does, and the one-time-programmable area counts as outside.
- The bootloader's Go command ends the run: the jump, and the parameter write and reset when there is no stack, are not modelled. Read protection is off, as in the source.
- The receive queue of the bootloader is a sequence of at most 299 bytes, as `RingQue` proves of the queue; whether an empty queue goes unseen is left open at every poll.
- A datagram is delivered before the next one is sent or not at all, and not twice; the network does not change bytes. The stall timer of the device is shorter than the read timeout of the host, and does not run out between an answer that came through and the next message of the same attempt.
- Loader.Host.LoadBin: the image is a multiple of four bytes long, starts on a 256-byte boundary, lies in the flash, and no sector it touches is marked as erased before. The file name check, reading files, printing, sleeping, `readbin`, version queries and the reset and forwarding commands are not modelled.
- Loader.Host.ReadUint32: addresses outside the flash are excluded.
- Loader.Host.LoadUint32: a word the device would refuse to write is excluded.
- Powerup.RestoreBootParam: the power-up field of the device, with no sector that the restored field lies in marked as erased before.
- Powerup.Write: a count of 12 to 256, for which the shadow array of the source is too short, is excluded; the sector of the field is not marked as erased before.
- Powerup.InitInApp: the same two exclusions.
- Rtt.UpRing.WriteBlocking: rounds on a full ring are one wait for the probe, which is taken to read in the end.
- Rtt.UpRing.WriteSkipNoLock: called with at least one byte, as its copy loop needs.
- `SEGGER_RTT_WriteWithOverwriteNoLock`, channel naming, configuration and locking of the trace rings.
- RingQue.RingQue.Push: excludes a back one past the end, which only clearing with the front there leads to. Elements are bytes, and `front()` is not modelled.
- RingQue.RingQue.AlignQue2Array: excludes a queue that is not empty with the front one past the end, where the source would exchange a cell outside the array.
- RingQue.RingQue.FrontPtr: the same exclusion.
- Format.FirstDigit: excludes precisions whose first place does not fit 32 bits.
- Format.PrintUnsigned: the same exclusion.
- Format.PrintInt: the same exclusion, and the smallest integer, whose negation does not fit; parsing of the format string is not modelled.
- The Modbus checksum, hardware drivers, the network stack, consoles, task manager and build scripts.
