# Verified model of the signing library and the spending gate

The repository's agent signs its cards with `scaffold/src/tweetnacl.c`, wraps signatures in
`scaffold/src/card_signing.h`, and decides in `scaffold/src/agent_module_impl.cpp` which payments may be made without
asking the owner. This project models these three files in Dafny and proves what they compute.

**The library.** Every algorithm is modelled as the C code runs it: arrays of limbs, bytes and words overwritten in
place, carries that are delayed or signed, outputs that may alias inputs, selection by masks instead of branches. `i64`,
`u64` and `byte` are subset types, so each intermediate value is proved to fit. `>>` on negative numbers is floor
division, and the bit operators are defined on two's complement integers (`MachineInts`). Above that X25519, Poly1305,
SHA-512, Salsa20, base64, key generation and signing are proved equal to the text of their standards. What code and
standard have in common is described a second time, without it: the functions and constants of SHA-512 (`Bits`,
`Sha512Functions`, `Sha512Constants`), rotations, masks and alphabets (`Tables`, `Clamping`), the base point
(`BasePoint`), the signature from seed to bytes (`Signing`), and the ladder of X25519 as multiplication of points on the
curve of Ed25519 (`Montgomery`). Signature verification does not follow its standard: `tweetnacl.c` tests less than RFC
8032 section 5.1.7 asks for. `Acceptance` says what it accepts in terms of the group, and exactly when that agrees with
the RFC.

| layer | modules |
|---|---|
| arithmetic, digits, bit operators, byte strings, tables | `Arith`, `Radix`, `MachineInts`, `Bits`, `LittleEndian`, `Tables`, `Wrappers` |
| the field of 2^255 - 19 on sixteen limbs | `Field25519`, `FieldCodec`, `FieldPower` |
| X25519 (RFC 7748 section 5), its points, reduction modulo the group order | `X25519`, `Montgomery`, `Scalar` |
| Poly1305 (RFC 8439 section 2.5), SHA-512 (FIPS 180-4), Salsa20 and sealed boxes | `Poly1305`, `Clamping`, `Sha512`, `Sha512Functions`, `Sha512Constants`, `Salsa20`, `SecretBox` |
| consequences of a prime modulus, congruence, commutative groups, the Edwards curve | `PrimeField`, `Congruence`, `Group`, `EdwardsLaw` |
| Ed25519 points, signatures, the meaning of acceptance (RFC 8032 section 5.1) | `Edwards`, `BasePoint`, `Sign`, `Signing`, `Acceptance` |
| base64url, base64, hexadecimal, detached signatures | `Base64`, `CardSigning` |
| the spending gate and the life of a proposal, whole runs | `SpendGate`, `SpendHistory` |

**What is assumed.** Two predicates are hypotheses of the theorems about points. `EdwardsLaw.Curve` says that 2^255 - 19
is prime and that the addition law is associative; `Sign.BaseOrder` says that the base point has order L. Two results
take one more: `Acceptance.AcceptedHasCofactorEquation` that 8 L kills every point (`Acceptance.GroupOrder`), and
`Signing.SameR` that L is prime. Everything else about the curve is proved from them: inverses and Fermat's little
theorem, that 2 and d are not squares, that no denominator of the addition law is zero, that sums stay on the curve, and
the other group laws. Refinement statements about the code (`ensures` of methods) need no hypothesis.

**Values passed as parameters.** Some functions and methods take a value that stands for large definitions and keeps
them folded in proofs: `Sha512.Logic`, `Salsa20.Refines`, `SecretBox.Cipher` with `Implemented`, `Edwards.IsSum`,
`Sign.Scheme` with `IsEd25519`. `Sha512.Sha512`, `Salsa20.MixRefines`, `SecretBox.XSalsaImplemented` and
`Sign.SchemeImplemented` give the actual values. For the same reason residues modulo p (`Congruence.Res`), the range of
coordinates (`Congruence.InField`) and the constant d are folded: proofs about polynomials use the laws of congruence,
and `Congruence.EqIs`, `Congruence.FieldRange` and `EdwardsLaw.DIsValue` give the numbers.

**The gate.** An agent's memory, its files, the wallet calls made so far and a history of what was spent without
approval form one state. The module's methods are proved equal to step functions on it; runs are sequences of events,
some of which end in a crash and a restart from the files. `approve_pending` is cut into nine steps and may be
interrupted after any of them. A wallet call is an arbitrary success or failure, ids handed out are new, saving a file
is one step.

**Where code and comments differ.** The model follows the code.

- RFC 8032 section 5.1.7 refuses S >= L; `crypto_sign_open` does not look. Adding L to the S of an accepted signature
  gives another accepted one (`Acceptance.SecondResponse`). `unpackneg` accepts y >= p and x = 0 with the sign bit set,
  which section 5.1.3 refuses (inputs: `Edwards.LargeYAccepted`, `Edwards.SignedZeroAccepted`). These are the only two
  differences when the challenge k is reduced modulo L, as the code does: `Acceptance.RfcAcceptsExactly`. Section 5.1.7
  does not reduce k. For keys with [L]A = 0, among them every generated key, that changes nothing. For other keys the two
  agree when [k]A = [k mod L]A and otherwise never both accept (`Acceptance.UnreducedChallenge`); what the code accepts
  still satisfies the RFC's equation with the cofactor 8. The RFC allows the equation without cofactor, the one used here.
- `within_threshold` says that a configured limit of zero means "never without approval"; the code treats the text `0`
  like an absent limit. Every amount passes if and only if both texts are empty or `0` (`SpendGate.EverythingPasses`);
  `0.0` blocks every positive amount (`SpendGate.NothingPasses`).
- `approve_pending` speaks of parameters kept with a held `program_call`; none are kept, and the approved call is made
  with an empty instruction and `{}`. The amount of an approved transfer is added to the period counter twice.
- The period limit is meant for what is sent without approval. It is kept for what is recorded, in every run
  (`SpendGate.AutonomousSpendBounded`). A crash between the wallet's answer and the saved counter loses an amount; the sum
  sent then stays within the limit in all further runs without such a crash if and only if it is within it now and either
  the counter covers it or nothing more can pass (`SpendGate.SentBoundExactly`). `SpendGate.SentBeyondLimit` gives the
  runs that send a + b under the limit b, for all 0 < a <= b.
- A period is a window that the first request after its end replaces. So a stretch of time as long as a period can see
  twice the limit (`SpendHistory.TwiceTheLimit`), and never more (`SpendHistory.AnyPeriodBounded`).
- `crypto_sign` copies the message upwards byte by byte. When it lies in the output buffer below its destination, what is
  signed is a repetition of its beginning; `Sign.CopiedUpExactly` says when that is the message.

## Model

| member | source | states |
|---|---|---|
| Field25519.Car25519 | scaffold/src/tweetnacl.c:273-283 | for any limbs up to 2^62 the ring of carries folds the excess over 2^256 back times 38 (the residue is kept), limbs 1..15 end in [0, 2^16), nothing leaves i64 |
| Field25519.FoldedKeepsResidue | scaffold/src/tweetnacl.c:280 | folding the excess over 2^256 back times 38 keeps the residue modulo p |
| Field25519.M | scaffold/src/tweetnacl.c:354-363 | for limbs in (-2^26, 2^26) the result is the product modulo p, limb 0 in [-38, 2^16+38), the others in [0, 2^16), also when o is a or b |
| Field25519.S | scaffold/src/tweetnacl.c:365-368 | squaring, also in place |
| Field25519.A | scaffold/src/tweetnacl.c:342-346 | sum modulo p for all limbs whose sums fit i64, with the limb bound of the result |
| Field25519.Z | scaffold/src/tweetnacl.c:348-352 | difference modulo p for all limbs whose differences fit i64, with the limb bound of the result |
| Field25519.Sel25519 | scaffold/src/tweetnacl.c:285-293 | all limbs are exchanged exactly when the bit is 1 |
| FieldCodec.Unpack25519 | scaffold/src/tweetnacl.c:335-340 | limbs of the number in the low 255 bits |
| FieldCodec.CarThrice | scaffold/src/tweetnacl.c:299-302 | three carry rounds leave sixteen digits of a number below 2^256 with the same residue |
| FieldCodec.ReduceOnce | scaffold/src/tweetnacl.c:304-312 | the borrow chain and the select subtract p exactly when the number is at least p |
| FieldCodec.Pack25519 | scaffold/src/tweetnacl.c:295-318 | for limbs up to 2^62: the 32-byte encoding of the canonical residue |
| FieldCodec.Neq25519 | scaffold/src/tweetnacl.c:320-326 | for limbs up to 2^62: 0 exactly when the residues are equal |
| FieldCodec.Par25519 | scaffold/src/tweetnacl.c:328-333 | for limbs up to 2^62: the parity of the canonical residue |
| FieldCodec.UnpackThenPack | scaffold/src/tweetnacl.c:295-340 | unpacking and packing gives the bytes back if and only if they are below p |
| FieldPower.Inv25519 | scaffold/src/tweetnacl.c:370-380 | i^(p-2), with the multiplications skipped at 2 and 4, also in place |
| FieldPower.InvExponentStep | scaffold/src/tweetnacl.c:375-378 | the exponent invariant of that loop |
| FieldPower.Pow2523 | scaffold/src/tweetnacl.c:382-392 | i^((p-5)/8), with the multiplication skipped at 1, also in place |
| FieldPower.RootExponentStep | scaffold/src/tweetnacl.c:387-390 | the exponent invariant of that loop |
| LittleEndian.Vn | scaffold/src/tweetnacl.c:54-59 | 0 when the strings agree, -1 otherwise |
| X25519.CryptoScalarmult | scaffold/src/tweetnacl.c:394-443 | the function X25519 of RFC 7748 section 5, for all scalars and u-coordinates |
| X25519.ClampScalar | scaffold/src/tweetnacl.c:399-401 | the decoded scalar of the RFC |
| X25519.LadderIteration | scaffold/src/tweetnacl.c:409-431 | swap, ladder step, swap; all limbs stay inside M's bound |
| X25519.StepMatches | scaffold/src/tweetnacl.c:412-429 | the code's order of operations computes the RFC's ladder step |
| X25519.SwapsCompose | scaffold/src/tweetnacl.c:409-431 | undoing each swap at once equals the RFC's merged swaps |
| X25519.LadderLoop | scaffold/src/tweetnacl.c:408-432 | the 255 iterations end in the RFC's ladder state |
| Montgomery.X25519Multiplies | scaffold/src/tweetnacl.c:394-443 | for every point a of the curve of Ed25519 and every scalar, X25519 of a's u-coordinate is the u-coordinate of [k]a, in the exceptional cases too |
| Montgomery.StepStands | scaffold/src/tweetnacl.c:409-431 | an iteration leads from [n]a and [n+1]a to [2n+b]a and [2n+b+1]a: doubling and differential addition of the Montgomery curve with A = 486662 |
| Montgomery.SharedSecret | scaffold/src/tweetnacl.c:394-443 | X25519(m, X25519(n, u)) = X25519(n, X25519(m, u)) for every u of a point |
| Montgomery.KeyExchange | scaffold/src/tweetnacl.c:445-461 | with u = 9 the public keys are [n]B, and both sides get one secret |
| Montgomery.BaseHasNine | scaffold/src/tweetnacl.c:14 | 9 is the u-coordinate of the base point of Ed25519 |
| Scalar.FoldRow | scaffold/src/tweetnacl.c:682-686 | sixteen times x[i] times the low half of L is subtracted, digits end in [-128, 127] |
| Scalar.FoldDigit | scaffold/src/tweetnacl.c:680-689 | digit i is gone and the value is unchanged modulo L |
| Scalar.QuotientIsExact | scaffold/src/tweetnacl.c:690-695 | the signed digits make floor(x[31] / 16) a quotient that is right up to one L |
| Scalar.ModL | scaffold/src/tweetnacl.c:677-701 | exactly the value modulo L, canonical, for all digits up to 2^21, every intermediate inside i64 |
| Scalar.Reduce | scaffold/src/tweetnacl.c:703-709 | 64 bytes become their number modulo L, the upper half is cleared |
| Poly1305.Add1305 | scaffold/src/tweetnacl.c:171-179 | addition of 17-byte numbers without the carry out of the top |
| Poly1305.Multiply | scaffold/src/tweetnacl.c:211-214 | the rows of the product, shifted bytes re-entering times 320 |
| Poly1305.RowValue | scaffold/src/tweetnacl.c:213 | each row is its shifted multiple modulo 2^130 - 5 |
| Poly1305.Squeeze | scaffold/src/tweetnacl.c:216-229 | two carry passes with the factor 5 keep the residue and come below 2p |
| Poly1305.AbsorbBlock | scaffold/src/tweetnacl.c:205-230 | one block: (acc + block with a 1 on top) times r, for full and partial blocks |
| Poly1305.Freeze | scaffold/src/tweetnacl.c:232-235 | the mask made of the top bit selects the canonical residue |
| Poly1305.LoadKey | scaffold/src/tweetnacl.c:189-197 | the clamped r of RFC 8439 |
| Clamping.ClampIsMask | scaffold/src/tweetnacl.c:191-197 | the clamped key half is its number AND 0x0ffffffc0ffffffc0ffffffc0fffffff |
| Poly1305.CryptoOnetimeauth | scaffold/src/tweetnacl.c:185-243 | the tag of RFC 8439 section 2.5 for every length, with key, message and output in one buffer |
| Poly1305.CryptoOnetimeauthVerify | scaffold/src/tweetnacl.c:238-243 | 0 exactly when the tag is right |
| Sha512.Dl64 | scaffold/src/tweetnacl.c:35-40 | eight bytes, big-endian |
| Sha512.Ts64 | scaffold/src/tweetnacl.c:48-52 | the big-endian bytes of a word |
| Sha512.RollSchedule | scaffold/src/tweetnacl.c:535-537 | the in-place update turns words of the 80-word schedule into the next sixteen |
| Sha512.ScheduleListIsSchedule | scaffold/src/tweetnacl.c:535-537 | those words satisfy the recurrence of FIPS 180-4 section 6.4.2 |
| Sha512.DoRound | scaffold/src/tweetnacl.c:530-534 | one round of the compression function |
| Sha512.CompressBlock | scaffold/src/tweetnacl.c:526-540 | one block, with the rolling sixteen words, is the compression of FIPS 180-4 |
| Sha512.CryptoHashblocks | scaffold/src/tweetnacl.c:519-549 | all full blocks; the rest of the length is returned |
| Sha512.BuildTail | scaffold/src/tweetnacl.c:574-580 | rest, 0x80, zeros and the exact 128-bit length are the end of the padded message |
| Sha512.LengthField | scaffold/src/tweetnacl.c:579-580 | b >> 61 and b << 3 hold the bit length |
| Sha512.PaddedLength | scaffold/src/tweetnacl.c:578 | 128 or 256 bytes complete the padded message |
| Sha512.HashInTwoParts | scaffold/src/tweetnacl.c:562-586 | full blocks first and the tail after them hash the padded message |
| Sha512.CryptoHash | scaffold/src/tweetnacl.c:562-586 | SHA-512 for every length |
| Sha512Functions.ChBit | scaffold/src/tweetnacl.c:488 | each bit of x chooses the bit of y where it is 1, of z where it is 0 |
| Sha512Functions.MajBit | scaffold/src/tweetnacl.c:489 | each bit is what at least two of the three words have |
| Sha512Functions.BigSigma0Bits | scaffold/src/tweetnacl.c:490 | bit i is the parity of the bits i + 28, i + 34, i + 39 around the word |
| Sha512Functions.BigSigma1Bits | scaffold/src/tweetnacl.c:491 | the same for 14, 18, 41 |
| Sha512Functions.SmallSigma0Bits | scaffold/src/tweetnacl.c:492 | the same for 1 and 8 around the word and 7 without wrapping |
| Sha512Functions.SmallSigma1Bits | scaffold/src/tweetnacl.c:493 | the same for 19 and 61 around the word and 6 without wrapping |
| Sha512Functions.BigSigmasOfOne | scaffold/src/tweetnacl.c:490-491 | their values on 1 |
| Sha512Functions.SmallSigmasOfOne | scaffold/src/tweetnacl.c:492-493 | their values on 1 |
| Sha512Constants.RoundConstant | scaffold/src/tweetnacl.c:495-517 | for every t, K_t is the first 64 fractional bits of the cube root of prime number t |
| Sha512Constants.InitialWord | scaffold/src/tweetnacl.c:551-560 | the initial hash value is those bits of the square roots of the first eight primes |
| Sha512Constants.CubeFractionUnique | scaffold/src/tweetnacl.c:495-517 | only one word satisfies the inequalities for the cube root |
| Salsa20.RotateLow | scaffold/src/tweetnacl.c:25 | on 64-bit words L32 agrees in its low half with the 32-bit rotation |
| Salsa20.Mix64 | scaffold/src/tweetnacl.c:96-99 | the same for a whole mixing statement |
| Salsa20.QuarterRefines | scaffold/src/tweetnacl.c:96-99 | so a quarter-round with garbage upper halves refines the 32-bit one |
| Tables.QuarterBits | scaffold/src/tweetnacl.c:96-99 | the four words of a quarter-round bit by bit, with the rotations 7, 9, 13, 18 |
| Salsa20.Ld32 | scaffold/src/tweetnacl.c:27-33 | four bytes, little-endian |
| Salsa20.St32 | scaffold/src/tweetnacl.c:42-46 | the low four bytes of a word |
| Salsa20.TurnColumn | scaffold/src/tweetnacl.c:94-101 | a column goes through the quarter-round into a row |
| Salsa20.TwentyTurns | scaffold/src/tweetnacl.c:92-104 | twenty column rounds with transposition are ten double rounds |
| Salsa20.CoreBlock | scaffold/src/tweetnacl.c:71-109 | core with h = 0 stores the Salsa20 block |
| Salsa20.CoreHash | scaffold/src/tweetnacl.c:71-109 | core with h = 1 stores the words of HSalsa20 |
| Salsa20.CryptoCoreSalsa20 | scaffold/src/tweetnacl.c:111-115 | the block function of the specification |
| Salsa20.CryptoCoreHSalsa20 | scaffold/src/tweetnacl.c:117-121 | the key derivation |
| Tables.SigmaIsText | scaffold/src/tweetnacl.c:123 | the constant is the text expand 32-byte k |
| SecretBox.NextCounter | scaffold/src/tweetnacl.c:135-140 | the byte-wise carry adds one to the 8-byte counter |
| SecretBox.CryptoStreamSalsa20Xor | scaffold/src/tweetnacl.c:125-150 | message (or zeros) xor key stream for any length, also in place |
| SecretBox.StreamByte | scaffold/src/tweetnacl.c:132-148 | byte p of the stream comes from block p / 64 |
| SecretBox.StreamPrefix | scaffold/src/tweetnacl.c:125-150 | a shorter stream is a prefix of a longer one |
| SecretBox.XorTwice | scaffold/src/tweetnacl.c:134 | the stream undoes itself |
| SecretBox.CryptoStream | scaffold/src/tweetnacl.c:157-162 | the key stream for a 24-byte nonce |
| SecretBox.CryptoStreamXor | scaffold/src/tweetnacl.c:164-169 | message xor that stream |
| SecretBox.CryptoSecretbox | scaffold/src/tweetnacl.c:245-253 | -1 below 32 bytes, otherwise the box, also in place |
| SecretBox.CryptoSecretboxOpen | scaffold/src/tweetnacl.c:255-265 | -1 and no change, or the message with 32 zero bytes in front |
| SecretBox.OpenSealed | scaffold/src/tweetnacl.c:245-265 | opening a box gives the message, for every message with 32 leading zero bytes |
| SecretBox.SealOpened | scaffold/src/tweetnacl.c:245-265 | whatever opens is the box of the message it gives, from byte 16 on |
| PrimeField.Fermat | scaffold/src/tweetnacl.c:370-380 | Fermat's little theorem, from primality; with it i^(p-2) is the inverse |
| EdwardsLaw.DIsValue | scaffold/src/tweetnacl.c:19 | the limbs of d stand for -121665 / 121666 |
| EdwardsLaw.DNonSquare | scaffold/src/tweetnacl.c:19 | d is not a square modulo p |
| Congruence.PowerQuotient | scaffold/src/tweetnacl.c:370-380 | u times v^(p-2) is the quotient u / v |
| EdwardsLaw.Complete | scaffold/src/tweetnacl.c:588-611 | the denominators 1 + d x1 x2 y1 y2 and 1 - d x1 x2 y1 y2 are never zero |
| EdwardsLaw.Closed | scaffold/src/tweetnacl.c:588-611 | sums of points are on the curve |
| EdwardsLaw.PointsFormGroup | scaffold/src/tweetnacl.c:588-611 | with associativity as hypothesis the points form a commutative group |
| Edwards.AddPoints | scaffold/src/tweetnacl.c:588-611 | the formulas of RFC 8032 section 5.1.4, also for add(p, p) |
| Edwards.SurfaceKept | scaffold/src/tweetnacl.c:588-611 | T Z = X Y and -X^2 + Y^2 = Z^2 + d T^2 are kept for any two points that satisfy them |
| Edwards.SumRepresents | scaffold/src/tweetnacl.c:588-611 | the formulas compute the sum in the group |
| Edwards.Cswap | scaffold/src/tweetnacl.c:613-618 | the points are exchanged exactly when the bit is 1 |
| Edwards.Scalarmult | scaffold/src/tweetnacl.c:630-644 | the ladder over all 256 bits, with its swaps |
| Group.LadderMultiples | scaffold/src/tweetnacl.c:637-643 | the ladder keeps p = [s >> i]Q and q = p + Q |
| Edwards.ScalarMultiple | scaffold/src/tweetnacl.c:630-644 | so scalarmult computes [s]Q for every 256-bit s |
| Edwards.Scalarbase | scaffold/src/tweetnacl.c:646-654 | the same for the base point |
| BasePoint.OnlyBasePoint | scaffold/src/tweetnacl.c:21-22 | the limbs of X and Y are the coordinates of the only point with 5 y = 4 and an even x |
| BasePoint.ScalarbaseMultiple | scaffold/src/tweetnacl.c:646-654 | so scalarbase computes [s]B for every such B |
| Edwards.Pack | scaffold/src/tweetnacl.c:620-628 | y / z with the parity of x / z in the top bit |
| Edwards.PackedPoint | scaffold/src/tweetnacl.c:620-628 | that is the encoding of the point (RFC 8032 section 5.1.2) |
| Edwards.UnpackNeg | scaffold/src/tweetnacl.c:743-777 | the candidate root, its repair by the square root of -1, and the sign, on limbs |
| Edwards.CandidateSquare | scaffold/src/tweetnacl.c:748-763 | x0^2 v = u (u v^7)^((p-1)/4) for the candidate root |
| Edwards.RootFound | scaffold/src/tweetnacl.c:753-771 | a root is found whenever u / v has one |
| Edwards.UnpackedOnCurve | scaffold/src/tweetnacl.c:765-776 | on success: on the curve, y as unpacked, x of parity opposite to the sign bit unless it is 0 |
| Edwards.UnpackedExactly | scaffold/src/tweetnacl.c:743-777 | success if and only if y belongs to a point of the curve |
| Edwards.UnpackedEncoding | scaffold/src/tweetnacl.c:743-777 | unpacking the encoding of a point gives its negation |
| Edwards.UnpackedCanonical | scaffold/src/tweetnacl.c:743-777 | the negated result encodes back to the bytes if and only if y < p and the sign bit is clear for x = 0 |
| Edwards.XIsZero | scaffold/src/tweetnacl.c:773 | x = 0 exactly for y = 1 and y = p - 1, where the sign bit has no effect |
| Edwards.LargeYAccepted | scaffold/src/tweetnacl.c:743-777 | y = p + 1 unpacks to the point (0, 1), whose encoding is a different string |
| Edwards.SignedZeroAccepted | scaffold/src/tweetnacl.c:743-777 | y = 1 with the sign bit set unpacks to (0, 1), whose encoding is a different string |
| Sign.CryptoSignKeypair | scaffold/src/tweetnacl.c:656-673 | the public key of RFC 8032 section 5.1.5, and secret followed by public key |
| BasePoint.KeyOfBasePoint | scaffold/src/tweetnacl.c:656-673 | the public key is the encoding of [a]B for the point with 5 y = 4 and an even x |
| Signing.DecodedScalar | scaffold/src/tweetnacl.c:663-665 | pruning as a number: 2^254 + (v mod 2^254) - (v mod 8) |
| Signing.OrderValue | scaffold/src/tweetnacl.c:675 | L is 2^252 + 27742317777372353535851937790883648493 |
| Sign.Convolve | scaffold/src/tweetnacl.c:735-737 | the digits of r + h d, within modL's bound |
| Sign.CryptoSign | scaffold/src/tweetnacl.c:711-741 | R, S and the message as in RFC 8032 section 5.1.6, and the length; a message inside the output buffer is signed as the upward copy leaves it |
| Signing.SignedIsRfc | scaffold/src/tweetnacl.c:711-741 | the signature of a generated key written out from the seed: prefix, nonce, R = [r]B, challenge, S, message |
| Signing.NonceCollision | scaffold/src/tweetnacl.c:723-729 | for any hash, two messages or two prefixes have one nonce if and only if prefix and message collide modulo L |
| Signing.ChallengeCollision | scaffold/src/tweetnacl.c:733-734 | the same for the challenge in R, public key and message |
| Signing.SameR | scaffold/src/tweetnacl.c:723-731 | with L prime, two signatures have one R exactly in that case |
| Sign.CopiedUpExactly | scaffold/src/tweetnacl.c:723 | the upward copy inside one buffer keeps the message if and only if it moves it down or the message repeats itself at the distance |
| Sign.CryptoSignOpen | scaffold/src/tweetnacl.c:779-809 | success exactly when the packed [h](-A) + [S]B is R, then message and length; zeros otherwise; in place S is read after the key has overwritten it |
| Group.SignatureEquation | scaffold/src/tweetnacl.c:794-797 | [h](-A) + [S]B = [r]B for S = h a + r modulo the order |
| Sign.SignThenOpen | scaffold/src/tweetnacl.c:656-809 | what a generated key signs is accepted and gives the same message, for every message |
| Acceptance.AcceptanceMeans | scaffold/src/tweetnacl.c:779-809 | for every key and message: opened if and only if the key unpacks and R is the encoding of [k mod L](-A) + [S]B in the group |
| Acceptance.KeyDecodes | scaffold/src/tweetnacl.c:743-788 | the RFC decodes a key to A if and only if unpackneg gives -A and the key is canonical |
| Acceptance.RfcAcceptsExactly | scaffold/src/tweetnacl.c:779-809 | RFC 8032 section 5.1.7 with k mod L accepts if and only if the code does, S < L and the key is canonical |
| Acceptance.UnreducedChallenge | scaffold/src/tweetnacl.c:792-794 | with k not reduced: agreement when [k]A = [k mod L]A, otherwise the two never both accept |
| Acceptance.RfcAcceptsSubgroupKey | scaffold/src/tweetnacl.c:779-809 | for keys with [L]A = 0 the RFC accepts if and only if the code does and S < L |
| Acceptance.GeneratedKey | scaffold/src/tweetnacl.c:656-673 | every generated key decodes to such an A |
| Acceptance.AcceptedHasCofactorEquation | scaffold/src/tweetnacl.c:779-809 | accepted with S < L and a canonical key: [8][S]B = [8]R + [8][k]A holds for the unreduced k |
| Acceptance.SecondResponse | scaffold/src/tweetnacl.c:796 | S and S + L are accepted for the same messages, and the RFC refuses S + L |
| Acceptance.SignatureHasSecond | scaffold/src/tweetnacl.c:656-809 | every signature of a generated key has such a second, accepted response |
| Base64.B64Url | scaffold/src/card_signing.h:29-43 | the digits of RFC 4648 in groups of three bytes, without padding |
| Tables.LetterOfTable | scaffold/src/card_signing.h:30 | digit v is letter v of the table of RFC 4648, for both alphabets |
| Tables.HexDigitOfTable | scaffold/src/card_signing.h:49 | digit v is letter v of 0123456789abcdef |
| Base64.SextetsNumber | scaffold/src/card_signing.h:33-41 | the digits are the number of the bytes, shifted by the filling bits |
| Base64.DecodeUrl | scaffold/src/card_signing.h:97-112 | refused exactly for a character outside the alphabet; otherwise whole bytes of the digits' number, with the 32-bit accumulator |
| Base64.DigitWritten | scaffold/src/card_signing.h:110-111 | the low 32 bits that are held determine each byte written |
| Base64.UrlDecodes | scaffold/src/card_signing.h:29-112 | decoding what was encoded gives the data and nothing else |
| Base64.AgentB64Decode | scaffold/src/agent_module_impl.cpp:78-90 | the same number for the known characters before the first '=', with a wrapping signed accumulator |
| Base64.PaddedDecodes | scaffold/src/agent_module_impl.cpp:78-90 | it undoes the padded encoding of RFC 4648 section 4 |
| Base64.Hex | scaffold/src/card_signing.h:48-53 | two digits a byte |
| Base64.Unhex | scaffold/src/card_signing.h:54-70 | pairs of digits, nothing for any other text |
| Base64.HexRoundTrip | scaffold/src/card_signing.h:48-70 | reading what was written gives the bytes back |
| CardSigning.Generate | scaffold/src/card_signing.h:75-79 | both keys in hexadecimal |
| CardSigning.SignDetached | scaffold/src/card_signing.h:82-90 | the encoded first 64 bytes of the signed message, or the error |
| CardSigning.VerifyDetached | scaffold/src/card_signing.h:93-120 | true exactly when the text decodes to 64 bytes that sign the message under the key |
| CardSigning.VerifiesMeans | scaffold/src/card_signing.h:93-120 | a text that decodes to 64 bytes verifies if and only if the key has 32 bytes, unpacks, and R encodes [k mod L](-A) + [S]B |
| CardSigning.DetachedVerifies | scaffold/src/card_signing.h:75-120 | verify_detached accepts every output of sign_detached_b64url for a generated key |
| SpendGate.AgentModule.WithinThreshold | scaffold/src/agent_module_impl.cpp:384-420 | the answer and the state after a possible reset of the counter |
| SpendGate.AgentModule.RecordSpend | scaffold/src/agent_module_impl.cpp:423-426 | the counter in memory and on disk |
| SpendGate.AgentModule.CreatePendingProposal | scaffold/src/agent_module_impl.cpp:430-480 | the proposal is stored and saved whether or not the owner is reached in three attempts |
| SpendGate.AgentModule.WalletSend | scaffold/src/agent_module_impl.cpp:875-956 | held, failed or sent and recorded, with the state after each |
| SpendGate.AgentModule.ProgramCall | scaffold/src/agent_module_impl.cpp:998-1029 | the same; a call without amount is not recorded |
| SpendGate.AgentModule.ProgramDeploy | scaffold/src/agent_module_impl.cpp:1031-1057 | held whenever there is a limit per transaction |
| SpendGate.AgentModule.ApprovePending | scaffold/src/agent_module_impl.cpp:1735-1835 | refused unless pending; otherwise the nine steps one after the other |
| SpendGate.AgentModule.RejectPending | scaffold/src/agent_module_impl.cpp:1837-1869 | refused for executed and rejected proposals |
| SpendGate.AgentModule.MetaConfigure | scaffold/src/agent_module_impl.cpp:1696-1722 | the key is set whatever it is; limits, period and file follow the configuration; only the empty key is refused |
| SpendGate.AgentModule.LoadAll | scaffold/src/agent_module_impl.cpp:285-315 | memory after a restart is what was on disk |
| SpendGate.StepKeeps | scaffold/src/agent_module_impl.cpp:384-426 | every event keeps: memory and disk agree, limits in force are the configured ones, one call a proposal, counter at least the autonomous sum |
| SpendGate.ApproveKeeps | scaffold/src/agent_module_impl.cpp:1754-1816 | wherever an approval stops the invariant holds and the limits on disk are untouched |
| SpendGate.CrashInApproval | scaffold/src/agent_module_impl.cpp:1754-1809 | after a crash the proposal is pending with no call made, or can never be approved again; the limits are the configured ones |
| SpendGate.AtMostOneCall | scaffold/src/agent_module_impl.cpp:1735-1835 | over any run with crashes anywhere the wallet is called at most once for a proposal |
| SpendGate.ClosedForever | scaffold/src/agent_module_impl.cpp:1743-1756 | a proposal that is no longer pending stays so and is never executed |
| SpendGate.RejectedNeverRuns | scaffold/src/agent_module_impl.cpp:1837-1853 | a proposal rejected while pending is never executed |
| SpendGate.AutonomousSpendBounded | scaffold/src/agent_module_impl.cpp:384-426 | with unchanged limits the recorded autonomous amounts since the last reset obey both limits in every run; what was sent exceeds them by what crashes lost |
| SpendGate.AutonomousCallsFit | scaffold/src/agent_module_impl.cpp:416-419 | over the same runs every call made without approval is within the limit per transaction, also one that a crash kept from the record |
| SpendGate.StepCovered | scaffold/src/agent_module_impl.cpp:884-890 | an event leaves what was sent covered by the counter if and only if it is not a crash right after a successful call that overdraws it |
| SpendGate.AutonomousSentBounded | scaffold/src/agent_module_impl.cpp:883-890 | from the start, what was sent stays within the period's limit in every run without such a crash, with any limit per transaction |
| SpendGate.SentBoundExactly | scaffold/src/agent_module_impl.cpp:883-890 | from any state, what is sent stays within the limit in every such run if and only if it does now and is covered, or no positive amount can pass |
| SpendGate.SentBeyondLimit | scaffold/src/agent_module_impl.cpp:884-890 | for all 0 < a <= b: a run with such a crash in which a + b is sent under the limit b |
| SpendGate.EverythingPasses | scaffold/src/agent_module_impl.cpp:393-403 | every well-formed amount passes if and only if both limit texts are empty or "0" |
| SpendGate.NothingPasses | scaffold/src/agent_module_impl.cpp:393-419 | no positive amount passes if and only if some other text, "0.0" for one, is at most zero or the counter has reached the limit |
| SpendHistory.RequestExactly | scaffold/src/agent_module_impl.cpp:384-420 | a request reaches the wallet if and only if amount, limits, clock and counter allow it; otherwise no call is made and a proposal waits |
| SpendHistory.CountedExactly | scaffold/src/agent_module_impl.cpp:409-426 | the counter after a request: what it was, or zero in a new period, and the amount of a call that succeeded |
| SpendHistory.ResetExactly | scaffold/src/agent_module_impl.cpp:405-414 | a new window starts exactly for a well-formed gated request when the counter was never started or is a period old |
| SpendHistory.PeriodKept | scaffold/src/agent_module_impl.cpp:405-414 | over any run with requests less than a period after the start: the start stays, and what was recorded stays counted |
| SpendHistory.OnePeriodBounded | scaffold/src/agent_module_impl.cpp:384-426 | so all that is recorded without approval in one period is within the limits |
| SpendHistory.AnyPeriodBounded | scaffold/src/agent_module_impl.cpp:384-426 | in any stretch of time not longer than a period at most twice the limit is recorded |
| SpendHistory.TwiceTheLimit | scaffold/src/agent_module_impl.cpp:405-414 | for every limit and period a run of two seconds in which twice the limit is recorded |
| SpendHistory.SettingsAreLast | scaffold/src/agent_module_impl.cpp:1696-1722 | after any run with crashes anywhere, limits and period in force are the ones set last |
| SpendHistory.ApprovedCall | scaffold/src/agent_module_impl.cpp:1758-1800 | the call of an approval field by field: action, recipient, vpk, parameters, amount |
| SpendHistory.DataKept | scaffold/src/agent_module_impl.cpp:430-480 | no event changes what a proposal is about |
| SpendHistory.HeldThenApproved | scaffold/src/agent_module_impl.cpp:875-956 | a transfer that is held and approved later, after any events, is called exactly as it was asked for |
| SpendHistory.HeldProgramApproved | scaffold/src/agent_module_impl.cpp:1779-1800 | of a held program call only the program is left; a held deployment is made as asked |
| SpendGate.ApprovalCounts | scaffold/src/agent_module_impl.cpp:1758-1816 | an approval makes one call and adds the amount of a transfer twice |
| SpendGate.HeldAgainUnderApproval | scaffold/src/agent_module_impl.cpp:1760-1769 | an approved malformed amount is held again: no call, a new pending proposal |

## Left out

- Primality of 2^255 - 19, associativity of the addition law and the order of the base point: hypotheses, see above.
- Constant time, secrecy of keys, unforgeability and collision resistance: not functional correctness.
- Scalar.ModL: does not model that products with the unsigned constant L are formed modulo 2^64; the mathematical value is proved to fit, so nothing changes.
- Montgomery.X25519Multiplies: does not cover u-coordinates of the twist, which belong to no point of this curve.
- X25519.CryptoScalarmult: does not model that x[80] is one array; the windows used for the unpacked coordinate and the final inverse are separate arrays.
- Edwards.AddPoints: does not model partial overlap of the two points; they are one point or share no limbs.
- Sign.CryptoSign: does not model a secret key inside the output buffer; keys and hashed inputs are sequences.
- Sign.CryptoSignOpen: does not model buffers that overlap at different offsets, nor a public key inside them.
- Loops of the C functions are bodies of their own methods where the proof needs it; order and effect of the statements are the same.
- crypto_box: calls of functions modelled here, one after the other.
- randombytes is a 32-byte parameter.
- Amounts are reals, negative when malformed; the syntax of std::stod and rounding of doubles are not modelled. Limit texts other than the empty one and `0` are their parsed amounts, and a malformed period is the default before it reaches the model.
- A program_call whose amount is not a text fails before the gate; this error path is not an event.
- Task entries that share the map of proposals, the owner's messages, events and JSON envelopes.
- SpendGate.AutonomousSpendBounded: does not cover a run in which limits are changed, where only the counter's lower bound is kept.
- SpendGate.AgentModule.ApprovePending: does not model threads; calls come one after the other.
- Discovery, storage, messaging and the rest of the agent's skills; the wallet core behind the module.
