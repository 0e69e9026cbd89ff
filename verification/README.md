# Verified models of the network's algorithmic cores

This project models the self-contained algorithms of the repository and proves what they are for.

* **Kyber** (`utils/kyber`): 16-bit Montgomery and Barrett arithmetic, the in-place number-theoretic transform, pairwise base products, the byte and rounding codecs, and the public-key encryption built from them (sections 4.2.1, 4.3, 4.3.1 and 5 of FIPS 203).
* **Reed–Solomon** (`utils/berkleamp-welch`): the generated tables of the 256-element field, the nibble-table kernels, polynomial division, Gauss–Jordan elimination, the closed-form Vandermonde inverse, systematic encoding, syndromes, Berlekamp–Welch decoding and rebuilding.
* **Falcon** (`utils/falcon/falcon/src`): the branch-free hash-to-point against the rejection loop (section 3.7 of the Falcon specification v1.2) and the three bit codecs (sections 3.11.2, 3.11.4 and 3.11.5).
* **Merkle tree** (`utils/merkle-tree`): append, proof and root on a flat in-order vector against the recursive tree (sections 2.1 and 2.1.1 of RFC 6962, without the hash prefixes).
* **Routing table** (`core/dht`): sorted insertion and removal, and the two-ended sweep by circular distance.
* **Chat** (`core/chat-spec/src/chat.rs`, `nodes/server/src/handlers/chat.rs`): message retention in place, block hashing, and the block protocol of one replica as a state machine and as the class that runs it.

## How the model is built

Code that computes a value is a function with lemmas about it. Code that changes buffers in place is a method on an `array`, `array2` or class, proved equal to such a function. Files are named after the component; `division.dfy`, `bit_words.dfy` and `sorting.dfy` hold shared arithmetic, word operations on integers, and sorting by key; `common.dfy` holds shared types.

Conventions a reader should know:

* Row-major byte buffers that hold matrices are `array2<Elem>`, where `Elem` is a byte; flat data buffers stay flat.
* Kyber words are integers in the 16-bit range, so every store is an obligation that nothing overflows. An "or" of parts without common bits is written as a sum in the Kyber codecs; in the Falcon files, `And`, `Or`, `Xor`, shifts and the wrap-around at 32 bits are written out on integers.
* `Cong` and `CongPoly` are equality modulo 3329; `CongPoly(InvNttToMont(...), Scale(R, ...))` carries the factor 2^16 that the code leaves in place.
* A polynomial over the byte field is its list of coefficients; two of them with at most 256 coefficients are equal if they agree at all 256 points, which is how division and decoding are stated.
* Seeds, random numbers, the extendable-output function, the network and the hash functions are parameters: sampled matrices, secrets and noise are arbitrary inputs within the bounds the arithmetic needs, and the hash functions of trees and chat blocks are arbitrary functions.

## What the proofs say about the code

* `mul_slice_in_place` in its vector form adds the product to the old contents instead of replacing them (`utils/berkleamp-welch/src/galois.rs:110-114`); `LaneScalingIsScaling` gives the exact condition under which the two forms agree: the whole chunks are zero. Matrix rows and polynomials are scaled by the scalar form in this model.
* `berklekamp_welch` decodes whenever at most e of the used shares are wrong (`BerlekampWelch`). It finds every pivot exactly when e of them are wrong (`PivotsFoundIffExactErrors`); with fewer, the last columns of the key matrix depend on the others, elimination passes over them, and what it returns is a solution all the same (`KeyLeads`, `ReducedSolves`). Only the debug assertion that every diagonal entry is one (`utils/berkleamp-welch/src/math.rs:68`) fails then (`DiagonalShowsPivots`).
* `dec` inverts `enc` exactly when every centred noise coefficient lies in a window that is one narrower on one side for a message bit of one (`DecryptionInvertsEncryption`).
* `hash_to_point_ct` equals the rejection loop exactly when enough of the drawn samples are accepted; otherwise a marker stays in the output (`HashToPointCt`, `SamePoint`).
* A chat replica that is outvoted before it has closed its own block n enters recovery with its block number still n, so it waits for number n - 1, while the others vote for n: the winning block is answered with "outdated". `RecoveryNeedsProposal` gives the exact condition for one replica and any state: the block is taken in if and only if the replica has a proposal of its own and the number is its own. `OutvotedAtEveryNumber` gives a run with the refusal for every block number.
* Taking the winning block in does not end recovery (`nodes/server/src/handlers/chat.rs:205-221`). It ends exactly when the replica closes a block with the hash it waits for, and only if it neither entered recovery with a proposal nor closed a block in it before (`RecoveryEnds`); otherwise it never ends and no block is closed again (`ClosedRecoveryIsFinal`). `OwnBlockLocksRecovery` gives a run into such a recovery for every block number and all hash functions; `RecoveryOutlivesItsBlock` gives one that takes the winning block in and stays, for every block number, wherever two blocks hash differently and none hashes to zero.
* No accepted message is lost silently: it stays in the current block or the proposal until that block is settled, until another hash has won and the block is given up, or until recovery takes in a block that contains it (`AcceptedStands`). Giving a block up is what the code does with the proposal when recovery begins or another block is taken in (`nodes/server/src/handlers/chat.rs:152-159`, `nodes/server/src/handlers/chat.rs:199-201`), and with a block closed in recovery under a different hash (`nodes/server/src/handlers/chat.rs:366-374`).
* Outside recovery one block is settled for each number (`OneBlockPerNumber`). In recovery the same block joins the history each time it is received, and 32 receipts push everything else out (`ReceivedAgain`).

## Model

| member | source | states |
|---|---|---|
| `KyberArith.MontgomeryReduce` | utils/kyber/src/mondgomery.rs:5-9 | for every product in range the result times 2^16 is congruent to the input and lies strictly between -3329 and 3329; the shift is exact |
| `KyberArith.BarrettReduce` | utils/kyber/src/barrett.rs:3-7 | for every 16-bit word, the congruent representative within 1664 of zero |
| `KyberArith.FqMul` | utils/kyber/src/ntt.rs:12-14 | the product of two words times 169, the inverse of 2^16 modulo 3329, strictly between -3329 and 3329 |
| `KyberZetas.Doubling` | utils/kyber/src/ntt.rs:1-10 | the whole table of twiddle factors is generated by its first entry and seven steps |
| `KyberZetas.ChildSquare` | utils/kyber/src/ntt.rs:1-10 | the twiddle factors of the two children square to plus and minus that of their parent: X^2m - z^2 splits into X^m - z and X^m + z |
| `KyberZetas.Mirror` | utils/kyber/src/ntt.rs:31-35 | mirrored entries of a layer multiply to -1, so the table read backwards supplies the inverses up to sign |
| `KyberRing.ProductSplit` | utils/kyber/src/ntt.rs:19-26 | one butterfly layer maps a product modulo X^2m - w^2 to the product modulo X^m - w on each side |
| `KyberRing.LayerMul` | utils/kyber/src/ntt.rs:16-29 | a whole layer turns chunk-wise ring products into chunk-wise ring products of half the length |
| `KyberTransform.NttMul` | utils/kyber/src/poly.rs:85-107 | the transform of a product in Z_3329[X]/(X^256+1) is the pairwise base product of the transforms |
| `KyberTransform.LayerRoundTrip` | utils/kyber/src/ntt.rs:37-42 | an inverse layer after a layer, and a layer after an inverse layer, double every coefficient |
| `KyberTransform.TransformRoundTrip` | utils/kyber/src/poly.rs:85-92 | transform and inverse transform, in either order, multiply every coefficient by 2^16 modulo 3329 |
| `KyberTransform.ProductThroughTransform` | utils/kyber/src/poly.rs:85-107 | the inverse transform of the base product of transforms is 2^16 times the ring product |
| `KyberTransform.InvNttLinear` | utils/kyber/src/poly.rs:90-92 | the inverse transform is additive, homogeneous, and respects congruence |
| `KyberLoops.ForwardButterfly` | utils/kyber/src/ntt.rs:22-26 | one butterfly in place: both new words, congruence and growth of the range |
| `KyberLoops.NttLayers` | utils/kyber/src/ntt.rs:16-29 | seven layers in place compute the transform without overflow, for the stated input range |
| `KyberLoops.NttInPlace` | utils/kyber/src/poly.rs:85-88 | the array ends up congruent to the transform of its old contents, within 1664 |
| `KyberLoops.InverseButterfly` | utils/kyber/src/ntt.rs:37-42 | one inverse butterfly in place, with its Barrett and Montgomery ranges |
| `KyberLoops.InvNttInPlace` | utils/kyber/src/ntt.rs:31-49 | the array ends up congruent to the inverse transform of its old contents, within 3328 |
| `KyberLoops.Reduce` | utils/kyber/src/poly.rs:116-120 | every word is replaced by its closest representative |
| `KyberLoops.BaseMulCong` | utils/kyber/src/ntt.rs:51-57 | the two words of a base product are the two coefficients of the product modulo X^2 - zeta, times 169 |
| `KyberProduct.MulAssoc` | utils/kyber/src/poly.rs:94-107 | the base product of whole transforms is associative |
| `KyberProduct.MulComm` | utils/kyber/src/poly.rs:94-107 | and commutative |
| `KyberProduct.MulDistributes` | utils/kyber/src/poly.rs:94-107 | and distributes over addition and subtraction |
| `KyberProduct.BaseMulMontgomery` | utils/kyber/src/poly.rs:94-107 | 128 base products give 169 times the product, within 6656 |
| `KyberProduct.BaseMulAcc` | utils/kyber/src/polyvec.rs:67-87 | the accumulated and reduced products give 169 times the dot product, and no sum overflows |
| `KyberProduct.ToMont` | utils/kyber/src/poly.rs:109-114 | every coefficient is multiplied by 2^16 modulo 3329 |
| `KyberProduct.DotThroughTransform` | utils/kyber/src/polyvec.rs:55-87 | back-transforming the scaled dot product of transforms gives the inner product in the ring |
| `KyberProduct.InnerProduct` | utils/kyber/src/polyvec.rs:55-87 | transform, accumulate, back-transform: the words computed are the ring inner product of the old contents, for all inputs within 9471 |
| `KyberCodec.Lift` | utils/kyber/src/poly.rs:13-13 | adding q to negative words gives the canonical representative |
| `KyberCodec.ToBytes` | utils/kyber/src/poly.rs:35-42 | every three bytes hold two lifted 12-bit coefficients |
| `KyberCodec.FromBytes` | utils/kyber/src/poly.rs:44-51 | every two coefficients are read from their three bytes |
| `KyberCodec.BytesRoundTrip` | utils/kyber/src/poly.rs:35-51 | reading written bytes returns the lifted coefficients |
| `KyberCodec.BytesReencode` | utils/kyber/src/poly.rs:35-51 | writing read coefficients returns the bytes |
| `KyberCodec.CompressNearest` | utils/kyber/src/poly.rs:8-22 | compression is the nearest whole multiple of q / 2^d, counted modulo 2^d |
| `KyberCodec.DecompressNearest` | utils/kyber/src/poly.rs:24-33 | decompression is the whole number nearest to y q / 2^d, the upper one at a tie |
| `KyberCodec.RoundingError` | utils/kyber/src/poly.rs:8-33 | decompression after compression moves a value by at most 104 (4 bits), 2 (10 bits) or 832 (1 bit), modulo q |
| `KyberCodec.CompressDecompress` | utils/kyber/src/poly.rs:8-33 | compression after decompression changes nothing |
| `KyberCodec.CompressBit` | utils/kyber/src/poly.rs:61-71 | the one-bit compression is one exactly on 833 to 2496 |
| `KyberCodec.CompressPoly` | utils/kyber/src/poly.rs:8-22 | every byte holds the compressions of two coefficients |
| `KyberCodec.DecompressPoly` | utils/kyber/src/poly.rs:24-33 | every two coefficients are the decompressions of a byte's halves, each the nearest whole number |
| `KyberCodec.Compressed4RoundTrip` | utils/kyber/src/poly.rs:8-33 | each coefficient comes back as the decompression of its compression |
| `KyberCodec.CompressPoly10` | utils/kyber/src/polyvec.rs:11-24 | every five bytes hold the 10-bit compressions of four coefficients |
| `KyberCodec.DecompressPoly10` | utils/kyber/src/polyvec.rs:26-37 | every four coefficients are the decompressions of five bytes' fields, each the nearest whole number |
| `KyberCodec.Compressed10RoundTrip` | utils/kyber/src/polyvec.rs:11-37 | each coefficient comes back as the decompression of its compression |
| `KyberCodec.FromMsg` | utils/kyber/src/poly.rs:53-59 | every message bit becomes zero or (q + 1) / 2 |
| `KyberCodec.ToMsg` | utils/kyber/src/poly.rs:61-71 | every message bit is the one-bit compression of its coefficient |
| `KyberCodec.BitsDetermineByte` | utils/kyber/src/poly.rs:61-71 | a byte is determined by its eight bits |
| `KyberBytes.ToBytesEncodes` | utils/kyber/src/poly.rs:35-42 | the bytes, read as one little-endian number, have the lifted coefficients as digits to base 4096 |
| `KyberBytes.FromBytesDecodes` | utils/kyber/src/poly.rs:44-51 | the coefficients read are those digits |
| `KyberBytes.CompressEncodes` | utils/kyber/src/poly.rs:8-22 | the bytes have the 4-bit compressions as digits to base 16 |
| `KyberBytes.DecompressDecodes` | utils/kyber/src/poly.rs:24-33 | every coefficient is nearest to its digit to base 16 |
| `KyberBytes.CompressEncodes10` | utils/kyber/src/polyvec.rs:11-24 | the bytes have the 10-bit compressions as digits to base 1024 |
| `KyberBytes.DecompressDecodes10` | utils/kyber/src/polyvec.rs:26-37 | every coefficient is nearest to its digit to base 1024 |
| `KyberBytes.FromMsgDecodes` | utils/kyber/src/poly.rs:53-59 | every set binary digit of the message becomes 1665, every other one zero |
| `KyberBytes.ToMsgEncodes` | utils/kyber/src/poly.rs:61-71 | the binary digits of the message say which coefficients lie nearer to q / 2 than to zero |
| `KyberPke.KeyPair` | utils/kyber/src/indcpa.rs:102-123 | the encoded keys are those of A s + e and s in the transformed domain |
| `KyberPke.Enc` | utils/kyber/src/indcpa.rs:125-154 | the ciphertext bytes are the compressions of the transposed product plus noise and of the payload |
| `KyberPke.Dec` | utils/kyber/src/indcpa.rs:156-168 | the message is the one-bit compression of v minus s times u |
| `KyberCorrectness.TransposeLaw` | utils/kyber/src/indcpa.rs:108-140 | (A s) . r equals s . (A^T r), the identity that makes the two sides meet |
| `KyberCorrectness.Recovered` | utils/kyber/src/indcpa.rs:102-168 | what `dec` computes before rounding is the message polynomial plus the total noise, modulo q |
| `KyberCorrectness.DecryptionInvertsEncryption` | utils/kyber/src/indcpa.rs:102-168 | for every matrix, keys, noise and message: decryption returns the message if and only if every centred noise coefficient is tolerable for its bit |
| `KyberCorrectness.RoundingBounds` | utils/kyber/src/polyvec.rs:11-37 | the rounding parts of the noise are at most 2 and 104 |
| `KyberCorrectness.SmallNoiseDecrypts` | utils/kyber/src/indcpa.rs:102-168 | noise within 831 of zero always decrypts |
| `KyberCorrectness.Exchange` | utils/kyber/src/indcpa.rs:102-168 | key generation, encryption and decryption in sequence return the message if and only if the noise is tolerable, for all sampled inputs within 9471 |
| `Gf256.PowDistinct` | utils/berkleamp-welch/build.rs:9-24 | the first 255 powers of two are distinct: 2 generates the field with polynomial 29 |
| `Gf256.PowSurjective` | utils/berkleamp-welch/build.rs:9-24 | and every non-zero byte is one of them |
| `Gf256.MulComm` | utils/berkleamp-welch/build.rs:40-54 | table multiplication is commutative |
| `Gf256.MulAssoc` | utils/berkleamp-welch/build.rs:40-54 | and associative |
| `Gf256.MulAdd` | utils/berkleamp-welch/build.rs:40-54 | and distributes over exclusive or on both sides |
| `Gf256.MulInverse` | utils/berkleamp-welch/build.rs:98-108 | every non-zero byte has the tabulated inverse |
| `Gf256.MulNonZero` | utils/berkleamp-welch/build.rs:40-54 | products of non-zero bytes are non-zero |
| `Gf256.MulIsShiftAdd` | utils/berkleamp-welch/build.rs:40-54 | multiplication by logarithms is polynomial multiplication by shifting and adding modulo x^8 + 29 |
| `Gf256.AddLaws` | utils/berkleamp-welch/src/galois.rs:4-6 | exclusive or is an addition in which every element is its own negative |
| `GfTables.GenLogTable` | utils/berkleamp-welch/build.rs:9-24 | entry b is the exponent of b, and entry zero stays zero |
| `GfTables.GenExpTable` | utils/berkleamp-welch/build.rs:28-38 | all 510 entries are powers of two, so sums of two logarithms need no reduction |
| `GfTables.Multiply` | utils/berkleamp-welch/build.rs:40-54 | the lookup is the field product |
| `GfTables.GenMulTable` | utils/berkleamp-welch/build.rs:56-69 | all 65536 cells are products |
| `GfTables.GenMulTableHalf` | utils/berkleamp-welch/build.rs:71-96 | the low and high tables hold the products with low-half and high-half bytes |
| `GfTables.GenInvTable` | utils/berkleamp-welch/build.rs:98-108 | every non-zero entry is the inverse |
| `GfTables.Div` | utils/berkleamp-welch/src/galois.rs:14-34 | none exactly for a zero divisor, else the true quotient |
| `GfTables.ExpByLog` | utils/berkleamp-welch/src/galois.rs:37-50 | the value is iterated multiplication, including exponent zero and base zero |
| `GfTables.MulByHalves` | utils/berkleamp-welch/src/galois.rs:87-91 | a product is the sum of the products with both halves of the byte |
| `GfTables.NibbleProduct` | utils/berkleamp-welch/src/galois.rs:87-91 | one vector lane computes the field product |
| `GfTables.MulSliceXor` | utils/berkleamp-welch/src/galois.rs:74-96 | for every constant, slice and lane width the nibble and byte tables together add the product to every byte and touch nothing else |
| `GfTables.MulSliceXorLow` | utils/berkleamp-welch/src/galois.rs:124-131 | the byte-table loop does the same on its part |
| `GfTables.MulSliceInPlaceLow` | utils/berkleamp-welch/src/galois.rs:138-143 | the byte-table loop scales every byte |
| `GfTables.MulSliceInPlace` | utils/berkleamp-welch/src/galois.rs:99-117 | what the vector form leaves: sums on whole chunks, products on the remainder |
| `GfTables.LaneScalingIsScaling` | utils/berkleamp-welch/src/galois.rs:99-117 | the vector form scales the slice if and only if its whole chunks are zero |
| `GfTables.LaneScalingDiffers` | utils/berkleamp-welch/src/galois.rs:65-117 | multiplying one full chunk of ones by one, at either lane width of 16 or 32, leaves zeros in vector form and ones in scalar form |
| `GfPoly.RootsDetermine` | utils/berkleamp-welch/src/math.rs:312-318 | a polynomial with as many distinct roots as coefficients is zero |
| `GfPoly.AgreeDetermines` | utils/berkleamp-welch/src/math.rs:312-318 | polynomials that agree at enough distinct points have the same coefficients |
| `GfPoly.EvalProduct` | utils/berkleamp-welch/src/math.rs:312-318 | evaluation is multiplicative |
| `GfPoly.QuotientUnique` | utils/berkleamp-welch/src/math.rs:270-310 | quotient and remainder are unique |
| `GfDivision.PolyBuf.Sanitize` | utils/berkleamp-welch/src/math.rs:248-252 | trailing zeros go, one coefficient stays |
| `GfDivision.PolyBuf.Push` | utils/berkleamp-welch/src/math.rs:254-258 | appends, refused exactly when the storage is full |
| `GfDivision.Round` | utils/berkleamp-welch/src/math.rs:285-302 | one round cancels the leading coefficient and records its quotient digit |
| `GfDivision.Div` | utils/berkleamp-welch/src/math.rs:270-310 | none exactly for a zero divisor, else quotient and remainder of Euclidean division with a zero or shorter remainder, for every dividend of at most 255 coefficients |
| `GfMatrix.SwapRows` | utils/berkleamp-welch/src/math.rs:141-145 | two rows change places and nothing else |
| `GfMatrix.AddMulRows` | utils/berkleamp-welch/src/math.rs:148-157 | a multiple of one row is added to another |
| `GfMatrix.CompanionTimesOriginal` | utils/berkleamp-welch/src/math.rs:33-69 | at every step the companion matrix times the original is the working matrix |
| `GfMatrix.NoPivotMeansDepends` | utils/berkleamp-welch/src/math.rs:37-40 | a column without pivot is a combination of the columns before it in the original matrix |
| `GfMatrix.NoPivotMeansKernel` | utils/berkleamp-welch/src/math.rs:37-40 | a column without pivot betrays a non-trivial kernel of the original matrix |
| `GfMatrix.LeftoverRows` | utils/berkleamp-welch/src/math.rs:37-40 | if exactly the first t columns of the original are independent and span the rest, the rows below the last pivot are zero after elimination |
| `GfMatrix.DiagonalShowsPivots` | utils/berkleamp-welch/src/math.rs:68-68 | the debug assertion on the diagonal holds if and only if every pivot was found |
| `GfMatrix.ReducedSolves` | utils/berkleamp-welch/src/math.rs:33-69 | the companion then solves every system that has a solution, also when pivots are missing |
| `GfMatrix.IdentityMeansInverse` | utils/berkleamp-welch/src/math.rs:33-69 | if the working matrix became the identity, the companion is a two-sided inverse and there is no kernel |
| `GfMatrix.InvertMatrixWith` | utils/berkleamp-welch/src/math.rs:33-69 | the working matrix becomes the identity if and only if the original has no kernel, and then the companion is its two-sided inverse; where only the first t columns are independent, t pivots are found and all else is cleared |
| `GfStandard.AddedSpan` | utils/berkleamp-welch/src/math.rs:148-157 | adding a multiple of a row keeps the row space |
| `GfStandard.StandardizeMatrix` | utils/berkleamp-welch/src/math.rs:6-31 | the row space is kept and the leading block becomes the identity if and only if it is regular |
| `GfStandard.ParityMatrix` | utils/berkleamp-welch/src/math.rs:71-86 | the rows written are a column of the standard form followed by a unit row |
| `GfStandard.ParityRecognises` | utils/berkleamp-welch/src/math.rs:71-86 | in standard form the parity rows vanish on a vector if and only if it lies in the row space |
| `RsEncode.MasterCoefficients` | utils/berkleamp-welch/src/math.rs:167-177 | the first loop leaves the coefficients of the polynomial with all points as roots |
| `RsEncode.DivideByPoint` | utils/berkleamp-welch/src/math.rs:183-188 | the second loop divides it by X - p and evaluates the quotient at p |
| `RsEncode.BasisValues` | utils/berkleamp-welch/src/math.rs:190-193 | the scaled quotients are the Lagrange basis: one at their own point, zero at the others |
| `RsEncode.CreateInvertedVdm` | utils/berkleamp-welch/src/math.rs:159-195 | column i of the top block receives the coefficients of basis polynomial i, and the rows below stay |
| `RsEncode.VandermondeInverse` | utils/berkleamp-welch/src/math.rs:159-195 | the powers of the points times those columns give the identity matrix: the block is the inverse of the Vandermonde matrix |
| `RsEncode.GeneratorMatrix` | utils/berkleamp-welch/src/fec.rs:23-42 | row r is the list of basis polynomials evaluated at point r, the identity on top included |
| `RsEncode.VandermondeMatrix` | utils/berkleamp-welch/src/fec.rs:44-53 | entry (r, c) is the r-th power of the decoder's point c |
| `RsEncode.Fec.constructor` | utils/berkleamp-welch/src/fec.rs:17-56 | both matrices are as stated |
| `RsEncode.InterpolantThroughData` | utils/berkleamp-welch/src/fec.rs:30-32 | the encoded polynomial takes the data bytes at the first points: the code is systematic |
| `RsEncode.InterpolantIsDot` | utils/berkleamp-welch/src/fec.rs:34-42 | a generator row times the data is the encoded polynomial at that row's point |
| `RsEncode.Fec.Encode` | utils/berkleamp-welch/src/fec.rs:70-94 | both length errors, and otherwise every parity byte is the value of its stripe's one polynomial of degree below `required` |
| `RsDecode.PointSteps` | utils/berkleamp-welch/src/fec.rs:234-240 | the points are 0, 1, 2, 4 and so on, each twice the one before |
| `RsDecode.ExplainsFactors` | utils/berkleamp-welch/src/fec.rs:246-269 | with few enough wrong shares any solution of the key equation satisfies Q = P E |
| `RsDecode.ExactMeansNoKernel` | utils/berkleamp-welch/src/fec.rs:246-264 | with exactly e wrong shares the key matrix has no kernel |
| `RsDecode.FewerMeansKernel` | utils/berkleamp-welch/src/fec.rs:246-264 | with fewer it has one |
| `RsDecode.PivotsFoundIffExactErrors` | utils/berkleamp-welch/src/fec.rs:246-264 | among shares with at most e errors every pivot is found if and only if there are e |
| `RsDecode.KeyLeads` | utils/berkleamp-welch/src/fec.rs:246-264 | with w <= e wrong shares the first q + w columns of the key matrix are independent, and each later column depends on earlier ones |
| `RsDecode.KeySolvable` | utils/berkleamp-welch/src/fec.rs:246-269 | with at most e wrong shares the key equation has a solution |
| `RsDecode.SolutionExplains` | utils/berkleamp-welch/src/fec.rs:246-269 | the unknowns solve the key equation if and only if Q(x) = r E(x) at every share for the completed locator E |
| `RsDecode.FillKeyEquation` | utils/berkleamp-welch/src/fec.rs:246-258 | the matrix and the right-hand side are those of the key equation at the shares' points |
| `RsDecode.SolveKeyEquation` | utils/berkleamp-welch/src/fec.rs:260-269 | the vector computed solves the key equation whenever there is no kernel, and whenever the equation has a solution and its leading columns span it, whether or not all pivots exist |
| `RsDecode.QuotientIsMessage` | utils/berkleamp-welch/src/fec.rs:271-278 | with at most as many wrong shares as locator coefficients the completed locator divides Q exactly and the quotient is the message polynomial |
| `RsDecode.FactorIsClose` | utils/berkleamp-welch/src/fec.rs:271-280 | conversely, a quotient without remainder has fewer than required coefficients and differs from at most e shares |
| `RsDecode.BerlekampWelch` | utils/berkleamp-welch/src/fec.rs:222-286 | whichever short polynomial differs from at most e of the used shares is returned at every position; where every pivot is found, the call succeeds if and only if there is one, and every failure is the same error |
| `RsCorrectness.CodewordAtDecoderPoints` | utils/berkleamp-welch/src/fec.rs:234-240 | the encoder's polynomial, rescaled, takes the share bytes at the decoder's points |
| `RsCorrectness.ColumnIsCodeword` | utils/berkleamp-welch/src/fec.rs:70-94 | every column `encode` produces is one polynomial read at the decoder's points |
| `RsCorrectness.DecodingRestoresEncoding` | utils/berkleamp-welch/src/fec.rs:222-286 | encode, corrupt at most e of the used shares, decode: every share's byte comes back, the data bytes among them |
| `RsCorrectness.EncodedSharesPass` | utils/berkleamp-welch/src/fec.rs:179-191 | any uncorrupted shares of an encoding pass the syndrome check |
| `RsCorrectness.CorruptionIsDetected` | utils/berkleamp-welch/src/fec.rs:179-191 | between one and n - required wrong bytes among n always fail it |
| `RsSyndrome.VandermondeRegular` | utils/berkleamp-welch/src/fec.rs:288-309 | distinct points give a regular leading block |
| `RsSyndrome.SpanIsCodewords` | utils/berkleamp-welch/src/fec.rs:288-309 | the row space of the selected columns is the set of codewords |
| `RsSyndrome.PresentColumns` | utils/berkleamp-welch/src/fec.rs:289-303 | the columns of the present shares are selected in order |
| `RsSyndrome.SyndromeMatrix` | utils/berkleamp-welch/src/fec.rs:288-309 | the parity rows vanish on the received bytes if and only if they are values of one polynomial of degree below `required` |
| `RsRebuild.InverseRowSolves` | utils/berkleamp-welch/src/math.rs:105-131 | the inverted row recovers the missing unknown |
| `RsRebuild.InvertMatrix` | utils/berkleamp-welch/src/math.rs:88-138 | on the identity with one row replaced, the inverse row takes its place |
| `RsRebuild.ParityRowNonZero` | utils/berkleamp-welch/src/fec.rs:34-42 | no entry of a parity row is zero, so the pivot exists |
| `RsRebuild.CompleteOrLacks` | utils/berkleamp-welch/src/fec.rs:101-120 | sorted shares with at most one parity share are complete or lack exactly one data share |
| `RsRebuild.MissingOne` | utils/berkleamp-welch/src/fec.rs:119-127 | the chained ranges then yield exactly the missing number |
| `RsRebuild.SortArranges` | utils/berkleamp-welch/src/fec.rs:128-141 | the second sort puts the stand-in at the missing place |
| `RsRebuild.ChunkIsBlock` | utils/berkleamp-welch/src/fec.rs:70-94 | data share n is the n-th block of the data |
| `RsRebuild.Rebuild` | utils/berkleamp-welch/src/fec.rs:96-159 | both error cases; whenever it succeeds, the data shares in use come back unchanged; and with at most one parity share in use it succeeds, every data block stands at its place, and a restored one is numbered down from the top |
| `FalconHash.SampleDigits` | utils/falcon/falcon/src/common.rs:38-38 | sample u is the u-th group of 16 binary digits of the stream, most significant first |
| `FalconHash.HashToPointVartime` | utils/falcon/falcon/src/common.rs:23-50 | the output is the list of the first accepted groups of 16 digits, modulo 12289 |
| `FalconHash.BranchlessIsRejection` | utils/falcon/falcon/src/common.rs:94-104 | the masked subtractions give the loop's residue, or the marker for a rejected sample |
| `FalconHash.MaskedSwap` | utils/falcon/falcon/src/common.rs:148-151 | the masked exclusive ors swap two cells or leave them |
| `FalconHash.DigitMask` | utils/falcon/falcon/src/common.rs:149-149 | the mask is all ones exactly if the displacement has the digit p |
| `FalconHash.PassStep` | utils/falcon/falcon/src/common.rs:120-155 | one step on the three buffers: the counter, and a swap exactly for an accepted value with that digit |
| `FalconHash.StepMidway` | utils/falcon/falcon/src/common.rs:120-155 | in the middle of a pass every accepted value stands at its computed place and all other cells hold the marker |
| `FalconHash.PassDone` | utils/falcon/falcon/src/common.rs:116-157 | after a pass every accepted value has lost the binary digit p of its displacement |
| `FalconHash.Compacted` | utils/falcon/falcon/src/common.rs:115-157 | once the stride exceeds every gap, cell k holds accepted sample k |
| `FalconHash.NotFilled` | utils/falcon/falcon/src/common.rs:115-157 | with too few accepted samples a marker is left among the first n cells |
| `FalconHash.BuffersSuffice` | utils/falcon/falcon/src/common.rs:58-83 | the samples fit the three buffers for every degree |
| `FalconHash.HashToPointCt` | utils/falcon/falcon/src/common.rs:52-158 | the first n accepted groups of 16 digits in order if there are that many, otherwise a marker remains |
| `FalconHash.SamePoint` | utils/falcon/falcon/src/common.rs:23-158 | on one stream the branch-free result equals the loop's if and only if enough of the drawn samples are accepted |
| `FalconHash.RejectionsAllowed` | utils/falcon/falcon/src/common.rs:58-82 | for each degree, there are enough exactly if no more are rejected than its number of extra samples |
| `FalconBits.StreamInjective` | utils/falcon/falcon/src/codec.rs:48-63 | bytes are determined by their digits |
| `FalconBits.StreamShape` | utils/falcon/falcon/src/codec.rs:48-63 | byte i is the i-th group of eight digits, most significant first |
| `FalconBits.ShiftInAppends` | utils/falcon/falcon/src/codec.rs:49-50 | shifting digits into the 32-bit accumulator appends them to the pending ones |
| `FalconBits.TopByte` | utils/falcon/falcon/src/codec.rs:51-56 | the byte written is the first eight pending digits |
| `FalconFixed.FieldsShape` | utils/falcon/falcon/src/codec.rs:48-63 | field i is the i-th group of w digits, most significant first |
| `FalconFixed.ModqEncode` | utils/falcon/falcon/src/codec.rs:16-64 | zero for an entry of 12289 or more or too little room, the length alone without a buffer, else the bytes pack the 14-bit fields with zero padding |
| `FalconFixed.ModqDecode` | utils/falcon/falcon/src/codec.rs:66-108 | succeeds if and only if the input starts with an encoding of n entries, and then yields them |
| `FalconFixed.ModqRoundTrip` | utils/falcon/falcon/src/codec.rs:16-108 | equal lists have equal encodings and equal encodings hold equal lists |
| `FalconTrim.EncodedField` | utils/falcon/falcon/src/codec.rs:261-265 | the masked byte is the two's complement of the value in the given width |
| `FalconTrim.DecodedField` | utils/falcon/falcon/src/codec.rs:315-324 | sign extension and the cast give the signed value, and the rejected pattern is that of the least value |
| `FalconTrim.TrimEncode` | utils/falcon/falcon/src/codec.rs:222-281 | zero for a value out of range or too little room, else the bytes pack the fields |
| `FalconTrim.TrimDecode` | utils/falcon/falcon/src/codec.rs:283-331 | succeeds if and only if the input starts with an encoding of n in-range values, and then yields them |
| `FalconTrim.TrimRoundTrip` | utils/falcon/falcon/src/codec.rs:222-331 | equal lists have equal encodings and equal encodings hold equal lists |
| `FalconComp.CodeCut` | utils/falcon/falcon/src/codec.rs:361-378 | no code of a value is the beginning of another one |
| `FalconComp.CodeShape` | utils/falcon/falcon/src/codec.rs:361-378 | a code is the sign, the low seven digits of the magnitude, one zero for each 128 in it, and a one |
| `FalconComp.CompEncode` | utils/falcon/falcon/src/codec.rs:333-403 | zero for a value beyond 2047 or too little room, else the length, and the bytes pack the codes |
| `FalconComp.DecodeValue` | utils/falcon/falcon/src/codec.rs:424-464 | reads the next value, or no beginning of the input encodes n values |
| `FalconComp.CompDecode` | utils/falcon/falcon/src/codec.rs:405-471 | succeeds if and only if some beginning of the input encodes n values, and then yields them and its length |
| `FalconComp.CompUnique` | utils/falcon/falcon/src/codec.rs:333-471 | an input begins with at most one encoding of n values, so decoding inverts encoding and accepted bytes re-encode to themselves |
| `MerkleShape.BlockLayout` | utils/merkle-tree/src/lib.rs:56-75 | every aligned block of leaves, clipped or not, is laid out contiguously inside the whole |
| `MerkleShape.SplitUnique` | utils/merkle-tree/src/lib.rs:52-54 | the split point is the greatest power of two below the number of leaves |
| `MerkleShape.RootInOrder` | utils/merkle-tree/src/lib.rs:30-54 | for an associative combine function the root is all leaves combined from left to right, each once |
| `MerkleTrees.MerkleTree.constructor` | utils/merkle-tree/src/lib.rs:26-28 | one leaf |
| `MerkleTrees.MerkleTree.FromBase` | utils/merkle-tree/src/lib.rs:30-49 | for a power of two of leaves the vector is their layout |
| `MerkleTrees.MerkleTree.Clear` | utils/merkle-tree/src/lib.rs:118-121 | one leaf again |
| `MerkleTrees.ComputeRecursively` | utils/merkle-tree/src/lib.rs:31-42 | the recursive pass over one slice leaves its layout and returns its root |
| `MerkleTrees.JoinRight` | utils/merkle-tree/src/lib.rs:64-71 | one level up from a right child: the cell written completes the larger block |
| `MerkleTrees.MerkleTree.Psuh` | utils/merkle-tree/src/lib.rs:56-75 | the vector is the layout of all leaves so far, so every node is the combination of its left and clipped right subtree |
| `MerkleTrees.MerkleTree.GetRoot` | utils/merkle-tree/src/lib.rs:52-54 | the cell read is the root of the recursive tree, for two or more leaves |
| `MerkleTrees.LevelSibling` | utils/merkle-tree/src/lib.rs:87-115 | one level yields the root of the clipped sibling block, or nothing where there is none |
| `MerkleTrees.MerkleTree.Proof` | utils/merkle-tree/src/lib.rs:77-116 | the values yielded are the siblings of the leaf's audit path, levels without sibling skipped |
| `MerklePaths.LevelPathIsAudit` | utils/merkle-tree/src/lib.rs:77-116 | siblings collected level by level, on the side the index bit says, are the recursive audit path |
| `MerklePaths.AuditPathFolds` | utils/merkle-tree/src/lib.rs:159-169 | folding the audit path from its leaf gives the root for any combine function |
| `MerklePaths.SiblingsFoldToRoot` | utils/merkle-tree/src/lib.rs:159-169 | folding the bare values gives the root for a commutative one |
| `Routing.TurnGivesDistance` | core/dht/src/lib.rs:176-178 | the circular distance is the shorter way around from the position in ring order |
| `Routing.RingIsBitonic` | core/dht/src/lib.rs:145-151 | in ring order from the split point the distance first grows and then shrinks |
| `Routing.RingIsRising` | core/dht/src/lib.rs:145-151 | with distinct ids every route of the ring order lies farther clockwise than the one before |
| `Routing.BinarySearch` | core/dht/src/lib.rs:119-119 | a position of the id, or where it would keep the order |
| `Routing.SweepNext` | core/dht/src/lib.rs:153-172 | one call takes the nearer end of the remaining ring part |
| `Routing.RoutingTable.Insert` | core/dht/src/lib.rs:118-123 | keeps the order; a known id has one of its routes replaced in place, otherwise the route is added; with distinct ids the table afterwards holds the new route and all routes of other ids |
| `Routing.RoutingTable.Remove` | core/dht/src/lib.rs:125-129 | keeps the order; the route of the id is gone, returned, and all others remain |
| `Routing.RoutingTable.Get` | core/dht/src/lib.rs:132-137 | the address stored for the id, none exactly if there is none |
| `Routing.RoutingTable.ClosestLow` | core/dht/src/lib.rs:145-173 | every route exactly once in non-decreasing circular distance, duplicates included; with distinct ids, of two equally near routes the clockwise one first |
| `Routing.FirstAreNearest` | core/dht/src/lib.rs:139-173 | for every k the first k results are k nearest routes |
| `Routing.RankedUnique` | core/dht/src/lib.rs:153-172 | there is only one such ranking of given routes |
| `MessageBuffers.RecordEnds` | utils/component-utils/src/codec.rs:11-13 | the two bytes behind a message are its length, the higher one first |
| `MessageBuffers.ParsePrint` | core/chat-spec/src/chat.rs:190-204 | printed messages parse to themselves |
| `MessageBuffers.PrintParse` | core/chat-spec/src/chat.rs:162-172 | what a parse finds stands, printed, at the end of the buffer behind a rest without a complete message |
| `MessageBuffers.RetainedStays` | core/chat-spec/src/chat.rs:138-188 | retention twice is retention once |
| `MessageBuffers.MoveMem` | core/chat-spec/src/chat.rs:144-157 | the kept bytes move up to the write cursor, overlap included, and nothing before the cursor changes |
| `MessageBuffers.KeepOne` | core/chat-spec/src/chat.rs:162-183 | one message more is pending, or dropped |
| `MessageBuffers.RetainMessages` | core/chat-spec/src/chat.rs:140-188 | the returned region is exactly the kept messages, in order, for every buffer |
| `MessageBuffers.RetainMessagesInVec` | core/chat-spec/src/chat.rs:133-136 | only that region is left |
| `MessageBuffers.UnpackMessages` | core/chat-spec/src/chat.rs:190-204 | the messages of the same parse, last one first |
| `BlockHash.HashForgetsOrder` | nodes/server/src/handlers/chat.rs:397-402 | the block hash depends only on the multiset of messages |
| `BlockHash.HashBlock` | nodes/server/src/handlers/chat.rs:397-402 | the hash is the combination of the sorted message hashes, none exactly without a message |
| `BlockHash.HashOfOne` | nodes/server/src/handlers/chat.rs:397-402 | the hash of a block of one message is that message's hash |
| `BlockHash.HashOfMore` | nodes/server/src/handlers/chat.rs:397-402 | a further message whose hash is not below those of the block is combined last |
| `BlockHash.HashIdentifies` | nodes/server/src/handlers/chat.rs:397-402 | without collisions among message hashes and combinations, equal block hashes mean the same messages, each equally often |
| `MessageCodec.Base128Value` | utils/component-utils/src/codec.rs:225-237 | the bytes are the digits to base 128, low ones first, with the top bit set on all but the last |
| `MessageCodec.EncodeBase128` | utils/component-utils/src/codec.rs:225-237 | the loop appends exactly those bytes |
| `MessageCodec.DecodeBase128` | utils/component-utils/src/codec.rs:239-252 | none exactly if no number ends within ten bytes, else the number at the front, modulo 2^64, and its length |
| `MessageCodec.Base128RoundTrip` | utils/component-utils/src/codec.rs:225-252 | a number written at the front is read back, whatever follows |
| `MessageCodec.DecodeMessage` | core/chat-spec/src/chat.rs:10-15 | 32 bytes of identity, a number, and all that is left; an encoded message is read back |
| `MessageCodec.EncodedFits` | nodes/server/src/handlers/chat.rs:66-74 | an accepted message encodes to at most 1066 bytes |
| `ChatSteps.CountBacks` | nodes/server/src/handlers/chat.rs:149-150 | two equal slots, when they are counted, hold the votes of two different replicas, each cast in this stage and standing since |
| `ChatSteps.SlotHistory` | nodes/server/src/handlers/chat.rs:147-147 | in every run a non-empty slot holds a vote its replica cast in the same stage, and it has not changed since |
| `ChatSteps.ClosedKeeps` | nodes/server/src/handlers/chat.rs:352-376 | closing a full block keeps the invariant, empties the current block, and adds it to the history only with two equal slots or as the block that recovery waits for |
| `ChatSteps.RecoveryDropsSettled` | nodes/server/src/handlers/chat.rs:212-216 | recovery drops exactly the messages whose hash the received block contains |
| `ChatSteps.StepKeeps` | nodes/server/src/handlers/chat.rs:117-224 | every step keeps the invariant, and pushing a message never panics |
| `ChatSteps.StepSettles` | nodes/server/src/handlers/chat.rs:140-221 | a step leaves the history alone, or adds a block that carries its own hash and is supported: two equal slots after this event's own write, or the hash that recovery waits for |
| `ChatSteps.StepRecovers` | nodes/server/src/handlers/chat.rs:149-159 | recovery is entered only with three equal slots, and its hash never changes |
| `ChatSteps.RunKeeps` | nodes/server/src/handlers/chat.rs:319-411 | the invariant holds in every run |
| `ChatSteps.EventSettles` | nodes/server/src/handlers/chat.rs:140-221 | in every run each event leaves the history alone or settles a block on two equal slots at that moment, or out of a recovery that three equal slots began |
| `ChatSteps.SettledBlocks` | nodes/server/src/handlers/chat.rs:140-221 | in every run each block of the history carries the hash of its own bytes and was put there by such an event, and the history never exceeds 32 |
| `ChatSteps.SettledVoters` | nodes/server/src/handlers/chat.rs:140-221 | behind each settled block stand votes of two different replicas, in their slots at the moment of the majority |
| `ChatSteps.NoMajorityOverlooked` | nodes/server/src/handlers/chat.rs:149-164 | in every run an undecided stage holds at most two equal votes, and at most one for the block proposed here |
| `ChatSteps.StepCounts` | nodes/server/src/handlers/chat.rs:140-411 | outside recovery the number of the last finalized block goes up by one exactly when one block joins the history, and otherwise both stay |
| `ChatSteps.OneBlockPerNumber` | nodes/server/src/handlers/chat.rs:140-411 | a run without recovery settles one block for each number, so the history holds as many blocks as were counted, up to 32 |
| `ChatSteps.ReceivedAgain` | nodes/server/src/handlers/chat.rs:205-221 | in recovery the winning block joins the history every time it is received: after m times it fills the first m places, up to all 32 |
| `ChatSteps.PushNeverPanics` | nodes/server/src/handlers/chat.rs:331-381 | in every run the current block parses fully within its capacity and the two expectations of a push hold |
| `ChatSteps.RecoveryNeedsProposal` | nodes/server/src/handlers/chat.rs:404-411 | a replica outvoted by a vote for block v accepts the winning block under number v if and only if it has a proposal of its own and v is its number; otherwise it answers that the block is outdated |
| `ChatSteps.OutvotedRefuses` | nodes/server/src/handlers/chat.rs:117-204 | in every run that ends without a proposal, three votes for the block being filled lead to recovery and to the refusal of every block sent under that number by any replica |
| `ChatSteps.OutvotedAtEveryNumber` | nodes/server/src/handlers/chat.rs:117-204 | for every block number there is a run that ends so; for a non-zero hash it meets no unfinished branch and no panic |
| `ChatSteps.RecoveryEnds` | nodes/server/src/handlers/chat.rs:205-221 | recovery ends if and only if a push closes the very block it waits for, and the replica neither entered recovery with a proposal nor closed a block in it |
| `ChatSteps.ClosedRecoveryIsFinal` | nodes/server/src/handlers/chat.rs:365-365 | once a replica in recovery has entered it with a proposal or closed a block in it, every continuation leaves it in that recovery at that block number, and no message closes a block again |
| `ChatSteps.OwnBlockLocksRecovery` | nodes/server/src/handlers/chat.rs:365-375 | for every block number there is a run, outvoted and then closing a block of its own, that ends in a recovery no continuation leaves |
| `ChatSteps.RecoveryOutlivesItsBlock` | nodes/server/src/handlers/chat.rs:205-221 | where two blocks hash differently and none to zero, for every block number there is a run that enters recovery with a proposal, takes the winning block in from any replica, and is still in that recovery |
| `ChatLaws.PushStores` | nodes/server/src/handlers/chat.rs:331-381 | an accepted message stands behind the current block, or alone in a new one after the full block was closed; a refused one changes nothing |
| `ChatLaws.CloseDecides` | nodes/server/src/handlers/chat.rs:352-376 | a full block is settled exactly with two votes or as the block recovery waits for; otherwise it becomes the proposal, or in recovery is given up |
| `ChatLaws.BehindIsAnswered` | nodes/server/src/handlers/chat.rs:117-136 | a proposal from behind changes nothing: it is told that it agrees, sent the newest settled block, or there is none |
| `ChatLaws.VoteDecides` | nodes/server/src/handlers/chat.rs:134-164 | exactly which proposals are counted, and what each count decides |
| `ChatLaws.ReceiveDecides` | nodes/server/src/handlers/chat.rs:189-222 | exactly which blocks are taken in, and what becomes of the stage, the history and the current block |
| `ChatLaws.LaggingReplica` | nodes/server/src/handlers/chat.rs:117-132 | in every run a proposal one number behind is answered with the block settled last, unless it names that block's hash |
| `ChatLaws.LaggingNumber` | nodes/server/src/handlers/chat.rs:117-132 | in a run without recovery that block is the one settled under the number the proposal names |
| `ChatLaws.StepMoves` | nodes/server/src/handlers/chat.rs:140-222 | no step loses a message: it stays, or leaves with a block that is settled or has lost against another hash, or is found in the block recovery takes in |
| `ChatLaws.AcceptedStands` | nodes/server/src/handlers/chat.rs:140-381 | in every run an accepted message is still in the current block or the proposal, or has left so |
| `ChatLaws.NothingAppears` | nodes/server/src/handlers/chat.rs:140-381 | in every run the current block and the proposal hold accepted messages only, each at most as often as it was accepted |
| `ChatReplica.Chat.constructor` | nodes/server/src/handlers/chat.rs:320-329 | an empty block, no history, block number zero |
| `ChatReplica.Chat.TryPush` | nodes/server/src/handlers/chat.rs:338-344 | succeeds exactly if message and length fit; on failure the old bytes are still in front |
| `ChatReplica.Chat.PushToFinalized` | nodes/server/src/handlers/chat.rs:390-395 | newest first, the oldest dropped at 32 |
| `ChatReplica.Chat.PushMessage` | nodes/server/src/handlers/chat.rs:331-381 | the whole new state and the outcome are those of the step function, so the object holds the state of the run; an accepted message stands at the end of the current block, and it never panics |
| `ChatReplica.Chat.ProposeMsgBlock` | nodes/server/src/handlers/chat.rs:117-164 | the whole new state and the outcome are those of the step function, so the object holds the state of the run; a replica one number behind is sent the newest block of the history |
| `ChatReplica.Chat.SendBlock` | nodes/server/src/handlers/chat.rs:189-222 | the whole new state and the outcome are those of the step function, so the object holds the state of the run; a block is taken in exactly with the right number and enough support, and in recovery exactly its messages leave the current block |
| `Sorting.SortForgets` | nodes/server/src/handlers/chat.rs:400-400 | sorting by an identifying key depends only on the elements |

## Left out

- KyberPke: hashing of seeds, rejection sampling of the matrix, noise sampling and the key-encapsulation wrapper; the matrix, secrets and noise are arbitrary inputs within the stated bounds, and the seed part of the packed public key is not carried along.
- GfTables.MulSliceInPlace: used for nothing else here, because rows and polynomials are scaled by the scalar form; results for builds with the vector form hold only where the two agree.
- RsDecode.BerlekampWelch: works on one byte column with ordinary share numbers; the loop of `correct` over columns and its share renumbering, and `decode`, are not modelled. Where a pivot is missing and more than e shares are wrong, nothing is said about the output.
- RsRebuild.Rebuild: restoration is stated for at most one parity share in use; for more, only that data shares in use come back unchanged. Shares are values, so aliasing between their buffers is not captured.
- RsRebuild.InvertMatrix: no claim for matrices other than the identity with one row replaced.
- RsEncode.Fec.Encode: empty data together with empty parity is excluded, since the source panics there.
- FalconHash.HashToPointVartime: the squeezed stream is a finite input that contains enough accepted samples; the source loops until it has them.
- FalconComp.CompDecode: the values left in the output array after a refusal are not described; the same holds for the other two decoders.
- MerkleTrees.MerkleTree.GetRoot: not stated for a single leaf, where the index computation of the source underflows.
- MerkleTrees.MerkleTree.FromBase: only for a power of two of leaves; for other counts the recursion of the source meets an empty slice.
- MerkleTrees.MerkleTree.Proof: the iterator is drained; laziness is not modelled, and only even node indices, which hold leaves, are accepted.
- Routing.BinarySearch: stands for the standard library's search; callers use only its contract, so any matching position of a duplicated id is covered.
- Routing.RoutingTable.ClosestLow: the iterator is drained, so its first k results are the first k of the list returned; `bulk_insert`, which is a library sort, and the hashing of the key are not modelled.
- MessageBuffers.RetainMessages: the predicate is a pure function, whereas the source hands it a mutable slice.
- ChatReplica.Chat: the member table with its nonces, replication lookup, network replies, the message-fetch cursor and the `restoring` flag are not part of this model; unreachable `todo!` branches appear as an outcome of their own, and a block without any message as a panic.
- ChatSteps.SettledBlocks: says nothing about agreement between replicas. For the all-zero hash, which equals an empty vote slot, only the count of equal slots is stated, not who voted (`SettledVoters`).
- ChatSteps.OutvotedAtEveryNumber: 64-bit arithmetic wraps as in a release build; at block number zero a debug build panics on the subtraction instead.
- ChatSteps.ClosedRecoveryIsFinal: speaks of pushes, proposals and received blocks; replacing the whole chat when a node restores it from others is not part of this model.
- BlockHash.HashIdentifies: assumes that the hash functions have no collisions at all, which hashes of 32 bytes approximate.
- MessageCodec.DecodeMessage: the codec of every other message type is not modelled.
- Sorting.SortBy: stands for the standard library's unstable sort; only order and contents are used.
- Falcon signing, key generation, floating-point emulation and random sampling, onion packets, contracts, packet streams, storage and all network behaviours are outside the scope.
