# Ciphra

Ciphra is an encrypted SQL database with its own cryptography, storage engine, replication and
SQL front end. This project models the parts whose correctness no test can cover and proves
them in Dafny, for all inputs and all runs:

- **Lattice signatures and key exchange.** ML-DSA-65 and ML-KEM-768 from the in-place transforms
  and the bit packers up to the theorem that every signature verifies and the exact condition
  under which a ciphertext decrypts.
- **Limb arithmetic.** Curve25519 and Poly1305 on machine words against integers modulo
  2^255 - 19 and 2^130 - 5, and the memory fill of Argon2id.
- **The encrypted engine.** Rows, indexes, range blobs, catalog, audit chain, Merkle proofs,
  transactions and key rotation as one state machine, with an invariant of every reachable state.
- **Durability and replication.** The write-ahead log with its checksum under every byte cut, and
  log shipping under every interleaving.
- **The expression printer and parser**, character by character.

Code that works in place is modelled by methods over arrays and objects, each proved against a
specification function; the results are lemmas about those functions. The extendable-output
functions and the compression function of Argon2 are parameters, sealed boxes and keyed tags are
ideal, and clocks and nonces are inputs. `dafny verify dfyconfig.toml` checks everything.

How the modules build on one another:

| area | modules, from the bottom up |
|---|---|
| arithmetic | Modular, Ntt, FoldedProduct, Digits, Masks, NttTheory, NttPairs, NttBlocks, NttLoops, PowerModulo |
| ML-DSA | MlDsaNtt, MlDsaRounding, BitPacking, MlDsaCodec, MlDsaSampling, MlDsaVectors, MlDsaKeys, MlDsaSignature, MlDsaCorrectness, MlDsaApi |
| ML-KEM | MlKemNtt, MlKemCodec, MlKemVectors, MlKemPke, MlKemApi |
| other cryptography | Poly1305, Field25519, X25519, Argon2 |
| engine | EngineData, Merkle, Predicates, Tables, RowChanges, RangeBlobs, Queries, RowStatements, DataStatements, SchemaStatements, StatementEffects, AuditChain, KeyBytes, Database, PlanKeys, Rotation, Plaintexts, Transactions, Engine |
| storage and network | Crc, WalRecords, Storage, StorageHistory, ReplicationCodec, Replication, ReplicationServer, SealedChannel |
| SQL | SqlLexer, SqlParser, SqlRoundTrip |

## Model

| member | source | states |
|---|---|---|
| MlDsaCorrectness.SignaturesVerify | crates/ciphra-crypto/src/ml_dsa.rs:591-823 | For every seed, message and pair of extendable-output functions: each signature that signing returns for the secret key of a generated pair has the fixed length and is accepted under the matching public key. |
| MlDsaCorrectness.ApproximateExact | crates/ciphra-crypto/src/ml_dsa.rs:670-815 | What verification computes, A z - c t1 2^d, is what signing committed to less c s2 plus c t0, through the transforms, for every key and every response. |
| MlDsaCorrectness.RecoveredIsCommitment | crates/ciphra-crypto/src/ml_dsa.rs:697-815 | When the rejection checks pass, the hints give back exactly the high bits that were hashed into the challenge. |
| MlDsaRounding.HintRecovers | crates/ciphra-crypto/src/ml_dsa.rs:205-242 | The hint recovers the high bits of r + z from r alone, for every r and every z of centred size at most gamma2 (section 7.4 of FIPS 204). |
| MlDsaRounding.DecomposeExact | crates/ciphra-crypto/src/ml_dsa.rs:205-224 | Decomposition recomposes modulo q with parts in their ranges; only within gamma2 of q is one q subtracted. |
| MlDsaRounding.Power2RoundExact | crates/ciphra-crypto/src/ml_dsa.rs:197-203 | The parts recompose exactly, the high part has 10 bits, the low part lies in (-2^12, 2^12]. |
| MlDsaRounding.SmallChangeKeepsHighBits | crates/ciphra-crypto/src/ml_dsa.rs:205-242 | Adding at most beta to a coefficient whose low bits are below gamma2 - beta leaves its high bits alone. |
| MlDsaNtt.NttMultiplies | crates/ciphra-crypto/src/ml_dsa.rs:124-194 | For all reduced inputs, the inverse transform of the coefficient-wise product of two forward transforms is the schoolbook product modulo X^256 + 1. |
| MlDsaNtt.InverseOfForward | crates/ciphra-crypto/src/ml_dsa.rs:124-167 | The scaled inverse transform undoes the forward transform on every reduced input. |
| MlDsaNtt.ForwardOfInverse | crates/ciphra-crypto/src/ml_dsa.rs:124-167 | The forward transform undoes the scaled inverse transform on every reduced input. |
| MlDsaNtt.Ntt | crates/ciphra-crypto/src/ml_dsa.rs:124-143 | The in-place loops compute the recursive transform; no value leaves 32 bits and no product 64. |
| MlDsaNtt.InvNtt | crates/ciphra-crypto/src/ml_dsa.rs:145-167 | The in-place loops with mirrored table entries and the final scaling compute the scaled inverse transform. |
| MlDsaNtt.Zetas | crates/ciphra-crypto/src/ml_dsa.rs:104-115 | The table holds the powers of 1753 at bit-reversed exponents. |
| MlDsaNtt.NInverse | crates/ciphra-crypto/src/ml_dsa.rs:117-122 | The constant is the inverse of 256 modulo q. |
| NttTheory.NttEvaluates | crates/ciphra-crypto/src/ml_dsa.rs:104-143 | A complete transform, of any modulus and size, evaluates the polynomial at the roots of X^n + 1 that its table of square roots names. |
| NttTheory.NttOfProduct | crates/ciphra-crypto/src/ml_dsa.rs:104-192 | The complete transform carries the negacyclic product to the coefficient-wise one for every table of square roots. |
| NttTheory.NttOfINtt | crates/ciphra-crypto/src/ml_dsa.rs:124-167 | Forward after inverse multiplies by the length, for every table with inverses and every depth. |
| NttTheory.INttOfNtt | crates/ciphra-crypto/src/ml_dsa.rs:124-167 | Inverse after forward multiplies by the length, likewise. |
| FoldedProduct.EvalProduct | crates/ciphra-crypto/src/ml_dsa.rs:186-192 | Digit strings multiplied with wrap-around factor c have the product of the values wherever x^n = c; the one law behind the transforms, the 17 limbs of Poly1305 and the 5 limbs of Curve25519. |
| PowerModulo.PowMod | crates/ciphra-crypto/src/ml_dsa.rs:77-91 | Square-and-multiply gives the power modulo any modulus. |
| BitPacking.UnpackOfPack | crates/ciphra-crypto/src/ml_dsa.rs:372-411 | Unpacking undoes packing for every width and every whole number of bytes. |
| BitPacking.PackOfUnpack | crates/ciphra-crypto/src/ml_dsa.rs:372-411 | Packing undoes unpacking for every byte string of that size. |
| BitPacking.PackBits | crates/ciphra-crypto/src/ml_dsa.rs:372-388 | The accumulator loop computes the packing, its 64-bit accumulator never overflows for widths up to 32. |
| BitPacking.UnpackBits | crates/ciphra-crypto/src/ml_dsa.rs:390-411 | The accumulator loop computes the unpacking within 64 bits. |
| MlDsaCodec.UnpackOfPackPoly | crates/ciphra-crypto/src/ml_dsa.rs:413-468 | A polynomial with coefficients in the offset range is decoded from its own encoding. |
| MlDsaCodec.DecodeOfEncode | crates/ciphra-crypto/src/ml_dsa.rs:531-585 | Every (c, z, h) with z in (-gamma1, gamma1] and at most omega hints encodes to the signature length and decodes to itself. |
| MlDsaCodec.EncodeOfDecode | crates/ciphra-crypto/src/ml_dsa.rs:531-585 | Every byte string of signature length that decodes re-encodes to itself, so signatures have one encoding. |
| MlDsaCodec.DecodeOfEncodeHint | crates/ciphra-crypto/src/ml_dsa.rs:536-585 | The hint bytes, positions and counts, decode to the hint. |
| MlDsaCodec.EncodeOfDecodeHint | crates/ciphra-crypto/src/ml_dsa.rs:554-585 | Accepted hint bytes are strictly increasing per polynomial, zero padded, and re-encode to themselves. |
| MlDsaCodec.EncodeSignature | crates/ciphra-crypto/src/ml_dsa.rs:531-552 | The loops over z and the hint produce the specified encoding. |
| MlDsaCodec.DecodeSignature | crates/ciphra-crypto/src/ml_dsa.rs:554-585 | The loops, with every rejection, produce the specified decoding. |
| MlDsaKeys.PkRoundTrip | crates/ciphra-crypto/src/ml_dsa.rs:485-504 | Seed and high parts are read back from the public key. |
| MlDsaKeys.SkRoundTrip | crates/ciphra-crypto/src/ml_dsa.rs:506-640 | All six parts are read back from the secret key. |
| MlDsaSampling.BallWeight | crates/ciphra-crypto/src/ml_dsa.rs:266-290 | After t turns the challenge has exactly t entries of plus or minus one, all below position N - tau + t. |
| MlDsaSampling.ChallengeWeight | crates/ciphra-crypto/src/ml_dsa.rs:266-290 | The challenge has exactly tau non-zero entries, for every byte stream. |
| MlDsaSampling.ChallengeProductShort | crates/ciphra-crypto/src/ml_dsa.rs:266-290 | A product with the challenge is at most beta in every coefficient if the other factor is at most eta. |
| MlDsaSampling.SampleChallenge | crates/ciphra-crypto/src/ml_dsa.rs:266-290 | The in-place shuffle computes the specified challenge. |
| MlDsaSampling.SampleUniform | crates/ciphra-crypto/src/ml_dsa.rs:292-309 | The rejection loop returns the first 256 accepted three-byte values below q. |
| MlDsaSampling.SampleBounded | crates/ciphra-crypto/src/ml_dsa.rs:311-330 | The half-byte rejection loop returns the first 256 accepted values, centred in [-eta, eta]. |
| MlDsaApi.GenerateKeyPair | crates/ciphra-crypto/src/ml_dsa.rs:591-640 | The loops of key generation compute the specified key pair. |
| MlDsaApi.SignMessage | crates/ciphra-crypto/src/ml_dsa.rs:647-766 | The rejection loop with its nonce counter computes the specified signature. |
| MlDsaApi.VerifySignature | crates/ciphra-crypto/src/ml_dsa.rs:770-821 | Length, decoding, norm and challenge checks decide exactly what the specification accepts. |
| MlKemPke.DecryptExact | crates/ciphra-crypto/src/ml_kem.rs:323-450 | For every seed, message and randomness: decryption returns the message if and only if every coefficient of the run's noise is in the window of its bit. |
| MlKemPke.QuietDecrypts | crates/ciphra-crypto/src/ml_kem.rs:367-450 | With noise below 832 everywhere decryption returns the message. |
| MlKemPke.QuietProductsSuffice | crates/ciphra-crypto/src/ml_kem.rs:323-450 | The noise stays below 832 as soon as the two products in it leave room for the 106 that sampling and rounding of the second part can add. |
| MlKemPke.DecapsulateExact | crates/ciphra-crypto/src/ml_kem.rs:455-513 | Decapsulation returns the encapsulated secret in every such run. |
| MlKemPke.RejectedUnlessHonest | crates/ciphra-crypto/src/ml_kem.rs:493-513 | A ciphertext that no message encrypts to is answered by the rejection value. |
| MlKemPke.MatrixTransposed | crates/ciphra-crypto/src/ml_kem.rs:307-321 | Encryption samples the transpose of the matrix of key generation. |
| MlKemVectors.OpenedIsNoisy | crates/ciphra-crypto/src/ml_kem.rs:336-445 | Over the transforms: opening a shifted ciphertext gives the message plus the noise e r + e2 + cv - s (e1 + cu). |
| MlKemCodec.BitRecovered | crates/ciphra-crypto/src/ml_kem.rs:196-208 | A bit survives an error exactly between -832 and 832, or 831 if it is one. |
| MlKemCodec.CompressOfDecompress | crates/ciphra-crypto/src/ml_kem.rs:196-208 | Compression undoes decompression for every width. |
| MlKemCodec.DecompressOfCompress | crates/ciphra-crypto/src/ml_kem.rs:196-208 | The rounding error is at most round(q / 2^(d+1)) (section 4.2.1 of FIPS 203). |
| MlKemCodec.DecodeOfEncode | crates/ciphra-crypto/src/ml_kem.rs:165-194 | Decoding undoes encoding for digits below the width's modulus. |
| MlKemCodec.EncodeOfDecode | crates/ciphra-crypto/src/ml_kem.rs:165-194 | Encoding undoes decoding for every byte string and every width below 12, where no digit is reduced. |
| MlKemCodec.EncodeBits | crates/ciphra-crypto/src/ml_kem.rs:165-178 | The bit loops write the specified bytes. |
| MlKemCodec.DecodeBits | crates/ciphra-crypto/src/ml_kem.rs:180-194 | The bit loops read the specified digits. |
| MlKemCodec.CbdSmall | crates/ciphra-crypto/src/ml_kem.rs:255-270 | Sampled coefficients are at most eta in size. |
| MlKemCodec.SampleCbd | crates/ciphra-crypto/src/ml_kem.rs:255-270 | The bit-counting loops compute the specified sample. |
| MlKemNtt.NttMultiplies | crates/ciphra-crypto/src/ml_kem.rs:80-142 | For all reduced inputs, the inverse of the pairwise product of two transforms is the schoolbook product modulo X^256 + 1. |
| MlKemNtt.InverseOfForward | crates/ciphra-crypto/src/ml_kem.rs:80-128 | The scaled inverse transform undoes the incomplete forward transform. |
| MlKemNtt.ForwardOfInverse | crates/ciphra-crypto/src/ml_kem.rs:80-128 | The forward transform undoes the scaled inverse transform. |
| MlKemNtt.Ntt | crates/ciphra-crypto/src/ml_kem.rs:80-100 | The in-place layers down to pairs compute the recursive transform within 32 bits. |
| MlKemNtt.InvNtt | crates/ciphra-crypto/src/ml_kem.rs:102-128 | The in-place layers compute the scaled inverse transform. |
| MlKemNtt.NttMul | crates/ciphra-crypto/src/ml_kem.rs:130-142 | The loop over pairs multiplies modulo X^2 - gamma for each of the 128 constants. |
| MlKemNtt.Tables | crates/ciphra-crypto/src/ml_kem.rs:63-78 | Both tables hold the powers of 17 at bit-reversed exponents. |
| NttPairs.NttOfPairProduct | crates/ciphra-crypto/src/ml_kem.rs:80-142 | An incomplete transform carries the negacyclic product to the pairwise one, for every modulus, depth and table. |
| MlKemApi.Encrypt | crates/ciphra-crypto/src/ml_kem.rs:367-416 | The loops of encryption compute the specified ciphertext. |
| MlKemApi.Decapsulate | crates/ciphra-crypto/src/ml_kem.rs:493-513 | Re-encryption and comparison decide between secret and rejection value as specified. |
| X25519.ScalarMult | crates/ciphra-crypto/src/x25519.rs:263-302 | For every scalar and coordinate the 32 bytes are the residue in [0, p) of x / z of the Montgomery ladder (section 5 of RFC 7748), stated by recursion on the bits of the clamped scalar. |
| X25519.LadderLoop | crates/ciphra-crypto/src/x25519.rs:270-299 | The loop with masked and deferred swaps computes the ladder without swaps. |
| X25519.TurnIsStep | crates/ciphra-crypto/src/x25519.rs:276-296 | One turn on the swapped pair is the ladder step of the bit. |
| X25519.ScalarRange | crates/ciphra-crypto/src/x25519.rs:264-268 | A clamped scalar is a multiple of eight between 2^254 and 2^255. |
| X25519.BitOf | crates/ciphra-crypto/src/x25519.rs:277-278 | The byte and shift of the loop pick bit t of the scalar as a number. |
| X25519.Swap | crates/ciphra-crypto/src/x25519.rs:180-187 | The mask exchanges the limbs if the bit is one and leaves them otherwise. |
| Field25519.MulExact | crates/ciphra-crypto/src/x25519.rs:128-169 | Multiplication is exact modulo p for limbs up to 53 bits, and its result is back below 51 bits and a little. |
| Field25519.ProductsWide | crates/ciphra-crypto/src/x25519.rs:128-149 | The five sums fit 113 bits and the factors by 19 fit 64. |
| Field25519.ReduceWideLoop | crates/ciphra-crypto/src/x25519.rs:156-169 | The 128-bit carry loop computes the reduction; every word and double word fits. |
| Field25519.SubExact | crates/ciphra-crypto/src/x25519.rs:114-126 | Subtraction never underflows and is exact modulo p. |
| Field25519.AddExact | crates/ciphra-crypto/src/x25519.rs:106-112 | Addition is exact and stays within the bounds that multiplication accepts. |
| Field25519.MulSmallExact | crates/ciphra-crypto/src/x25519.rs:171-177 | Multiplication by a constant below 2^17 is exact modulo p. |
| Field25519.FrozenIsResidue | crates/ciphra-crypto/src/x25519.rs:82-104 | Freezing gives 51-bit limbs of the residue in [0, p). |
| Field25519.FrozenUnique | crates/ciphra-crypto/src/x25519.rs:82-104 | Two elements freeze to the same limbs if and only if they are equal modulo p. |
| Field25519.FreezeInPlace | crates/ciphra-crypto/src/x25519.rs:82-104 | The steps of `freeze` compute that form in place. |
| Field25519.CarryInPlace | crates/ciphra-crypto/src/x25519.rs:61-79 | The carry chain keeps the value modulo p, never overflows a word, and leaves tight limbs. |
| Field25519.Invert | crates/ciphra-crypto/src/x25519.rs:190-259 | The addition chain raises to the power p - 2. |
| Field25519.FromBytesExact | crates/ciphra-crypto/src/x25519.rs:21-41 | 32 bytes are read as their number without its top bit. |
| Field25519.ToBytesExact | crates/ciphra-crypto/src/x25519.rs:43-58 | An element is written as its residue. |
| Field25519.ReadOfWritten | crates/ciphra-crypto/src/x25519.rs:21-58 | Reading what was written gives the frozen element. |
| Field25519.WrittenOfRead | crates/ciphra-crypto/src/x25519.rs:21-60 | Writing what was read gives the number without its top bit, reduced modulo p. |
| Poly1305.Tag | crates/ciphra-crypto/src/poly1305.rs:11-62 | For every message and key the tag is ((sum of block_i r^(m-i)) mod 2^130-5 + s) mod 2^128 (section 2.5 of RFC 8439). |
| Poly1305.MulMod | crates/ciphra-crypto/src/poly1305.rs:78-114 | No sum exceeds 32 bits; the result is the product modulo p, has limbs below 256 and is below p + 10, and the final carry is zero. |
| Poly1305.Add | crates/ciphra-crypto/src/poly1305.rs:64-71 | The carry chain adds modulo 2^136. |
| Poly1305.Pass | crates/ciphra-crypto/src/poly1305.rs:96-106 | One partial reduction subtracts a multiple of p and leaves all but the lowest limb in range. |
| Poly1305.Freeze | crates/ciphra-crypto/src/poly1305.rs:40-47 | The mask picks the residue modulo p from h and h - p. |
| Poly1305.ClampedValue | crates/ciphra-crypto/src/poly1305.rs:12-23 | Clamping the bytes is masking the number with the constant of the standard. |
| Poly1305.HornerStep | crates/ciphra-crypto/src/poly1305.rs:25-38 | Taking in a block is one step of evaluating the polynomial of the blocks. |
| Masks.Selected | crates/ciphra-crypto/src/poly1305.rs:43-47 | Exclusive or under a mask selects one of two words, and exchanges two words. |
| Argon2.ReferenceSafe | crates/ciphra-crypto/src/argon2.rs:186-218 | For every shape, pass, lane, slice, index and random word: the reference is in range, is neither the block being written nor the one before it, lies outside the current slice of any other lane, and in the first pass is already filled (section 3.4 of RFC 9106). |
| Argon2.PositionInArea | crates/ciphra-crypto/src/argon2.rs:206-209 | The products fit 64 bits and the position is inside the reference area. |
| Argon2.AnySchedule | crates/ciphra-crypto/src/argon2.rs:94-109 | Over all passes, the lanes of every slice may be filled in any order: the memory is the same. |
| Argon2.LanesAreParallel | crates/ciphra-crypto/src/argon2.rs:94-109 | Filling lanes one after the other leaves in each what filling them at the same time would. |
| Argon2.OnlySeedsMatter | crates/ciphra-crypto/src/argon2.rs:82-109 | The first pass turns memories that agree on the first two blocks of each lane into the same memory: nothing unfilled is ever read. |
| Argon2.FillSegment | crates/ciphra-crypto/src/argon2.rs:129-230 | The loop with its address blocks computes the specified segment in place. |
| Argon2.FillMemory | crates/ciphra-crypto/src/argon2.rs:94-109 | The loops over passes, slices and lanes compute the memory of any schedule. |
| Argon2.Dimensions | crates/ciphra-crypto/src/argon2.rs:55-60 | Any memory cost and number of lanes give at least two blocks a segment and at most four blocks a lane of rounding. |
| Transactions.ReachableIsSound | crates/ciphra-engine/src/lib.rs:703-1234 | After every run of statements, transactions, rollbacks, reopenings and rotations, whatever it did to the indexes: the audit log verifies and returns the live history, and every schema, sequence and row is what the history last recorded. If no UPDATE of the run flipped a zero of an indexed column, every table keeps its whole invariant too. |
| Transactions.ReachableQueriesAgree | crates/ciphra-engine/src/lib.rs:2145-2208 | In every state reached without such a flip every access path finds the rows of a full scan, for predicates that compare like with like and literals of their columns' types. |
| Transactions.RotationKeepsWorld | crates/ciphra-engine/src/lib.rs:1011-1104 | Rotation, also inside a transaction, moves every schema, sequence and row to the new master unchanged, keeps all invariants there, and appends one entry to the verified history. |
| Transactions.EqualHeadsEqualTables | crates/ciphra-engine/src/lib.rs:831-873 | Any two runs that reach the same audit head have the same history and the same plain tables, whatever their masters; without rotations the same sealed boxes too. |
| Transactions.CommittedEqualsPlain | crates/ciphra-engine/src/lib.rs:1203-1221 | BEGIN, any statements, COMMIT give the answers, store and head of the statements alone. |
| Transactions.RollbackRestores | crates/ciphra-engine/src/lib.rs:1225-1234 | ROLLBACK restores exactly the store and head at BEGIN. |
| Database.StatementKeepsInv | crates/ciphra-engine/src/lib.rs:1148-1195 | Every statement keeps the invariant of all tables and of the audit log, if and only if it is not a successful UPDATE that flips an indexed zero. |
| PlanKeys.PlanOrderly | crates/ciphra-engine/src/lib.rs:1148-1195 | Whatever the store holds, a successful statement writes keys of its own table only, and leaves a catalog record under the table's name or no key of the table. |
| Rotation.RotationKeepsInv | crates/ciphra-engine/src/lib.rs:1011-1104 | Rotation succeeds in every sound state, rebuilds every row, index entry, blob, sequence and schema under the new master, and re-seals the audit log. |
| Rotation.RebuildCopies | crates/ciphra-engine/src/lib.rs:1045-1077 | A table rebuilt from its snapshot where nothing was has the same schema, sequence and rows and keeps the table invariant. |
| Rotation.RotatedAudit | crates/ciphra-engine/src/lib.rs:1079-1091 | The carried log with the rotation entry is a chained history that ends in the new head. |
| Plaintexts.HeadDeterminesTables | crates/ciphra-engine/src/lib.rs:831-873 | In stores whose log holds a history, equal heads mean equal histories and equal plain contents. |
| Plaintexts.StatementKeepsLog | crates/ciphra-engine/src/lib.rs:2251-2293 | Every statement keeps the log chained and the plain contents what the history records, also when it finds or leaves wrong indexes. |
| Plaintexts.RotationKeepsLog | crates/ciphra-engine/src/lib.rs:1011-1104 | A rotation that succeeds carries log and plain contents to the new master, also from a store whose indexes are wrong. |
| Plaintexts.RebuildKeepsPlain | crates/ciphra-engine/src/lib.rs:1045-1077 | A table rebuilt from a snapshot that could be taken holds the same schema, sequence and rows; nothing is asked of its indexes. |
| Plaintexts.StatementKeepsStore | crates/ciphra-engine/src/lib.rs:2251-2293 | A statement that flips no zero keeps the tables right as well. |
| DataStatements.InsertKeepsTable | crates/ciphra-engine/src/lib.rs:1510-1607 | A successful INSERT keeps rows, equality index, range blobs, sequence and primary key exact, and writes only its table. |
| DataStatements.DeleteKeepsTable | crates/ciphra-engine/src/lib.rs:1867-1909 | The same for DELETE. |
| DataStatements.UpdateKeepsTable | crates/ciphra-engine/src/lib.rs:1741-1865 | The same for UPDATE, if and only if no changed row goes from one floating-point zero to the other in an indexed column. |
| DataStatements.NegatedZeroBreaksTable | crates/ciphra-engine/src/lib.rs:1741-1865 | UPDATE t SET x = -0.0 on an indexed 0.0 succeeds and leaves the table invariant broken. |
| StatementEffects.InsertAdds | crates/ciphra-engine/src/lib.rs:1510-1607 | INSERT adds exactly its rows, coerced and filled with NULL, under the next ids, moves the sequence past them, and leaves every other row alone. |
| StatementEffects.DeleteRemoves | crates/ciphra-engine/src/lib.rs:1867-1909 | DELETE removes exactly the rows it finds and counts them. |
| StatementEffects.UpdateAssigns | crates/ciphra-engine/src/lib.rs:1741-1865 | UPDATE assigns its targets in exactly the rows it finds and counts them. |
| StatementEffects.FoundAreMatches | crates/ciphra-engine/src/lib.rs:1741-1909 | With literals of their columns' types, the rows found are exactly those that satisfy the predicate. |
| StatementEffects.IndexStatementsFlag | crates/ciphra-engine/src/lib.rs:1357-1430 | CREATE and DROP INDEX set the flag of the column and leave rows and sequence alone. |
| StatementEffects.RangeStatementsFlag | crates/ciphra-engine/src/lib.rs:1432-1490 | The same for range indexes. |
| StatementEffects.CreateTableDeclares | crates/ciphra-engine/src/lib.rs:1317-1355 | CREATE TABLE declares the given columns where no table was, without rows. |
| SchemaStatements.CreateTableKeeps | crates/ciphra-engine/src/lib.rs:1317-1355 | CREATE TABLE gives a table that keeps the invariant. |
| SchemaStatements.CreateIndexKeeps | crates/ciphra-engine/src/lib.rs:1357-1402 | CREATE INDEX fills the equality index with exactly the cells of the column. |
| SchemaStatements.DropIndexKeeps | crates/ciphra-engine/src/lib.rs:1404-1430 | DROP INDEX removes exactly its entries. |
| SchemaStatements.CreateRangeKeeps | crates/ciphra-engine/src/lib.rs:1432-1468 | CREATE RANGE INDEX writes the sorted blob of exactly the cells of the column. |
| SchemaStatements.DropRangeKeeps | crates/ciphra-engine/src/lib.rs:1470-1490 | DROP RANGE INDEX removes the blob and keeps the rest. |
| SchemaStatements.DropTableKeeps | crates/ciphra-engine/src/lib.rs:1492-1508 | DROP TABLE removes every key of the table. |
| RowChanges.ChangesKeepIndex | crates/ciphra-engine/src/lib.rs:1560-1600 | Any run of row changes keeps rows typed and the equality index exact. |
| RangeBlobs.EntryChangesReflect | crates/ciphra-engine/src/lib.rs:1590-1600 | Dropping and pushing entries row by row keeps the blob the entries of exactly the live cells. |
| RangeBlobs.SortOrders | crates/ciphra-engine/src/lib.rs:2791-2795 | Sorting the entries of a typed column gives the permutation ordered by value and row id. |
| Queries.CandidatesAreScan | crates/ciphra-engine/src/lib.rs:2145-2208 | For a predicate that compares like with like, and a pinned literal of its column's type: filtering the candidates equals filtering the scan, the same sequence, by range blob the same multiset. |
| Queries.AccessPathExact | crates/ciphra-engine/src/lib.rs:2145-2208 | For every predicate on every right table: the scan succeeds if and only if every row can be evaluated, the statement if and only if every candidate can; and the two answer alike, error or rows, if and only if, where the scan succeeds, the pinned literal has its column's type or no row matches, and where it fails, some candidate fails too. |
| Queries.MistypedLosesRows | crates/ciphra-engine/src/lib.rs:1962-1970 | With a primary key 1 and the literal 1.0 the scan finds the row and the statement does not. |
| Queries.LookupHidesClash | crates/ciphra-engine/src/lib.rs:3112-3180 | Over one row holding 1, `a = 2 AND a = 'x'` is a type error by scan and an empty answer by lookup. |
| Predicates.EqValueExact | crates/ciphra-engine/src/lib.rs:2848-2861 | A true predicate fixes the cell of a pinned column, through AND only. |
| Predicates.RangeBoundImplied | crates/ciphra-engine/src/lib.rs:2797-2818 | A true predicate implies the bound taken from it. |
| Predicates.ComparableNeverFails | crates/ciphra-engine/src/lib.rs:3112-3180 | Three-valued evaluation never fails when text is compared with text and numbers with numbers. |
| Predicates.EvalFails | crates/ciphra-engine/src/lib.rs:3112-3180 | Evaluation fails exactly when somewhere in the predicate a non-NULL cell meets a literal of the other kind: AND and OR evaluate both sides. |
| Predicates.ComparableExact | crates/ciphra-engine/src/lib.rs:3112-3180 | The check that text is compared with text and numbers with numbers passes if and only if no row of the schema can fail. |
| Predicates.CompareTransitive | crates/ciphra-engine/src/lib.rs:3030-3072 | The value order is transitive within one type, and across types among integers that a float holds. |
| Predicates.SmallAsFloat | crates/ciphra-engine/src/lib.rs:3036-3040 | Integers below 2^53 in size are their own floats, so comparisons among them are exact. |
| Predicates.MixedOrderNotTransitive | crates/ciphra-engine/src/lib.rs:3036-3040 | Across types it is not: 2^53 + 1 equals the REAL 2^53, which equals the integer 2^53. |
| Engine.Engine.Execute | crates/ciphra-engine/src/lib.rs:1148-1234 | One statement answers and changes the engine as the specification says, for every statement and every stored content. |
| Engine.Engine.Rotate | crates/ciphra-engine/src/lib.rs:1011-1104 | Snapshot, scratch store, carried log, rotation entry and swap give the specified state, or an error and no change. |
| Engine.RotateIsAction | crates/ciphra-engine/src/lib.rs:1011-1104 | In every reachable world, what the engine's rotation does after listing the tables from the sealed catalog is the rotation of the reachability results; in a sound world it succeeds. |
| Engine.Engine.Reopen | crates/ciphra-engine/src/lib.rs:731-792 | Reopening drops what was buffered and reads the head back. |
| Engine.Engine.AuditVerify | crates/ciphra-engine/src/lib.rs:842-873 | The loop recomputes the chain link by link and compares the head. |
| Engine.Engine.Candidates | crates/ciphra-engine/src/lib.rs:2145-2208 | The three access paths return the specified candidates, with their errors. |
| Engine.Engine.PrepareAll | crates/ciphra-engine/src/lib.rs:1525-1575 | The validation loop of INSERT accepts exactly rows that fit, coerce and have a new primary key. |
| Engine.Engine.PlanUpdate | crates/ciphra-engine/src/lib.rs:1741-1865 | The loops of UPDATE write the specified batch. |
| Engine.Store.Scan | crates/ciphra-engine/src/lib.rs:145-163 | A scan merges the overlay key by key into the stored pairs. |
| Engine.Store.Commit | crates/ciphra-engine/src/lib.rs:173-188 | A batch goes to the overlay in a transaction and to the store otherwise; reads see it either way. |
| AuditChain.VerifySucceeds | crates/ciphra-engine/src/lib.rs:842-873 | Verification succeeds on every log that keeps the invariant, with the whole history. |
| AuditChain.HeadDeterminesHistory | crates/ciphra-engine/src/lib.rs:403-432 | Two chained histories with the same head are the same history. |
| AuditChain.SameHeadSameHistory | crates/ciphra-engine/src/lib.rs:842-873 | Whatever two stores hold, if both verify under one head they yield the same history. |
| AuditChain.AcceptedIsLogged | crates/ciphra-engine/src/lib.rs:842-1001 | Once the log verifies, an accepted inclusion proof is for an entry that the log holds at that position. |
| AuditChain.CommitKeepsAudit | crates/ciphra-engine/src/lib.rs:2260-2293 | A commit with its entry extends the chained history by that entry. |
| KeyBytes.BigEndianOrder | crates/ciphra-engine/src/lib.rs:2221-2225 | Big-endian encodings of one length are ordered and equal as their numbers. |
| KeyBytes.RowScanIsSorted | crates/ciphra-engine/src/lib.rs:1939-1943 | Scanning a table's row prefix in byte order gives exactly its row ids, ascending. |
| KeyBytes.IndexScanIsSorted | crates/ciphra-engine/src/lib.rs:1952-1989 | Scanning an index value prefix gives exactly the row ids under that value, ascending. |
| KeyBytes.AuditScanIsSorted | crates/ciphra-engine/src/lib.rs:846-850 | Scanning the audit prefix gives the entries in numeric order. |
| KeyBytes.BytesInjective | crates/ciphra-engine/src/lib.rs:1922-2003 | No two storage keys have the same bytes. |
| Merkle.RootIsTreeHash | crates/ciphra-engine/src/lib.rs:340-365 | The level-by-level root with lone-node promotion is the tree hash of section 2.1 of RFC 6962. |
| Merkle.SiblingsArePath | crates/ciphra-engine/src/lib.rs:942-970 | The collected siblings are the audit path of section 2.1.1. |
| Merkle.SiblingsFew | crates/ciphra-engine/src/lib.rs:942-970 | A log of at most 2^d entries has proofs of at most d siblings. |
| Merkle.ProofsVerify | crates/ciphra-engine/src/lib.rs:942-1001 | Every generated proof is accepted and short. |
| Merkle.ProofsSound | crates/ciphra-engine/src/lib.rs:976-1001 | Any accepted proof, whatever its total and siblings, is for the entry at that position. |
| Merkle.ProofsUnique | crates/ciphra-engine/src/lib.rs:976-1001 | With the true total exactly the generated proof of the stored entry is accepted. |
| Merkle.MerkleLevels | crates/ciphra-engine/src/lib.rs:340-358 | The loops build the specified levels. |
| Merkle.InclusionProof | crates/ciphra-engine/src/lib.rs:942-970 | The loop collects the specified siblings. |
| Merkle.VerifyInclusion | crates/ciphra-engine/src/lib.rs:976-1001 | The loop accepts exactly what climbing the path accepts. |
| StorageHistory.HistoryRecovers | crates/ciphra-storage/src/lib.rs:67-217 | For every history of puts, deletes, batches, compactions and crashes, and every byte cut of its log: opening gives the table after the complete records of the cut and a sound log of exactly these; outside a compacted part that is the table after some prefix of the history. |
| StorageHistory.CutsExact | crates/ciphra-storage/src/lib.rs:67-217 | For every history: every byte cut of the log gives a table that the store has once held, if and only if it has once held what the first k compacted records build, for each k. |
| StorageHistory.CompactedCut | crates/ciphra-storage/src/lib.rs:203-217 | What the first k compacted records build is k of the pairs that were live at the last compaction. |
| StorageHistory.CompactedCutSplitsBatch | crates/ciphra-storage/src/lib.rs:203-217 | After a batch of two puts and a compaction, a cut between the two records recovers a table that the store has never held. |
| StorageHistory.NothingLost | crates/ciphra-storage/src/lib.rs:67-147 | Without a cut the log replays to the live table. |
| Storage.CutRecovers | crates/ciphra-storage/src/lib.rs:67-109 | Any byte prefix of a log replays to the state after its complete records; no batch is applied in part. |
| Storage.CutAfterGoodLog | crates/ciphra-storage/src/lib.rs:67-147 | The same for what was appended after opening or compaction, and everything before is kept. |
| Storage.ReplayPrefix | crates/ciphra-storage/src/lib.rs:85-100 | Truncating where replay stopped leaves a sound log of the same table. |
| Storage.SnapshotPart | crates/ciphra-storage/src/lib.rs:203-217 | The first k puts of a compaction build exactly k of the live pairs. |
| Storage.Storage.Open | crates/ciphra-storage/src/lib.rs:67-109 | Opening any bytes gives the replayed table and cuts the log where replay stopped. |
| Storage.Storage.Commit | crates/ciphra-storage/src/lib.rs:129-147 | A batch is one record, one operation or nothing, and the log stays sound for the new table. |
| Storage.Storage.Compact | crates/ciphra-storage/src/lib.rs:203-217 | Compaction writes one put for each live pair and keeps the table. |
| WalRecords.RecordRoundTrip | crates/ciphra-storage/src/lib.rs:286-362 | A record is read back whatever follows it. |
| WalRecords.RecordExact | crates/ciphra-storage/src/lib.rs:286-362 | It is read back if and only if its payload fits the 32-bit length field. |
| WalRecords.OversizeRecordLost | crates/ciphra-storage/src/lib.rs:286-301 | A put of 2^32 bytes is not read back. |
| WalRecords.TornRecord | crates/ciphra-storage/src/lib.rs:326-362 | Every strict prefix of a record is recognised as torn. |
| WalRecords.BurstRejected | crates/ciphra-storage/src/lib.rs:326-362 | A payload altered only within four consecutive bytes is rejected. |
| Crc.BurstDetected | crates/ciphra-storage/src/lib.rs:388-414 | Two inputs that differ only within four consecutive bytes have different checksums. |
| Crc.ByteStepInjective | crates/ciphra-storage/src/lib.rs:407-414 | A table-driven step is a bijection of the register. |
| Crc.ByteStepIsSteps | crates/ciphra-storage/src/lib.rs:388-414 | A table-driven step is eight steps of the polynomial division. |
| Crc.PolyValue | crates/ciphra-storage/src/lib.rs:388-398 | The register that the division uses is the reflected polynomial 0xEDB88320. |
| Crc.Checksum | crates/ciphra-storage/src/lib.rs:407-414 | The loop computes the specified checksum. |
| Replication.FollowerExact | crates/ciphra-net/src/lib.rs:227-424 | After every interleaving of writes, subscriptions, deliveries and disconnects in which snapshots are taken only in step with the node's followers, a synced node holds the leader's table at its own number. |
| Replication.DrainReaches | crates/ciphra-net/src/lib.rs:227-253 | What is queued for a node brings it to its upstream node's state, batch by batch. |
| Replication.DrainedEqualsLeader | crates/ciphra-net/src/lib.rs:227-424 | Once every link up to the leader is empty, a replica equals the leader. |
| Replication.StepExact | crates/ciphra-net/src/lib.rs:99-424 | From any state in order, a step keeps it so if and only if it is no snapshot out of step with the followers of the node that takes it: between synced states the snapshot must bring nothing new, and a node that had nothing of the leader must take the very snapshot that its follower has still to take. |
| Replication.UnfollowedAllowed | crates/ciphra-net/src/lib.rs:385-408 | A node without followers may take any snapshot. |
| Replication.ResnapshotExact | crates/ciphra-net/src/lib.rs:385-408 | When any followed node takes a snapshot, its first or another: a follower's queue still leads to the node's table if and only if the snapshot equals the node's table, or, if the node had nothing of the leader, the table that the follower has or is about to take. |
| Replication.FollowerLeftBehind | crates/ciphra-net/src/lib.rs:385-408 | A run from three empty nodes, with a reconnection in the middle, after which the last follower has an empty queue and differs from the leader. |
| Replication.EarlyFollowerLeftBehind | crates/ciphra-net/src/lib.rs:385-408 | The same without any reconnection: the last node subscribes before the middle one has reached the leader. |
| ReplicationServer.Server.ApplyRecord | crates/ciphra-net/src/lib.rs:372-424 | A snapshot replaces the state and stays here, a batch is applied and passed on as it came, anything else changes nothing. |
| ReplicationServer.Server.HandleCommit | crates/ciphra-net/src/lib.rs:309-318 | A commit is refused by a replica or applied, numbered and pushed to every live follower. |
| ReplicationServer.Server.Subscribe | crates/ciphra-net/src/lib.rs:227-253 | Under one lock: the snapshot of the table at its number, and an empty queue for all that follows. |
| ReplicationServer.Server.Push | crates/ciphra-net/src/lib.rs:99-103 | Every live follower gets the record once, those gone are dropped. |
| ReplicationServer.ReplaceExact | crates/ciphra-net/src/lib.rs:385-405 | Deleting stale keys and putting all pairs turns any table into the snapshot. |
| ReplicationCodec.MessageRoundTrip | crates/ciphra-net/src/lib.rs:372-475 | Every record of the stream is decoded from its encoding. |
| ReplicationCodec.BatchRoundTrip | crates/ciphra-net/src/lib.rs:441-475 | Every batch is decoded from its encoding. |
| ReplicationCodec.DecodeBatchLoop | crates/ciphra-net/src/lib.rs:452-475 | The loop over the shrinking slice decodes as specified, trailing bytes refused. |
| SealedChannel.AcceptedIsPrefix | crates/ciphra-net/src/lib.rs:126-168 | Whatever the network drops, repeats, reorders, reflects or invents, a reader has taken a prefix of what its peer sent. |
| SealedChannel.InOrderDelivers | crates/ciphra-net/src/lib.rs:126-168 | Frames delivered in order are all taken. |
| SqlRoundTrip.RoundTripExact | crates/ciphra-sql/src/lib.rs:225-297 | Lexing and parsing the printed form of an expression, with every kind of literal, gives it back if and only if its columns are lower-case words other than `not`, no integer is the least one, no REAL is whole or infinite, and no vector is empty or has a component that is infinite, whole from 2^63 on, or changed by way of 64 bits. |
| SqlRoundTrip.PrintedIsReread | crates/ciphra-sql/src/lib.rs:225-297 | What the printed form of any well-named expression is parsed as, or that it is not parsed at all. |
| SqlRoundTrip.ReparseStable | crates/ciphra-sql/src/parser.rs:467-561 | For every text that parses: printing and parsing again gives the same expression if and only if its REAL and VECTOR literals survive as above; columns and integers always do. |
| SqlRoundTrip.PrintInjective | crates/ciphra-sql/src/lib.rs:225-297 | Two printable expressions with the same text are the same. |
| SqlRoundTrip.LeastIntegerLost | crates/ciphra-sql/src/parser.rs:522-545 | The least 64-bit integer does not come back. |
| SqlRoundTrip.NotColumnLost | crates/ciphra-sql/src/parser.rs:485-491 | A comparison on a column called `not` does not come back. |
| SqlRoundTrip.WholeRealReparsed | crates/ciphra-sql/src/lib.rs:225-243 | The text `x = 2.0` is parsed as a REAL, printed as `x = 2`, and parsed again as an integer. |
| SqlRoundTrip.WholeRealBecomesInteger | crates/ciphra-sql/src/lib.rs:225-243 | So does every whole REAL below 2^63. |
| SqlRoundTrip.LargeComponentLost | crates/ciphra-sql/src/lexer.rs:144-170 | A vector with a whole component of 2^63 or more does not come back. |
| SqlRoundTrip.PrintedReads | crates/ciphra-sql/src/lexer.rs:57-206 | The printed text lexes to the tokens of the expression, or not at all if a number does not fit 64 bits, whatever follows. |
| SqlParser.Parser.Expr | crates/ciphra-sql/src/parser.rs:467-474 | The loop over OR computes the specified parse. |
| SqlParser.Parser.AndExpr | crates/ciphra-sql/src/parser.rs:476-483 | The loop over AND computes the specified parse. |
| SqlParser.Parser.PrimaryExpr | crates/ciphra-sql/src/parser.rs:493-520 | Parentheses, IS NULL and comparisons are parsed as specified. |
| SqlParser.Parser.Literal | crates/ciphra-sql/src/parser.rs:522-545 | Literals of every kind are parsed as specified, floats rounded to 64 bits. |
| SqlParser.Parser.VectorTail | crates/ciphra-sql/src/parser.rs:526-561 | The loop over commas collects the components, rounded to 32 bits, up to the closing bracket. |
| SqlLexer.TokenizeLoop | crates/ciphra-sql/src/lexer.rs:57-185 | The index loop produces the specified tokens. |

## Findings

Properties that the code does not have on all inputs, each with an input that shows it and the
condition under which the code does have it.

| property that fails | where | an input | the condition |
|---|---|---|---|
| An index lookup finds the rows that a scan finds. The literal is tagged as written, while the scan compares integers and reals by value. | crates/ciphra-engine/src/lib.rs:1962, 3084 | Queries.MistypedLosesRows: primary key 1, literal 1.0 | PinnedTyped, a check of the literal against its column before the call, with Comparable (Queries.CandidatesAreScan). Exactly: Queries.AccessPathExact, the literal has its column's type or no row matches |
| A statement that a scan refuses is refused by every access path. A lookup or a range blob never evaluates the rows it skips. | crates/ciphra-engine/src/lib.rs:2145-2208, 3112-3180 | Queries.LookupHidesClash: `a = 2 AND a = 'x'` over a row with primary key 1 | Comparable, a check of the predicate against the schema before the call, after which nothing fails (Predicates.ComparableExact). Exactly: Queries.AccessPathExact, every row can be evaluated or some candidate cannot |
| UPDATE keeps the equality index and the range blobs exact. Old and new cells are compared with `==`, which equates 0.0 and -0.0, but are tagged by their bits. | crates/ciphra-engine/src/lib.rs:1741-1865 | DataStatements.NegatedZeroBreaksTable: SET x = -0.0 on an indexed 0.0 | DataStatements.UpdateKeepsTable: no changed row goes from one zero to the other in an indexed column. The audit log and the plain rows do not depend on it (Transactions.ReachableIsSound) |
| A chain of replicas follows the leader. A node that takes a snapshot, the first or a later one, does not pass it on to its own followers. | crates/ciphra-net/src/lib.rs:106-121, 385-408 | Replication.EarlyFollowerLeftBehind: a follower connects before its upstream node has reached the leader; Replication.FollowerLeftBehind: the middle of three nodes reconnects | Nobody follows the node yet (Replication.UnfollowedAllowed). Exactly: Replication.StepExact over the states in order, Replication.ResnapshotExact for one follower's table |
| A logged record is read back. Lengths are cut to 32 bits. | crates/ciphra-storage/src/lib.rs:286-301 | WalRecords.OversizeRecordLost: a value of 2^32 bytes | WalRecords.RecordExact: the payload is shorter than 2^32 bytes |
| A printed expression parses to itself. | crates/ciphra-sql/src/lib.rs:225-297 | SqlRoundTrip.WholeRealReparsed: `x = 2.0`, which prints as `x = 2`; SqlRoundTrip.LeastIntegerLost: the least 64-bit integer; SqlRoundTrip.NotColumnLost: a column called `not`; SqlRoundTrip.LargeComponentLost: a vector component of 2^63 | SqlRoundTrip.RoundTripExact: lower-case column words other than `not`, no least integer, no whole or infinite REAL, every vector component readable; for parsed text SqlRoundTrip.ReparseStable |
| Every byte cut of the log gives the table after some prefix of the history. Inside a compacted part the pairs come in key order, so a cut there keeps only some of them. | crates/ciphra-storage/src/lib.rs:203-217 | StorageHistory.CompactedCutSplitsBatch: a batch of two puts, compacted, cut after the first | The cut keeps all records of the last compaction (StorageHistory.HistoryRecovers); for every cut at once, exactly: the store has once held the first k compacted pairs alone, for each k (StorageHistory.CutsExact). A crash cannot cut there, since the compacted file is synced before it replaces the log |

Two behaviours are worth knowing although nothing promised is broken. A rotation inside an open
transaction stores what the transaction has buffered and closes it (Transactions.RotationKeepsWorld).
Integers beyond 2^53 and REAL values are not in one transitive order (Predicates.MixedOrderNotTransitive), which
no typed column holds together. An ML-KEM bit that is one tolerates an error of 831 upwards where a bit that is zero tolerates 832
(MlKemCodec.BitRecovered).

## Left out

- VECTOR columns, cosine distance and their index-free search.
- REAL cells are real numbers with a separate negative zero, integers are rounded to 53 bits where they meet them; infinities and NaN in cells are not modelled.
- SqlRoundTrip.RoundTripExact: knows a float by the shortest decimal that reads as it; rounding to it is a parameter, and that reading and printing floats undo each other is the library's promise.
- Engine.Engine.Execute: SELECT has its predicate and projection; aggregates, GROUP BY, HAVING, ORDER BY, LIMIT, EXPLAIN and the index advisor are not modelled.
- Key parameters, the canary, passphrase derivation and the files around a rotation: rotation is modelled from the rebuilt store on, with one atomic swap.
- Overflow of the 64-bit row and audit numbers, of the 16-bit column numbers and of the 64-bit frame counters.
- Byte encodings of rows and schemas: sealed contents are values; the keys are modelled as bytes in KeyBytes.
- Collision resistance and secrecy: boxes open only with their key at their place, tags and digests are injective.
- Inner rounds of Keccak, SHA-256, BLAKE2b, ChaCha20 and Argon2: they are parameters, or not needed.
- MlDsaCorrectness.SignaturesVerify: is about the signatures that are returned; that the signing loop ends depends on the extendable-output function, so its attempts, and the bytes its samplers read, are bounded by parameters.
- X25519.ScalarMult: equates the code with the Montgomery ladder; that the ladder is the group's scalar multiplication, and that p is prime, are not part of this model.
- The first two blocks of each Argon2 lane and the final hash: any seeds are allowed.
- Sockets, threads, file errors, fsync and rename failures: a log is a byte sequence, a lock an atomic step.
- Several engines on one store: each caches its own audit head.
- A restarted leader counts its records from zero again: a run starts with a fresh leader.
- The handshake of the sealed channel: both ends are given the same secret.
- Statements other than expressions in the printer and parser.
- Backups, the command line, language drivers and the translator from other dialects.
