# Kaspa miner: a verified model of the proof of work, the work channel and the mining loop

This project models the parts of the miner whose correctness is not visible from one function at a time and proves
what they are for. `dafny verify dfyconfig.toml` checks all of it.

* **Rank of the block matrix.** `Matrix::compute_rank` eliminates in place, marks rows instead of swapping them and
  never writes at or left of the pivot. `GaussJordan` is the textbook elimination on whole rows. `MatrixRank` is the
  in-place code over an `array2<real>`, and its array agrees with the textbook rows on all columns still to come. The
  pivot columns are a basis of the column space, so the count is the rank, and it is full exactly if `Mx = 0` forces
  `x = 0`. Arithmetic is exact and `abs() > EPS` is read as "not zero".
* **Keccak-f[1600].** `KeccakAsm` follows the x86-64 code instruction by instruction: six complemented lanes, a last
  plane that lives in registers, two buffers exchanged every round, a loop that stops on the address of the next
  constant. It equals `KeccakSpec`, which is sections 3.2 to 3.4 of FIPS 202. The rotation table and the constants
  `iotas` are derived from algorithms 2, 5 and 6 of the standard.
* **Hashers.** `Sponge` is the sponge of section 4 of FIPS 202 with the cSHAKE padding of section 3 of NIST SP 800-185,
  for any permutation and any starting state. The hashers, which xor words into a precomputed state, equal it.
* **Header, target, matrix product, job.** `Hex`, `Header` and `HeaderHashing` decode and serialise headers; a parser
  reads every field back. `Target` and `Uint256Model` do 256-bit shift, order and compact targets. `Xoshiro` and
  `HeavyHash` generate the matrix and multiply. `Pow` puts them together: a block that a job returns verifies from
  scratch, and a job returns none exactly when it would not.
* **The work channel and the miners.** `WatchSwap` is a labelled transition system for any number of swaps and handles
  in any interleaving, with addresses that may be reused as soon as no holder is left. `MinerThreads` is the thread
  loop, as a class and as a system of threads, a channel, a shared 64-bit counter and a logger. `WorkChannel` proves
  that the channel steps of that system are what whole calls do on runs of `WatchSwap`. `MinerManager` is
  `process_block`.

What the specifications themselves mean is stated without them: `KeccakBits` gives the mappings of FIPS 202 bit by bit
and on any run, `HeaderLayout` places every field and digit of a header in its bytes, `PowMeaning` spells out what it
is for a header to verify, and the operations on words are given as arithmetic in `Words`.

Words are lists of 64 bits, least significant first (`Words`), so rotations, complements and wrap-around are explicit.
Blake2b is a function of all bytes written. A panic of `unwrap` is a result (`false` or `Panic`) where the model can
reach it. `hide` statements only keep definitions out of single proofs.

Two results are stated as exact conditions because the plain claim fails:

* `Matrix::generate` has no bound on its loop. `HeavyHash.GeneratesWithinOnePeriodOrNever` says that it ends within 2^256
  turns or never: the generator comes back to its seed (`Xoshiro.RunRecurs`), so if none of the first 2^256 matrices is
  regular, none ever comes. `HeavyHash.Generates`, the condition, looks at those matrices only, and `HeavyHash.Generate`
  finishes under it with the first regular one. `HeavyHash.ZeroSeedGeneratesNothing` shows that the all-zero hash does
  not meet the condition. Whether every other seed meets it is left open.
* `serialize_header` panics exactly on the headers that are not `WellFormed` (`HeaderHashing.SerializeHeader`);
  `Header.BothOutcomesOccur` gives one header of each kind.

## Model

| member | source | states |
|---|---|---|
| MatrixRank.ComputeRank | src/pow/heavy_hash.rs:68-101 | For every square matrix the count is the largest number of independent columns, equals the number of pivot columns of the textbook elimination, and is full exactly if Mx = 0 forces x = 0 |
| MatrixRank.ConvertToFloat | src/pow/heavy_hash.rs:55-66 | Entry (k, p) of the working array is entry (k, p) of the matrix |
| MatrixRank.FindPivotRow | src/pow/heavy_hash.rs:78-84 | The in-place search picks the row the textbook elimination picks, or none when that has none |
| MatrixRank.DivideRow | src/pow/heavy_hash.rs:88-90 | Right of the pivot the row becomes the textbook pivot row; nothing else changes |
| MatrixRank.SubtractRow | src/pow/heavy_hash.rs:92-96 | Right of the pivot one other row becomes the textbook row; nothing else changes |
| MatrixRank.PivotArray | src/pow/heavy_hash.rs:88-97 | After a pivot step the array, stale entries aside, is the textbook matrix on all later columns |
| GaussJordan.PivotKeepsKernel | src/pow/heavy_hash.rs:88-97 | A pivot step keeps the solution set of Mx = 0, in both directions |
| GaussJordan.ProcessedColumnKept | src/pow/heavy_hash.rs:78-98 | Columns already processed keep their form: unit vectors, or zero on all free rows |
| GaussJordan.EliminatedIsReduced | src/pow/heavy_hash.rs:73-99 | After any number of columns: pivots match selected rows, processed columns are reduced, solutions are those of the original matrix |
| GaussJordan.PivotsIndependent | src/pow/heavy_hash.rs:68-101 | The pivot columns are linearly independent in the original matrix |
| GaussJordan.NonPivotDependence | src/pow/heavy_hash.rs:85-98 | A column without a pivot gives an explicit non-zero solution and is a combination of the pivot columns |
| GaussJordan.LargerSetIsDependent | src/pow/heavy_hash.rs:68-101 | Any set of more columns than pivots has a non-zero solution supported on it |
| GaussJordan.PivotsGiveRank | src/pow/heavy_hash.rs:68-101 | The pivot columns are independent, span all columns, and their number is the rank |
| GaussJordan.FullRankIffNonSingular | src/pow/heavy_hash.rs:34-36 | A rank is full exactly if Mx = 0 forces x = 0 |
| GaussJordan.FullRankLeavesPermutation | src/pow/heavy_hash.rs:73-99 | With n pivots the elimination ends in a permutation matrix |
| LinearAlgebra.Underdetermined | src/pow/heavy_hash.rs:68-101 | Fewer equations than unknowns in a set always have a non-zero solution on that set |
| LinearAlgebra.DotOfAnySums | src/pow/heavy_hash.rs:68-101 | The products that make up Mx are the last of any sequence of partial sums |
| KeccakAsm.KeccakF1600 | src/asm/keccakf1600_x86-64-elf.s:269-333 | On every state the caller's buffer ends as Keccak-f[1600] of FIPS 202 of what it held |
| KeccakAsm.Permute | src/asm/keccakf1600_x86-64-elf.s:7-262 | Wherever the table is placed after a 256-byte boundary, exactly 24 passes run, the result is in the caller's buffer, and it is the complemented Keccak-f of the complemented input |
| KeccakAsm.Pass | src/asm/keccakf1600_x86-64-elf.s:19-256 | One pass on a complemented state gives the standard round, complemented in the same lanes, in the other buffer, with the last plane in the registers |
| KeccakAsm.ThetaBlock | src/asm/keccakf1600_x86-64-elf.s:20-63 | The column sums carried in registers give the five theta effects of the state |
| KeccakAsm.Plane0 | src/asm/keccakf1600_x86-64-elf.s:64-102 | Lanes 0 to 4 of the new state, with the round constant; the address moves to the next one |
| KeccakAsm.Plane1 | src/asm/keccakf1600_x86-64-elf.s:105-142 | Lanes 5 to 9 of the new state; other lanes stay |
| KeccakAsm.Plane2 | src/asm/keccakf1600_x86-64-elf.s:145-181 | Lanes 10 to 14 of the new state; other lanes stay |
| KeccakAsm.Plane3 | src/asm/keccakf1600_x86-64-elf.s:184-218 | Lanes 15 to 19 of the new state; other lanes stay |
| KeccakAsm.Plane4 | src/asm/keccakf1600_x86-64-elf.s:221-256 | Lanes 20 to 24 of the new state, in memory and registers; the buffers are exchanged |
| KeccakAsm.Enters | src/asm/keccakf1600_x86-64-elf.s:20-63 | Which lanes enter chi complemented: the complement mask passes through theta, rho and pi lane by lane |
| KeccakAsm.StoredIsChi | src/asm/keccakf1600_x86-64-elf.s:64-253 | The and/or forms of the five planes are chi of the true lanes, complemented where the mask says |
| KeccakAsm.RoundByPlanes | src/asm/keccakf1600_x86-64-elf.s:19-256 | The five stored planes together are one standard round on the complemented state |
| KeccakAsm.IotaIsStandard | src/asm/keccakf1600_x86-64-elf.s:505-529 | Every entry of the table is the constant that algorithms 5 and 6 of FIPS 202 define |
| KeccakAsm.ComplementInPlace | src/asm/keccakf1600_x86-64-elf.s:298-315 | Entry and exit complement lanes 1, 2, 8, 12, 17 and 20 and no other |
| KeccakAsm.ComplementTwice | src/asm/keccakf1600_x86-64-elf.s:298-315 | The exit complement cancels the entry complement |
| KeccakSpec.RhoTableIsAlgorithm2 | src/asm/keccakf1600_x86-64-elf.s:64-232 | The rotation counts that the code must match: lane 0 has none, and every other lane is met at exactly one step of the walk of algorithm 2 of FIPS 202 and has the offset of that step |
| KeccakBits.ThetaBit | src/asm/keccakf1600_x86-64-elf.s:20-63 | The theta the code is held to is algorithm 1 of FIPS 202 bit by bit, from the column parities at z and z - 1 |
| KeccakBits.ColumnIsParity | src/asm/keccakf1600_x86-64-elf.s:20-57 | Bit z of a column sum is the exclusive or of the five bits of the column |
| KeccakBits.RhoBit | src/asm/keccakf1600_x86-64-elf.s:64-232 | Rotating a lane moves bit z to bit z plus its offset modulo 64 |
| KeccakBits.OffsetsOfAnyWalk | src/asm/keccakf1600_x86-64-elf.s:64-232 | On any walk from (1, 0) by (x, y) to (y, 2x + 3y), step t has offset (t + 1)(t + 2) / 2 modulo 64 |
| KeccakBits.PiLane | src/asm/keccakf1600_x86-64-elf.s:64-228 | Lane (x, y) after pi is lane (x + 3y, x), algorithm 3 |
| KeccakBits.ChiBit | src/asm/keccakf1600_x86-64-elf.s:75-253 | Bit by bit algorithm 4: the next bit of the row, inverted, and the one after it |
| KeccakBits.IotaBit | src/asm/keccakf1600_x86-64-elf.s:77-78 | The last mapping changes the bits of lane 0 by those of the constant and no others |
| KeccakBits.RoundConstantBit | src/asm/keccakf1600_x86-64-elf.s:505-529 | The only bits of a round constant are at 2^j - 1 and come from step j + 7 ir of the register |
| KeccakBits.RcOfAnyRun | src/asm/keccakf1600_x86-64-elf.s:505-529 | On any run of the 8-bit register of algorithm 5, that bit is the first bit of the register |
| KeccakBits.KeccakFOfAnyRun | src/asm/keccakf1600_x86-64-elf.s:19-262 | Any run of 24 rounds, each of the five mappings in order, ends in the permutation that the code is held to |
| Sponge.OneBlockSponge | src/pow/hasher.rs:17-66 | For any permutation and prefix state: xoring the padding beforehand and the words later gives cSHAKE256 of the message |
| Sponge.PaddedBits | src/pow/hasher.rs:18-19 | The padded message is the message, 00, 1, zeros and 1, up to the next multiple of 1088 bits |
| Sponge.PaddingWords | src/pow/hasher.rs:18-19 | In words the padding is 0x04 after the message and 0x80 in the last byte of lane 16 |
| Sponge.OneBlockBits | src/pow/hasher.rs:17-66 | A short message is xored into the state bit by bit, the permutation is applied once, and the first four lanes come out |
| Hasher.NewPowHasher | src/pow/hasher.rs:29-36 | Each lane: the literal of the initial state, xored with the hash word in lanes 0 to 3 and with the timestamp in lane 4 |
| Hasher.FinalizeWithNonce | src/pow/hasher.rs:39-43 | The first four lanes of Keccak-f after the nonce entered lane 9 |
| Hasher.PowHasherIsCShake | src/pow/hasher.rs:17-43 | For every hash, timestamp and nonce: both steps together are cSHAKE256 of the 80-byte message |
| Hasher.HeavyHasherHash | src/pow/hasher.rs:59-66 | The result is cSHAKE256 of the 32-byte message |
| Hasher.HeavyHasherIsCShake | src/pow/hasher.rs:47-66 | For every hash: one xor and one permutation are cSHAKE256 of the message |
| Hasher.PowDigestMessage | src/pow.rs:37-48 | The message is hash, time, 32 zero bytes and nonce, in this order |
| Hasher.HeavyDigestMessage | src/pow/hasher.rs:59-66 | The message is the 256 bits of the hash |
| Hasher.PowPrefixLanes | src/pow/hasher.rs:17-19 | Without the padding, lanes 10 and 16 of the initial state are the numbers noted beside it |
| Hasher.HeavyPrefixLanes | src/pow/hasher.rs:47-49 | The same for lanes 4 and 16 of the other initial state |
| Xoshiro.Generator.U64 | src/pow/xoshiro.rs:18-30 | The number drawn is s0 plus the 23-bit rotation of s0 + s3, in arithmetic modulo 2^64, and every bit of the four new words is given from the old ones |
| Xoshiro.IterateOfAnyRun | src/pow/xoshiro.rs:18-30 | Any run of the generator goes through the states that the matrix is defined by |
| Words.RolValue | src/pow/xoshiro.rs:19-27 | A rotation multiplies by 2^n modulo 2^64 and adds what left at the top |
| Words.ShlValue | src/pow/xoshiro.rs:20 | A left shift multiplies modulo 2^64 |
| Words.ShrValue | src/pow/heavy_hash.rs:49 | A right shift divides |
| Words.XorAndOrValue | src/pow/xoshiro.rs:21-26 | Exclusive or is the sum without carries, for any two words |
| Words.NotValue | src/asm/keccakf1600_x86-64-elf.s:298-303 | A complement is 2^64 - 1 minus the number |
| Words.AddWraps | src/pow/xoshiro.rs:19 | Addition of words is addition modulo 2^64 |
| Xoshiro.PreviousOfNext | src/pow/xoshiro.rs:20-27 | The state step has a left inverse, given explicitly |
| Xoshiro.NextOfPrevious | src/pow/xoshiro.rs:20-27 | The same inverse is a right inverse, so the step is a bijection |
| Xoshiro.OnlyZeroLeadsToZero | src/pow/xoshiro.rs:20-27 | The next state is zero exactly if the state is zero |
| Xoshiro.NeverZero | src/pow/xoshiro.rs:18-30 | A run from a non-zero seed never reaches the zero state |
| Xoshiro.RunsBackwards | src/pow/xoshiro.rs:18-30 | Any run can be undone step by step to its seed |
| Xoshiro.RunRecurs | src/pow/xoshiro.rs:18-30 | Looking at every n-th state, each run is back at its seed after at most 2^256 looks |
| Xoshiro.RunRepeats | src/pow/xoshiro.rs:18-30 | Every later state equals one of the first period |
| HeavyHash.RandRowFrom | src/pow/heavy_hash.rs:43-50 | A row takes four draws; entry j is nibble j mod 16 of draw j / 16 |
| HeavyHash.RandMatrixNoRankCheck | src/pow/heavy_hash.rs:41-52 | The matrix takes exactly 256 draws and entry (i, j) is nibble j mod 16 of draw 4i + j / 16 |
| HeavyHash.NestedLoops | src/pow/heavy_hash.rs:15-22 | The commented-out loops, overwriting a matrix in place, make the same matrix from the same 256 draws as the closures |
| HeavyHash.MaskedShiftIsNibble | src/pow/heavy_hash.rs:49 | Shifting and masking gives the four bits at the place |
| HeavyHash.EntryOfAnyRun | src/pow/heavy_hash.rs:41-52 | As numbers, on any run: entry (i, j) of matrix k is draw 256k + 4i + j / 16 divided by 16^(j mod 16), modulo 16 |
| HeavyHash.Attempt | src/pow/heavy_hash.rs:32-37 | One turn yields the next matrix of the stream and accepts it exactly if it is regular |
| HeavyHash.Generate | src/pow/heavy_hash.rs:30-38 | Within 2^256 turns the result is the first regular matrix of the continuing stream of the seed, and the number of turns is its place |
| HeavyHash.GeneratedIsUnique | src/pow/heavy_hash.rs:30-38 | A seed determines its matrix |
| HeavyHash.GeneratesWithinOnePeriodOrNever | src/pow/heavy_hash.rs:32-37 | A regular matrix comes at all exactly if one of the first 2^256 of the stream is regular |
| HeavyHash.ZeroSeedGeneratesNothing | src/pow/heavy_hash.rs:30-38 | From the all-zero hash no regular matrix ever comes |
| HeavyHash.NibbleVector | src/pow/heavy_hash.rs:107-112 | The vector holds the nibbles of the hash bytes, high one first |
| HeavyHash.ComponentIsNibble | src/pow/heavy_hash.rs:115-122 | Every row sum is at most 14400 and its tenfold shift at most 14, so no u16 overflows and each fits a nibble |
| HeavyHash.Accumulate | src/pow/heavy_hash.rs:118-121 | One += in 16 bits equals the unbounded sum |
| HeavyHash.Product | src/pow/heavy_hash.rs:115-123 | Each byte packs two components of floor(Mv / 1024) |
| HeavyHash.MixIn | src/pow/heavy_hash.rs:103-126 | The bytes are the packed floor(Mv / 1024) xor the bytes of the hash |
| HeavyHash.HeavyHash | src/pow/heavy_hash.rs:103-128 | The value is cSHAKE256 of 32 bytes given bit by bit: byte i of the hash xor 16 times component 2i plus component 2i + 1 of floor(Mv / 1024), v being the nibbles of the hash bytes, high one first |
| HeavyHash.RowTimesHashOfAnySums | src/pow/heavy_hash.rs:116-121 | A row times the hash is the last of any sequence of partial sums over the bytes of the hash |
| Uint256Model.FromLeBytes | src/target.rs:46-53 | The limbs are the little-endian words of the bytes |
| Uint256Model.ToLeBytes | src/target.rs:56-61 | The bytes are those of the limbs in order |
| Uint256Model.OfBytesRoundTrip | src/target.rs:46-61 | Bytes to integer and back give the bytes |
| Uint256Model.BytesRoundTrip | src/target.rs:46-61 | Integer to bytes and back give the integer |
| Uint256Model.ValueOfLimbs | src/target.rs:26-28 | The limbs are the digits of the value in base 2^64, least significant first |
| Uint256Model.BytesAreLittleEndian | src/target.rs:46-61 | Byte k is the value divided by 256^k, modulo 256 |
| Uint256Model.Compare | src/target.rs:79-84 | Comparing limbs from the top is the order of the 256-bit values |
| Uint256Model.ValueInjective | src/target.rs:27-28 | Equal values are equal integers |
| Target.ShiftLeft | src/target.rs:90-106 | The value is v * 2^s mod 2^256 for every v and s, and every += stays below 2^64 |
| Target.PartialStep | src/target.rs:95-104 | No += overflows, at any limb and any moment of the loop |
| Target.ShiftedAndCarriedAreDisjoint | src/target.rs:98-102 | The shifted part and the carry of a limb share no bit |
| Target.FromCompactTarget | src/target.rs:4-24 | The value is the mantissa scaled by a power of 256, modulo 2^256, or zero above 0x7FFFFF |
| Target.CompactValueIs | src/target.rs:10-24 | The decoded number in shifts of whole bytes and with the literal limit 0x7FFFFF, for every input |
| Target.NoTruncationUpTo32 | src/target.rs:16-23 | Up to exponent 32 the scaling is exact |
| Target.NoTruncationIff | src/target.rs:16-23 | For every exponent above 3 the scaling is exact if and only if the mantissa is below 256^(35 - e), or zero above exponent 35 |
| Hex.Val | src/pow.rs:143-150 | A digit or the error with the character and its index |
| Hex.DigitsInOrder | src/pow.rs:144-148 | A character is accepted exactly if it is the digit of its value in one of the two alphabets |
| Hex.DecodeToSlice | src/pow.rs:129-153 | Which answer comes for which input, and exactly which bytes of the slice are overwritten with what, also on errors |
| Hex.AnswerIsUnique | src/pow.rs:131-153 | The three errors and success exclude each other |
| Hex.NibblesMakeByte | src/pow.rs:139 | Shifting and or-ing two digits gives the byte of value 16 hi + lo |
| Hex.HexByteValue | src/pow.rs:139 | The byte of two digits has the value 16 times the first plus the second |
| Hex.HexBytesStandFor | src/pow.rs:138-140 | Every byte of a decoded string has that value |
| Hex.HexBytesLoseOnlyCase | src/pow.rs:138-150 | Two strings of one even length decode equally exactly if their digits have equal values |
| Header.EncodeRoundTrip | src/pow.rs:74-118 | A parser recovers every field from the bytes, for any number of levels and hashes |
| Header.LevelsReadBack | src/pow.rs:81-87 | Parent levels and hashes are read back, whatever follows them |
| Header.SerialisationIsUnambiguous | src/pow.rs:74-118 | Full bytes are equal exactly if all decoded fields are; pre-pow bytes exactly if all but nonce and timestamp are |
| HeaderLayout.EqualBytesEqualHeaders | src/pow.rs:74-118 | Two headers have equal bytes if and only if version, bits, timestamp, nonce, both scores and the digits of all strings agree; equal pre-pow bytes the same without nonce and timestamp |
| HeaderLayout.NumbersAtTheirPlaces | src/pow.rs:74-114 | Where each number of a header is, and its value byte by byte, for both forms |
| HeaderLayout.StringsAtTheirPlaces | src/pow.rs:80-117 | Where levels, root hashes, blue work and pruning point are, and the digits their bytes stand for |
| HeaderLayout.HeaderIsItsParts | src/pow.rs:74-118 | The bytes are these parts in this order and nothing else |
| HeaderLayout.WellFormedIsAccepted | src/pow.rs:77-117 | Accepted headers: version at most 65535, 64 hexadecimal digits per hash, at most 64 in the blue work |
| Header.BothOutcomesOccur | src/pow.rs:77-117 | A concrete header that is serialised and one, with version 65536, that panics |
| HeaderHashing.SerializeHeader | src/pow.rs:74-118 | It panics exactly if the header is not well formed, otherwise writes exactly the bytes of the header, whatever the shared buffer held |
| HeaderHashing.WriteParents | src/pow.rs:81-87 | All levels are written with counts, or a bad hash string makes it panic |
| HeaderHashing.WriteBlueWork | src/pow.rs:104-114 | Length and decoded bytes of the evenly padded string; it panics exactly on a non-digit or more than 64 characters |
| HeaderHashing.WriteHash | src/pow.rs:84-85 | One decoded hash is written, or it panics exactly if the string is not 64 digits |
| Pow.NewState | src/pow.rs:30-42 | Missing header, panic or a state whose matrix, target and hasher are those of the header |
| Pow.CalculatePow | src/pow.rs:46-50 | The pow value of the state, through the fast path |
| Pow.PowOfIsHeaderPow | src/pow.rs:46-50 | That value is the proof-of-work value of the header with the nonce of the state, defined without states |
| Pow.CheckPow | src/pow.rs:53-57 | True exactly if the value is at most the target, as numbers |
| Pow.PassesIffVerifies | src/pow.rs:53-57 | The check passes exactly if the header with this nonce verifies on its own against its compact target |
| Pow.GenerateBlockIfPow | src/pow.rs:60-67 | A block comes exactly if the tried header verifies, and it is the template with that nonce and nothing else changed |
| Pow.SerializedWithoutNonce | src/pow.rs:75 | The pre-pow bytes do not depend on the nonce |
| Pow.SolvedBlockVerifiesFromScratch | src/pow.rs:30-67 | A state rebuilt from the solved block has the same pre-pow hash, matrix, target, hasher and pow value, and passes exactly if the block verifies |
| Pow.CheckFromScratch | src/pow.rs:30-57 | For any block: a new state from it, with the nonce of its header, passes the check exactly if the header is there, well formed and verifies |
| Pow.SolveAndCheckFromScratch | src/pow.rs:30-67 | End to end: a job returns a block exactly when the tried block, run through a new state and a check, passes; it is that block, and the new state can always be built |
| PowMeaning.VerifiesMeansWork | src/pow.rs:30-57 | A header verifies if and only if there are a generated matrix, a digest of hash, time and nonce, mixed bytes and their digest, each spelled out, with a value at most the compact target |
| PowMeaning.WorkIsUnique | src/pow.rs:30-50 | The header determines matrix, digest, mixed bytes and value |
| PowMeaning.PowIs | src/pow.rs:34-50 | The value of a header comes from its pre-pow bytes, its timestamp and its nonce |
| WatchSwap.StepKeepsInv | src/swap_rust.rs:46-89 | Every step of every thread keeps the invariant on memory, versions, mutex and wake-ups |
| WatchSwap.RunsKeepInv | src/swap_rust.rs:22-90 | It holds in every state of every run |
| WatchSwap.NobodySleepsOnAnOldValue | src/swap_rust.rs:46-50 | No lost wake-up: with no swap between its store and its notification, every sleeper has cached the current value |
| WatchSwap.SleeperWithOldValueIsReachable | src/swap_rust.rs:75-89 | A run exists in which a handle sleeps on an old value between store and notification |
| WatchSwap.NotifyWakesAll | src/swap_rust.rs:47-49 | Because the notifier holds the mutex, nobody is between comparison and wait |
| WatchSwap.StoreKeepsMemory | src/swap_rust.rs:75-76 | A store never publishes an address that some holder still has |
| WatchSwap.NewSwapKeepsMemory | src/swap_rust.rs:76 | A new Arc gets an address that nobody holds |
| WatchSwap.HeldPointersStayReadable | src/swap_rust.rs:11-14 | What a holder has can be read and is what its own store put there, although addresses are reused |
| WatchSwap.ComparisonIsRight | src/swap_rust.rs:53-63 | Equal pointers mean the cached value is the loaded one, unequal ones a later store; afterwards the handle has what was loaded |
| WatchSwap.PointersTellStores | src/swap_rust.rs:55-57 | Two held pointers are equal exactly if they come from one store or both are empty |
| WatchSwap.VersionsNeverDecrease | src/swap_rust.rs:53-68 | Every handle sees the stores in their order |
| WatchSwap.WaitReturnsNews | src/swap_rust.rs:81-89 | A wait returns only with a later store, and from an empty cached value only with work |
| WatchSwap.SwapReturnsPrevious | src/swap_rust.rs:75-79 | A swap holds and returns what was in the cell just before its own store |
| WatchSwap.StoreStoresArgument | src/swap_rust.rs:75-76 | After a store the cell reads as the argument of that call |
| WatchSwap.OwnerCanStep | src/swap_rust.rs:46-89 | The owner of the mutex always has an enabled step |
| WatchSwap.MutexIsGivenBack | src/swap_rust.rs:46-89 | The owner frees the mutex after at most three own steps, whatever others do |
| WorkChannel.StepRefines | src/swap_rust.rs:53-89 | Every step of every run is, for the miners, a look of one handle at the channel at its load, or nothing; values cached by other handles never change |
| WorkChannel.StoreIsPublish | src/swap_rust.rs:75-79 | A store appends one job to what the miners see as the channel; no other step changes it |
| WorkChannel.CompareIsRefresh | src/swap_rust.rs:53-68 | Every comparison has its own load before it and acts on a thread's cached value as the miners' refresh with what the channel held at that load |
| WorkChannel.WaitIsRefill | src/swap_rust.rs:81-89 | A completed wait is the miners' refill at one load inside it, with differing pointers; from an empty cached value it brings work |
| MinerThreads.MinerThread.Turn | src/miner.rs:139-166 | From the old fields: the block, the next nonce, what is counted, when the thread ends and why, and what it works on next; all this is refill, attempt, report and refresh in a row |
| MinerThreads.StepKeepsThreads | src/miner.rs:139-166 | Every step of any thread, the channel or the logger keeps the thread invariant |
| MinerThreads.NoncesAreConsecutive | src/miner.rs:136-151 | Attempt j uses nonce n0 + j mod 2^64, and a thread is idle exactly if its cached value is empty |
| MinerThreads.WaitBringsWork | src/miner.rs:140-145 | A thread that waits continues with work, given that waits return news, which WorkChannel.WaitIsRefill proves |
| MinerThreads.OldWorkEndsWithinABatch | src/miner.rs:153-160 | At most 128 attempts after a store use a template from before it |
| MinerThreads.NoHashIsLost | src/miner.rs:153-176 | Logged plus pending hashes equal completed attempts plus (n0 mod 128) minus (n mod 128), summed over threads, up to laps of the 64-bit counter |
| MinerThreads.AttemptsAreHonest | src/miner.rs:146-150 | Each attempt finds a block exactly if the header of its template verifies with its nonce |
| MinerThreads.FoundBlocksVerify | src/miner.rs:148-150 | Every block found on any run verifies on its own |
| MinerThreads.AttemptFindsVerifiedBlock | src/miner.rs:146-150 | An attempt finds its template with its nonce if that header verifies, and nothing otherwise |
| MinerThreads.PcFollows | src/miner.rs:139-166 | After every step: where each thread is, and what an attempt records |
| MinerThreads.StopsOnlyOnShutdown | src/miner.rs:155-157 | On any run a thread is stopped only by its own report that saw the shutdown |
| MinerThreads.SharedFollows | src/miner.rs:153-176 | What each step does to channel, counter and logged sum |
| MinerThreads.LoggedAndPending | src/miner.rs:153-176 | The hash count as any running total over the threads, with 128 and 2^64 as literals |
| MinerManager.MinerManager.ProcessBlock | src/miner.rs:101-118 | How flag, id and channel change for a template, no block, a missing header and a malformed one; stored jobs are good jobs |
| MinerManager.TemplateIdsAreDistinct | src/miner.rs:104-106 | Later templates have larger ids, whatever calls lie between |
| MinerManager.NotSyncedMeansEmpty | src/miner.rs:107-114 | After any calls: if the flag is false the channel is empty |
| MinerManager.SameComparisons | src/miner.rs:108-110 | Between any two moments the cell's pointer changes exactly if it would without skipping |
| MinerManager.SkippingIsNotObservable | src/miner.rs:108-116 | Any receiver observes the same with skipped and with repeated empty stores |

## Left out

- MatrixRank.ComputeRank: exact reals with a test for zero instead of f64 with the threshold 1e-9, because rounding is not modelled; nothing is claimed about f64.
- MatrixRank.FindPivotRow: tests for zero where the source compares with 1e-9, as above.
- MatrixRank.DivideRow: exact division, as above.
- MatrixRank.SubtractRow: exact subtraction and product, as above.
- MatrixRank.PivotArray: exact arithmetic and a test for zero, as above.
- HeavyHash.Attempt: accepts by the exact rank, where the source decides by the rank that f64 gives.
- HeavyHash.Generate: needs a regular matrix among the first 2^256 of the stream, the exact condition for the loop to end; that every non-zero seed meets it is neither proved nor refuted, because it would need the rank of concrete matrices for all seeds.
- Hasher.PowHasherIsCShake: the state after the customisation block is taken from the literal INITIAL_STATE; that it is Keccak-f of the encoded function name and string is a concrete evaluation and not part of this model.
- Hasher.HeavyHasherHash: the same holds for the state of "HeavyHash".
- Hasher.HeavyHasherIsCShake: the same holds for the state of "HeavyHash".
- Header.SerialisationIsUnambiguous: list lengths must fit the 64-bit counts they are written as.
- WatchSwap.NobodySleepsOnAnOldValue: sequentially consistent steps; weak memory, poisoning, fairness and liveness of the scheduler are not modelled, and the cell of `arc_swap` is atomic with counted holders.
- WatchSwap.StepKeepsInv: WatchSwap is a transition system over values, not a class, because its methods interleave; `peek_cached` only reads and has no step. Steps of one handle exclude each other as `&mut self` demands.
- MinerThreads.MinerThread.Turn: waits, loads, the shutdown flag and a failing send are inputs; `get_changed` and `wait_for_change` are single steps here, which WorkChannel.CompareIsRefresh and WorkChannel.WaitIsRefill prove of whole calls.
- MinerThreads.WaitBringsWork: takes from the guard of Refill that the pointer changed; WorkChannel.WaitIsRefill proves that guard of every completed wait.
- MinerManager.MinerManager.ProcessBlock: a panic on a malformed header counts as an error result; state ids are unbounded.
- Blake2b is an uninterpreted function of the bytes; the `keccak` crate and the other four assembly files, which repeat the same round with other calling conventions, are not part of this model.
- `SHA3_absorb` and `SHA3_squeeze`, which the Rust code never calls, and saving of registers on the stack.
- gRPC client, protocol messages, command line, logging, hash-rate formatting, throttling and CPU counting: plumbing around what is modelled.
