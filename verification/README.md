# Proofs about the challenges

This project models the algorithmic cores of the repository in Dafny and proves what
they are for. Every theorem is a statement about all inputs, all runs or all
interleavings. `dafny verify dfyconfig.toml` checks the whole project.

## What is modelled

**Threshold ECDSA** (`ModArith`, `Polynomial`, `Lagrange`, `Shamir`, `Network`,
`SmpcProgram`, `SmpcLockstep`, `SmpcSigning`, `SmpcNode`, `SmpcDelivery`, `Mesh`).
The group order q is any prime; inverses are derived from primality. Points of the
curve are represented by their discrete logarithms, the x-coordinate of a point by an
arbitrary function, and the random coefficients that the nodes draw by arbitrary
inputs. `Network` is a generic machine of nodes that in each round send one packet to
every peer and then take one packet from every peer, over FIFO channels, in any order
of steps; it proves that asynchrony is harmless. `SmpcProgram` says what one round of
the signing program sends and remembers; `SmpcNode` is the program itself, a class
whose methods have the names and the loops of the original and are proved to follow
the rounds; `SmpcDelivery` connects the two: fed with the deliveries of a finished
run, the methods behave as the node in that run. `SmpcLockstep` shows that after each
round every node holds the value, at its own abscissa, of one polynomial that all
nodes share; `SmpcSigning` concludes with the signature equation and its verification.
`Mesh` is the set-up of the channels before.

**Recovering the key from a trace** (`Primes`, `Factorize`, `KeyRecovery`,
`TraceRecovery`, `ProthPrimes`, `SampleNonces`): trial division, the search among the
divisors, and the formula for the key. `TraceRecovery` goes from the packets that a
finished run of the signing program sends in clear to the key, and says for every run
whether it is found. `SampleNonces` holds a concrete nonce that the search finds and one
that it misses; the primes in them, on either side of the limit of trial division, are
proved prime in `ProthPrimes`, from Fermat's little theorem.

**AES-256, CBC and CTR** (`Gf256`, `AesTables`, `Aes`, `AesBuffer`, `AesKey`,
`AesVectors`, `AesModes`, `AesCtr`). `Aes` holds the round functions and the ciphers of FIPS 197 on
values, `AesBuffer` the code that changes a buffer in place and is proved to compute
them. The field arithmetic is compared with the product of polynomials modulo
x^8 + x^4 + x^3 + x + 1; that the two column mixings undo each other is shown by
multiplying circulant matrices over GF(2)[x]. `AesVectors` proves the known answers of
FIPS 197, word by word and round by round. Each mode is also characterised byte by byte.

**The two-processor HSM** (`RingBuffer`, `Hsm`, `HsmFirmware`, `HsmWire`). `RingBuffer` proves
that the receive buffers are bounded queues, with the interrupt placed anywhere
between the steps of a pop. `Hsm` is a machine of the two programs, the two lines and
the two buffers, one byte at a time. `HsmFirmware` has the two programs as classes and
proves that they make the steps of that machine; the cipher is the one of `AesModes`.
`HsmWire` states the protocol in the numbers that travel, and that the queues of the
machine are the ring buffers. The PIN and the keys are parameters. A sequence of commands is modelled without the
reset of the security processor that precedes each connection, which asks more of the
protocol.

**Checkers** (`SudokuTables`, `Sudoku`, `Crc32`, `Rearrangement`, `Libcheck`): the Sudoku
check by products of primes, the CRC-32 of the modified node with the contract that
inverts it, and the comparison in shuffled order.

## Limits that the proofs show

- A comment in the node says that its `crc32` is the one of Python. The bytes are read as
  plain `char`, which is signed on the usual host and in this model, so each byte from 128
  on leaves a deviation in the register. `Crc32.StandardExactly` gives the exact condition
  for every string: the value is Python's exactly when these deviations cancel out. They
  do without such bytes (`Crc32.StandardOnSevenBits`), never with exactly one
  (`Crc32.OneHighByteDiffers`), and for some strings with several
  (`Crc32.DeviationsCancel`).
- The signing program neither draws again when r or s is 0 nor checks it. A pair
  verifies exactly when both are non-zero (`SmpcSigning.SignatureVerifies`). The inversion
  raises exactly when the product of nonce and mask vanishes. The code raises in one more
  case, which the model runs through: when a node's share of the nonce vanishes, its point
  is the identity, which the points round cannot carry. `TraceRecovery.IdentityOnWire` shows
  that the identity is due on a channel in exactly that case.
- The factor search does not find every nonce. Trial division stops at the first factor
  above 2^24 and leaves the larger primes of the opened value in one piece. Exactly those
  divisors are tried that take all of that piece or share no prime with it
  (`Factorize.TriedExactly`), and these are all divisors exactly if at most one such prime
  is left (`Factorize.AllTriedExactly`). `SampleNonces.SearchMisses` gives a nonce of 68
  bits that is accepted for its point and not found.
- The next write index of the ring buffer is held in eight bits although its type
  parameter is any size: the buffer is a bounded queue exactly if it has at most 256
  cells (`RingBuffer.PutRightExactly`).
- The shuffle reaches every order exactly if the range of the random generator reaches
  the last position at every step (`Libcheck.EveryOrderReached`), for instance if it is at
  least n*(n-1) (`Libcheck.WideRange`).

## Model

| member | source | states |
|---|---|---|
| Shamir.SssRecover | smpc_signature/smpc_signer.py:42-53 | the nested loops return the combination of the shares with their Lagrange weights at 0, or raise exactly when two different abscissas are congruent |
| Shamir.TermOf | smpc_signature/smpc_signer.py:46-51 | the inner loop multiplies a share by its weight and fails exactly when a difference has no inverse |
| Lagrange.WeightsSumToOne | smpc_signature/smpc_signer.py:47-51 | the weights of any distinct abscissas add up to 1 modulo q |
| Lagrange.InterpolationExact | smpc_signature/smpc_signer.py:42-53 | for every polynomial with at most as many coefficients as there are distinct abscissas, the weighted sum of its values is its value at 0 |
| Shamir.RecoverExact | smpc_signature/smpc_signer.py:42-53 | shares of a polynomial, in any order and in any number not below its length, give back f(0) |
| Shamir.SplitKey | smpc_signature/generate_split_key.py:41-51 | the splitting loops produce reduced shares of secret + coefs*x for parties 1 to n |
| Shamir.SplitThenRecover | smpc_signature/generate_split_key.py:38-52 | any selection of at least threshold many parties recovers the secret that was split |
| Shamir.BelowThreshold | smpc_signature/generate_split_key.py:38-52 | fewer shares than the threshold would be the same for any other secret, with other coefficients |
| Shamir.SssRecoverPoint | smpc_signature/challenge_generation/solve_from_trace.py:61-71 | folding point shares gives the recovered logarithm times the generator, so interpolation works in the exponent |
| Shamir.EvalLoop | smpc_signature/smpc_signer.py:336-338 | the accumulation over coefficients and powers is evaluation of the polynomial, reduced |
| Network.RunAgrees | smpc_signature/smpc_signer.py:325-444 | in every interleaving of sends, receipts and computations, every node's state, every packet on a channel and every count is the one of the lockstep run |
| Network.AtMostOneRoundApart | smpc_signature/smpc_signer.py:325-444 | any two nodes are at most one round apart |
| Network.RoundBound | smpc_signature/smpc_signer.py:325-444 | no node goes beyond the round in which the lockstep run stops |
| Network.NoDeadlock | smpc_signature/smpc_signer.py:325-444 | until all nodes have stopped some node can take a step |
| Network.StoppedOutcome | smpc_signature/smpc_signer.py:325-444 | when all have stopped, each holds the lockstep result, every ordered pair has exchanged one packet a round and every queue is empty |
| Network.RunLength | smpc_signature/smpc_signer.py:325-444 | every run is bounded by nodes times rounds times packets, and has exactly that length once all have stopped |
| SmpcLockstep.SumInAnyOrder | smpc_signature/smpc_signer.py:341-343 | adding up what the peers sent gives the same sum whatever the order of the channels |
| SmpcLockstep.BiasedOutcome | smpc_signature/smpc_signer.py:325-344 | a node's biased share is the value at its abscissa of the sum of all nodes' polynomials |
| SmpcLockstep.BiasedRound | smpc_signature/smpc_signer.py:325-344 | the same, for the packets that the nodes actually send in that round |
| SmpcLockstep.CombineRound | smpc_signature/smpc_signer.py:352-366 | exchanging combined coefficient shares and recovering gives each node H(x_j), where H has the joint constants as coefficients |
| SmpcLockstep.KeyShareStep | smpc_signature/smpc_signer.py:346-366 | after the unbiased generation every node's share is H(x_j) with H below degree k |
| SmpcLockstep.ZeroShareStep | smpc_signature/smpc_signer.py:368-388 | the random zero is a share of a polynomial that vanishes at 0, and it hides the product |
| SmpcLockstep.OpenRound | smpc_signature/smpc_signer.py:390-400 | opening shares of a polynomial with at most as many coefficients as nodes gives every node its value at 0 |
| SmpcLockstep.PointRound | smpc_signature/smpc_signer.py:422-443 | the point fold gives every node f(0) times the generator |
| SmpcLockstep.HiddenProductOpens | smpc_signature/smpc_signer.py:402-410 | opening the product of two sharings hidden by a sharing of zero reveals the product of the two values modulo q |
| SmpcLockstep.EarlyStep | smpc_signature/smpc_signer.py:346-416 | each round up to the first opening takes every node from the value of the joint polynomials before it to that after it |
| SmpcLockstep.OpenInverseStep | smpc_signature/smpc_signer.py:412-416 | the opening in the inversion raises at every node exactly when the opened value vanishes modulo q, and otherwise leaves shares of the inverse |
| SmpcLockstep.LateStep | smpc_signature/smpc_signer.py:311-312 | the rounds of the last multiplication keep the shares on one polynomial and end with its value at 0 |
| SmpcSigning.SessionStops | smpc_signature/challenge_generation/solve_from_trace.py:18-41 | all nodes take part in the same 3k+5 rounds, or all stop in round 2k+4 when the opened product vanishes |
| SmpcSigning.OpenedIsProduct | smpc_signature/smpc_signer.py:412-415 | the first opening reveals nonce times mask modulo q although the product sharing has degree 2k-2 |
| SmpcSigning.InverseShares | smpc_signature/smpc_signer.py:412-416 | unless the opened value vanishes, the nodes hold a sharing below degree k of the inverse of the nonce |
| SmpcSigning.SignatureEquation | smpc_signature/smpc_signer.py:307-312 | the opened s satisfies s*nonce = r*d + z modulo q |
| SmpcSigning.EveryRunSigns | smpc_signature/smpc_signer.py:306-313 | in every run with at least 2k-1 nodes, leaving aside that the code cannot send a vanishing share as a point, all nodes end with the same (r, s) with r from nonce*G and s*nonce = z + r*d, or all raise exactly when nonce*mask vanishes; every ordered pair has exchanged the same number of packets |
| SmpcSigning.EveryRunEnds | smpc_signature/smpc_signer.py:306-313 | no run can go on for ever or get stuck before all nodes have stopped |
| SmpcSigning.SignatureVerifies | smpc_signature/smpc_signer.py:307-313 | a pair with that equation passes section 4.1.4 of SEC 1 version 2 exactly when r and s are non-zero |
| SmpcSigning.VerifiesExactly | smpc_signature/smpc_signer.py:307-313 | under that verification a pair is accepted exactly if both halves lie between 0 and q and some nonce gives rise to it |
| SmpcSigning.EveryRunVerifies | smpc_signature/smpc_signer.py:306-313 | in every finished run whose opened product does not vanish, every node's pair verifies under the public key exactly when neither half is 0 |
| SmpcNode.Node.SmpcBiasedRng | smpc_signature/smpc_signer.py:325-344 | the method sends what the round sends and returns the node's own value plus what it received, or raises on a packet of the wrong kind |
| SmpcNode.Node.SmpcUnbiasedRng | smpc_signature/smpc_signer.py:346-366 | k+1 rounds leave exactly the memory of the round program, with the recovered share |
| SmpcNode.Node.SmpcRandomZero | smpc_signature/smpc_signer.py:368-388 | k rounds leave exactly the memory of the round program and return a reduced share; the memory then holds the product hidden by it |
| SmpcNode.Node.SmpcShareRevealingOpen | smpc_signature/smpc_signer.py:390-400 | one round sends the share to all and recovers from all, own share first |
| SmpcNode.Node.SmpcShareHidingOpen | smpc_signature/smpc_signer.py:402-405 | k+1 rounds open the share plus a share of zero |
| SmpcNode.Node.SmpcMultiplyOpen | smpc_signature/smpc_signer.py:407-410 | the product of two shares is reduced and opened |
| SmpcNode.Node.SmpcInvert | smpc_signature/smpc_signer.py:412-416 | k+2 rounds return the inverse of the value that is opened times the share of the mask, or raise as the round program does |
| SmpcNode.Node.SmpcRandomKeypair | smpc_signature/smpc_signer.py:418-444 | k+2 rounds return the share and the public point of the round program, in which the identity is sent like any point |
| SmpcNode.Node.SmpcSign | smpc_signature/smpc_signer.py:306-313 | the whole program makes 3k+5 rounds and returns the (r, s) of the round program, or raises where it does |
| SmpcDelivery.NodeFollowsNetwork | smpc_signature/smpc_signer.py:325-444 | after reading r rounds of what a finished run delivers to it, the method's memory is the node's memory in the network |
| SmpcDelivery.NodeSendsWire | smpc_signature/smpc_signer.py:325-444 | every packet that the method then writes is the one the run shows on that channel |
| SmpcDelivery.DeliveriesSuffice | smpc_signature/smpc_signer.py:306-313 | a finished run delivers all that the signing method waits for, and the memory it ends with is the run's outcome |
| SmpcDelivery.RaisesExactly | smpc_signature/smpc_signer.py:412-416 | on what a finished run delivers, the first 2k+4 rounds raise if nonce times mask vanishes, and if not none of the 3k+5 rounds does |
| SmpcDelivery.SignInRun | smpc_signature/smpc_signer.py:306-313 | the signing method, on what a finished run delivers to any node, raises exactly when nonce times mask vanishes and otherwise returns the run's (r, s), which verifies exactly when neither half is 0 |
| Mesh.Participants.Connect | smpc_signature/smpc_signer.py:237-284 | the opener raises exactly when the number is zero or known; otherwise it registers the channel at once, whatever the acceptor does; the acceptor registers the same channel, after a reset at level 0, exactly if it has none with the opener |
| Mesh.Participants.ConnectAll | smpc_signature/smpc_signer.py:271-284 | the coordinator raises exactly when some peer has number zero; otherwise exactly the peers that kept a channel with it have closed theirs, and if there is none all are joined to it |
| Mesh.Participants.ConnectRow | smpc_signature/smpc_signer.py:274-293 | a peer joins all that follow it, keeps all joined pairs, and acknowledges |
| Mesh.Participants.SetUp | smpc_signature/smpc_signer.py:271-304 | the session is set up exactly when no peer has number zero or kept a channel with the coordinator; then the tables hold exactly the other participants and each pair shares one channel |
| Mesh.Join | smpc_signature/smpc_signer.py:274-284 | one connection adds one joined pair and keeps all the others |
| Factorize.TrialDivision | smpc_signature/challenge_generation/solve_from_trace.py:78-92 | the list multiplies to kr, all but its last entry are primes up to 2^24 + 1, and the last is 1, prime, or free of divisors from 2 to 2^24 + 1 |
| Factorize.AcceptedExactly | smpc_signature/challenge_generation/solve_from_trace.py:102-108 | a value is accepted exactly if it lies from 2^61 to below 2^74 and maps to the point |
| Factorize.ChosenDivides | smpc_signature/challenge_generation/solve_from_trace.py:97-106 | every product of chosen factors divides kr, so the assertion never fails |
| Factorize.DivisorIsChosen | smpc_signature/challenge_generation/solve_from_trace.py:96-100 | if the factors are primes or 1, every divisor is the product of some choice |
| Factorize.ChoicesCovered | smpc_signature/challenge_generation/solve_from_trace.py:96 | the order of the choices visits every one of them |
| Factorize.SearchDivisor | smpc_signature/challenge_generation/solve_from_trace.py:96-109 | the search succeeds exactly when some choice has 62 to 74 bits and maps to the point, and returns such a divisor |
| Factorize.TriedExactly | smpc_signature/challenge_generation/solve_from_trace.py:78-100 | the values tried are exactly those divisors of kr that the last factor divides or shares no prime with |
| Factorize.AllTriedExactly | smpc_signature/challenge_generation/solve_from_trace.py:78-100 | every divisor of kr is tried exactly if at most one prime of kr, counted as often as it occurs, lies beyond the limit |
| Factorize.SeparatedSame | smpc_signature/challenge_generation/solve_from_trace.py:80-92 | for a divisor of kr this is the same as being divided by the part of kr beyond the limit or sharing no prime with it, wherever trial division stopped |
| Factorize.TestFactorize | smpc_signature/challenge_generation/solve_from_trace.py:74-109 | an accepted value divides kr and maps to the point; the search succeeds exactly when some divisor that takes all or nothing of the part beyond the limit is accepted, never for kr = 0; and if no two primes above 16777217 multiply into kr, exactly when any divisor is accepted |
| ProthPrimes.LargePrimeIsPrime | smpc_signature/challenge_generation/solve_from_trace.py:91-92 | 5*2^25 + 1 is a prime beyond the limit of trial division |
| ProthPrimes.LastPrimeIsPrime | smpc_signature/challenge_generation/solve_from_trace.py:91-92 | 1023*2^14 + 1 is a prime just below the limit |
| SampleNonces.SearchFinds | smpc_signature/challenge_generation/solve_from_trace.py:74-109 | for 2^40 times two primes just below 2^24, the search returns the nonce 2^40 times the first |
| SampleNonces.NonceNeverTried | smpc_signature/challenge_generation/solve_from_trace.py:80-100 | for 2^40 times the square of the prime beyond the limit, the divisor 2^40 times that prime is no choice of the factors that trial division returns |
| SampleNonces.SearchMisses | smpc_signature/challenge_generation/solve_from_trace.py:74-109 | this divisor has 68 bits and is accepted for its point, and the search reports failure |
| Primes.UniqueFactorisation | elliptic_relations/scripts/obfuscate.py:140-144 | lists of primes with the same product hold the same primes, each as often |
| KeyRecovery.KeyFormulaCorrect | smpc_signature/challenge_generation/solve_from_trace.py:165-168 | the formula gives d from any s, r, z and nonce that satisfy the signature equation with r invertible |
| KeyRecovery.AcceptedIsLogarithm | smpc_signature/challenge_generation/solve_from_trace.py:102-108 | in a group of order at least 2^74 an accepted value is the discrete logarithm of the point, so no other value is accepted |
| KeyRecovery.RecoverKey | smpc_signature/challenge_generation/solve_from_trace.py:151-168 | for every nonce that divides the opened value and is the logarithm of the point, and every key whose signature this is, search and formula return the key if the nonce has 62 to 74 bits, the part of the opened value beyond the limit divides it or shares no prime with it, and r is invertible; and nothing if not |
| KeyRecovery.OpenedExactly | smpc_signature/smpc_signer.py:39 | with 64-bit coefficients and n^2*2^128 up to q, the opened value is nonce times mask as integers |
| KeyRecovery.SessionRevealsNonce | smpc_signature/challenge_generation/solve_from_trace.py:146-168 | in such a session whose opened value does not vanish, the nonce divides the opened value, is the logarithm of the point that the published shares make up, and satisfies the equation that the formula solves |
| TraceRecovery.TracedProduct | smpc_signature/challenge_generation/solve_from_trace.py:146-148 | in every finished run, the numbers that the nodes send in clear in round 2k+3, in any order, recover to the opened value |
| TraceRecovery.TracedSignature | smpc_signature/challenge_generation/solve_from_trace.py:141-144 | those of round 3k+4 recover to the second half of the signature |
| TraceRecovery.TracedNonce | smpc_signature/challenge_generation/solve_from_trace.py:128-139 | the points of round k+1 recover to the nonce modulo q as their logarithm |
| TraceRecovery.IdentityOnWire | smpc_signature/smpc_signer.py:422-428 | a node's point in round k+1 is the identity exactly when its share of the nonce vanishes |
| TraceRecovery.ClearExactly | smpc_signature/challenge_generation/solve_from_trace.py:18-30 | the points of round k+1 and the numbers of rounds 2k+3 and 3k+4 travel in clear, and no other packet does |
| TraceRecovery.SolveSignature | smpc_signature/challenge_generation/solve_from_trace.py:117-173 | on shares that agree with the signature the key is found exactly as RecoverKey says |
| TraceRecovery.KeyOfRun | smpc_signature/challenge_generation/solve_from_trace.py:117-173 | from the clear packets of any finished run with 64-bit coefficients and the signature that any of its nodes returned, the program returns the key that the nodes share if the nonce has 62 to 74 bits, the part of the opened value beyond the limit divides it or shares no prime with it, and r is not 0; and nothing if not |
| Gf256.MultiplyBy9 | picohsm/firmware-sec/src/aes.c:334-339 | multiplication by 9 is the product in GF(2^8) for every byte |
| Gf256.MultiplyBy11 | picohsm/firmware-sec/src/aes.c:334-339 | the same for 11 |
| Gf256.MultiplyBy13 | picohsm/firmware-sec/src/aes.c:334-339 | the same for 13 |
| Gf256.MultiplyBy14 | picohsm/firmware-sec/src/aes.c:334-339 | the same for 14 |
| Gf256.ActTimes | picohsm/firmware-sec/src/aes.c:299-302 | applying a product of polynomials in x to a byte is applying one after the other |
| Gf256.CirculantProduct | picohsm/firmware-sec/src/aes.c:347-363 | applying two circulant matrices in turn is applying their product |
| Gf256.InvMixOfMix | picohsm/firmware-sec/src/aes.c:305-363 | the inverse column mixing undoes the mixing for all columns |
| Gf256.MixOfInvMix | picohsm/firmware-sec/src/aes.c:305-363 | and conversely |
| AesTables.InvSubByteOfSubByte | picohsm/firmware-sec/src/aes.c:79-114 | rsbox undoes sbox |
| AesTables.SubByteOfInvSubByte | picohsm/firmware-sec/src/aes.c:79-114 | sbox undoes rsbox |
| AesTables.SubByteIsAffineInverse | picohsm/firmware-sec/src/aes.c:79-96 | every entry of sbox is the affine image of the multiplicative inverse of its index, as in section 5.1.1 of FIPS 197 |
| Aes.ShiftRowsInverse | picohsm/firmware-sec/src/aes.c:271-406 | the two row shifts undo each other |
| Aes.MixColumnsInverse | picohsm/firmware-sec/src/aes.c:305-363 | the two column mixings undo each other on whole states |
| Aes.DecryptionRetraces | picohsm/firmware-sec/src/aes.c:410-458 | the state before each round of decryption is the state that encryption passed through |
| Aes.InvCipherOfCipher | picohsm/firmware-sec/src/aes.c:410-458 | InvCipher undoes Cipher for every state and every 240-byte round-key array |
| Aes.CipherOfInvCipher | picohsm/firmware-sec/src/aes.c:410-458 | and conversely |
| AesBuffer.AddRoundKey | picohsm/firmware-sec/src/aes.c:242-252 | in place, the block becomes its sum with the round key and nothing else changes |
| AesBuffer.SubBytes | picohsm/firmware-sec/src/aes.c:256-266 | in place, every byte of the block goes through sbox |
| AesBuffer.InvSubBytes | picohsm/firmware-sec/src/aes.c:368-378 | in place, every byte of the block goes through rsbox |
| AesBuffer.ShiftRows | picohsm/firmware-sec/src/aes.c:271-297 | the chain of assignments turns row r left by r places |
| AesBuffer.InvShiftRows | picohsm/firmware-sec/src/aes.c:380-406 | the chain of assignments turns row r right by r places |
| AesBuffer.MixColumns | picohsm/firmware-sec/src/aes.c:305-318 | the in-place trick with Tmp, Tm and t is the matrix product of section 5.1.3 of FIPS 197 |
| AesBuffer.InvMixColumns | picohsm/firmware-sec/src/aes.c:347-363 | the in-place mixing is the matrix product of section 5.3.3 of FIPS 197 |
| AesBuffer.Cipher | picohsm/firmware-sec/src/aes.c:410-433 | the round loop computes the cipher of section 5.1 of FIPS 197 on one block of a buffer |
| AesBuffer.InvCipher | picohsm/firmware-sec/src/aes.c:436-458 | the round loop computes the inverse cipher of section 5.3 of FIPS 197 |
| AesKey.KeyExpansion | picohsm/firmware-sec/src/aes.c:151-222 | the loops stay in bounds, copy the key, and make each byte the one 32 before it plus what the bytes just before it contribute: substituted and turned with a power of x at the start of each 32 bytes, substituted from byte 16 to 19, and plain elsewhere |
| AesKey.ScheduleExactly | picohsm/firmware-sec/src/aes.c:151-222 | the schedule of section 5.2 of FIPS 197 is the only sequence of bytes with this law |
| AesVectors.A3Expanded | picohsm/firmware-sec/src/aes.c:151-222 | the round keys of appendix A.3 of FIPS 197, all sixty words |
| AesVectors.C3Example | picohsm/firmware-sec/src/aes.c:410-458 | the example of appendix C.3 of FIPS 197 through key expansion and fourteen rounds, in both directions |
| AesKey.RconIsRoundConstant | picohsm/firmware-sec/src/aes.c:118-119 | the entries of the table that are used are the powers of x |
| AesModes.AesCtx.constructor | picohsm/firmware-sec/src/aes.c:229-233 | the context holds the key schedule and a copy of the vector |
| AesModes.AesCtx.CbcEncryptBuffer | picohsm/firmware-sec/src/aes.c:498-511 | for any number of blocks, with the vector aliased into the buffer, each byte before is the deciphered byte of its block after plus the byte one block earlier after (of the vector in the first block); the context keeps the last ciphertext block |
| AesModes.AesCtx.CbcDecryptBuffer | picohsm/firmware-sec/src/aes.c:513-526 | each byte after is the deciphered byte of its block before plus the byte one block earlier before; the context keeps the last ciphertext block |
| AesModes.CbcExactly | picohsm/firmware-sec/src/aes.c:498-526 | this relation of the bytes holds exactly for the CBC encryption, and exactly for the CBC decryption |
| AesModes.CbcRoundTrip | picohsm/firmware-sec/src/aes.c:498-526 | decryption restores every plaintext |
| AesModes.CbcRoundTripBack | picohsm/firmware-sec/src/aes.c:498-526 | encryption restores every ciphertext |
| AesModes.CbcEncryptSplit | picohsm/firmware-sec/src/main.cxx:125-134 | encrypting in parts, carrying the vector over, is encrypting the whole |
| AesModes.CbcDecryptSplit | picohsm/firmware-sec/src/main.cxx:125-134 | the same for decryption |
| AesCtr.IncrementedAddsOne | picohsm/firmware-sec/src/aes.c:549-560 | carrying through bytes of 255 adds one to the big-endian number, modulo its range |
| AesCtr.CounterValue | picohsm/firmware-sec/src/aes.c:541-562 | the counter for block j is the first one plus j modulo 2^128, as in Appendix B.1 of SP 800-38A |
| AesCtr.IncrementIv | picohsm/firmware-sec/src/aes.c:550-560 | the in-place loop computes that increment |
| AesCtr.CtrXcryptBuffer | picohsm/firmware-sec/src/aes.c:535-566 | for any length byte i is masked by byte i mod 16 of the cipher of the block numbered vector + i/16 modulo 2^128, and the vector advances by the number of blocks begun |
| AesCtr.CtrExactly | picohsm/firmware-sec/src/aes.c:535-566 | this is section 6.5 of SP 800-38A |
| AesCtr.ExampleCounters | picohsm/firmware-sec/src/aes.c:549-560 | the counter blocks of section F.5.5 of SP 800-38A |
| AesCtr.CtrTwice | picohsm/firmware-sec/src/aes.c:534-566 | masking twice from the same vector is the identity |
| AesCtr.CtrSplit | picohsm/firmware-sec/src/aes.c:535-566 | splitting at a block boundary composes |
| RingBuffer.EightBitsEnough | picohsm/firmware-mcu/src/ring_buffer.hxx:42-43 | the next index fits its eight bits exactly when the buffer has at most 256 cells |
| RingBuffer.PutRightExactly | picohsm/firmware-mcu/src/ring_buffer.hxx:40-54 | a put acts as on a bounded queue in every state of the buffer exactly when the buffer has at most 256 cells |
| RingBuffer.PutAppends | picohsm/firmware-sec/src/uart.cxx:44-52 | a put appends the byte unless size - 1 bytes are held, and then drops it |
| RingBuffer.AdvanceRemoves | picohsm/firmware-sec/src/uart.cxx:55-61 | advancing the read index removes the oldest byte |
| RingBuffer.Buffer.TryPut | picohsm/firmware-mcu/src/ring_buffer.hxx:40-54 | the method reports and does what a bounded queue does |
| RingBuffer.Buffer.HasData | picohsm/firmware-mcu/src/ring_buffer.hxx:72-75 | true exactly when a byte is held |
| RingBuffer.Buffer.TryPop | picohsm/firmware-mcu/src/ring_buffer.hxx:61-67 | one turn of the wait: nothing changes while no byte is held, and otherwise the oldest byte is returned and removed |
| RingBuffer.Buffer.Size | picohsm/firmware-mcu/src/ring_buffer.hxx:88-94 | the size is the length of the queue, below the number of cells |
| RingBuffer.Buffer.At | picohsm/firmware-mcu/src/ring_buffer.hxx:101-107 | reading at an offset gives that byte of the queue, or 0 beyond it |
| RingBuffer.Buffer.Flush | picohsm/firmware-mcu/src/ring_buffer.hxx:80-83 | afterwards the queue is empty |
| RingBuffer.PoppedInOrder | picohsm/firmware-sec/src/uart.cxx:44-61 | wherever interrupts fall between the accesses of pop, the bytes popped are a prefix of those accepted and the buffer holds the rest |
| RingBuffer.NothingLost | picohsm/firmware-sec/src/uart.cxx:44-61 | as long as at most size - 1 bytes are outstanding, every byte that arrives is accepted |
| Hsm.NoCipherWithoutPin | picohsm/firmware-sec/src/main.cxx:109-141 | whatever bytes arrive, the cipher runs only after the right PIN and never with key 2 |
| HsmWire.LockedKeyUnused | picohsm/firmware-sec/src/main.cxx:109-141 | whatever bytes arrive, nothing that is sent depends on the key with number 2 |
| Hsm.PinFeeds | picohsm/firmware-sec/src/main.cxx:68-82 | the program answers after the eighth PIN byte, with the status and the continuation that the comparison calls for |
| Hsm.BlockFeeds | picohsm/firmware-sec/src/main.cxx:126-134 | the program answers after the sixteenth byte of a block, with the ciphered block and the vector for the next |
| Hsm.OneBlockCipher | picohsm/firmware-sec/src/main.cxx:125-134 | ciphering the next block with the vector held extends the ciphered prefix of the data |
| Hsm.SecArrivesInStep | picohsm/firmware-sec/src/uart.cxx:38-52 | a byte that reaches the security processor finds room and keeps the two programs in step |
| Hsm.McuArrivesInStep | picohsm/firmware-mcu/src/ring_buffer.hxx:40-54 | a byte that reaches the main processor finds room and keeps the two programs in step |
| Hsm.StepKeepsInv | picohsm/firmware-mcu/src/main.cxx:240-278 | every step of either program or line keeps the two programs in step and the answers right |
| Hsm.EveryRunKeepsInv | picohsm/firmware-mcu/src/main.cxx:240-278 | so does every run, for every sequence of commands |
| Hsm.NothingDropped | picohsm/firmware-mcu/src/main.cxx:157-163 | in every state at most 17 bytes are on their way to the security processor and at most 16 back, so no buffer fills |
| Hsm.BetweenCommands | picohsm/firmware-sec/src/main.cxx:92-95 | between two commands the security processor waits for an opcode and both directions are empty, so the flush discards nothing; all answers so far are right |
| Hsm.CanStep | picohsm/firmware-sec/src/main.cxx:92-147 | until all commands are answered one side can make a step |
| Hsm.StepWork | picohsm/firmware-mcu/src/main.cxx:240-278 | every step uses up one unit of the work that the commands determine |
| Hsm.EveryRunAnswers | picohsm/firmware-mcu/src/main.cxx:240-278 | a run that cannot go on has made exactly as many steps as the commands determine and has left everything quiet; every command with a wrong PIN was refused, every other one with key 2 was answered that the key is locked, and the rest with the bytes of CBC from a vector of zeros |
| Hsm.DecryptUndoesEncrypt | picohsm/firmware-mcu/src/main.cxx:202-278 | decrypting what an encryption returned gives the data back, and conversely |
| HsmWire.CommandOnWire | picohsm/firmware-sec/src/main.cxx:92-147 | every whole command in bytes: opcodes 1 to 3, eight bytes of PIN, key number modulo 8 with key 2 locked, number of blocks, blocks; status 1, 2 or 3 and the ciphered blocks in return |
| HsmWire.CommandSent | picohsm/firmware-mcu/src/main.cxx:202-278 | what the main processor sends and tells the client for each of these replies, byte by byte |
| HsmWire.SecArrivesInRing | picohsm/firmware-sec/src/uart.cxx:44-52 | an arriving byte on the queue of the machine is a put on the ring of 64 cells |
| HsmWire.McuArrivesInRing | picohsm/firmware-mcu/src/ring_buffer.hxx:40-54 | and on the ring of 256 cells |
| HsmFirmware.SecurityMcu.VerifyPin | picohsm/firmware-sec/src/main.cxx:68-82 | eight bytes are read and the result says whether they are the PIN, although the comparison stops at the first difference |
| HsmFirmware.SecurityMcu.Serve | picohsm/firmware-sec/src/main.cxx:92-147 | one turn of the loop reads and sends exactly what the machine's program reads and sends, and ends waiting for an opcode |
| HsmFirmware.SecurityMcu.CryptBlocks | picohsm/firmware-sec/src/main.cxx:121-134 | ciphering block by block on the fly follows the machine, with the vector in the context |
| HsmFirmware.MainMcu.VerifyPin | picohsm/firmware-mcu/src/main.cxx:157-163 | the program sends and receives what the machine's main program does, and reports its answer |
| HsmFirmware.MainMcu.EncryptDecrypt | picohsm/firmware-mcu/src/main.cxx:240-278 | for any reply bytes the program sends what the machine's main program sends and ends with its answer, also on unexpected replies |
| HsmFirmware.AbsorbMessage | picohsm/firmware-sec/src/main.cxx:92-147 | reading a stream with a whole message at its end leads to that message's reply and phase |
| Sudoku.ComputeExpectedPoint | elliptic_relations/scripts/obfuscate.py:139-152 | the expected point is the product of the nine primes times the generator |
| Sudoku.CheckGroup | elliptic_relations/app-ctf/src/challenge.c:69-91 | a group passes exactly when it has no zero and the product of its cells is that of the nine primes |
| Sudoku.CheckGrid | elliptic_relations/app-ctf/src/challenge.c:49-94 | on any array of bytes the check accepts exactly when all 27 groups pass |
| SudokuTables.SquarePlaces | elliptic_relations/scripts/obfuscate.py:91-117 | the nine positions written out for each square are those of three neighbouring rows and columns |
| SudokuTables.GroupIsUnit | elliptic_relations/app-ctf/src/challenge.c:53-67 | the table of positions lists the rows, columns and squares of the unmixed grid, in order |
| SudokuTables.EveryUnitChecked | elliptic_relations/scripts/obfuscate.py:77-117 | every row, column and square is one of the groups |
| SudokuTables.MixedUndoesPerm | elliptic_relations/scripts/obfuscate.py:67-74 | the inverse permutation undoes the fixed one |
| Sudoku.GroupPassesIff | elliptic_relations/app-ctf/src/challenge.c:69-91 | a group of zeros and primes passes exactly when it holds each of the nine primes once |
| Sudoku.AcceptsExactlySolved | elliptic_relations/scripts/obfuscate.py:139-144 | on every grid of zeros and primes below 64 the check accepts exactly the solved ones |
| Sudoku.Challenge.ResetGrid | elliptic_relations/app-ctf/src/challenge.c:12-22 | the grid becomes the 21 given primes followed by zeros |
| Sudoku.Challenge.FillGridEntry | elliptic_relations/app-ctf/src/challenge.c:24-39 | exactly an empty cell of the 81 takes a value, whose low byte is one of the eighteen primes below 64, and reports 0; otherwise, also for every position beyond the grid and whatever is read there, nothing changes and it reports -1 |
| Sudoku.Challenge.Check | elliptic_relations/app-ctf/src/challenge.c:49-94 | on the challenge's own grid the check tells whether it is solved |
| Sudoku.ResetHoldsGivens | elliptic_relations/scripts/obfuscate.py:11-21 | the reset grid, unmixed, is the published Sudoku with primes for digits |
| Sudoku.FillsKeepCells | elliptic_relations/app-ctf/src/challenge.c:24-39 | no run of fills changes a cell that is not empty or stores anything but a prime below 64 |
| Sudoku.ReachedAndAccepted | elliptic_relations/app-ctf/src/challenge.c:12-94 | the grids that fills after a reset reach and the check accepts are the solutions of the published Sudoku, all of them and no others |
| Sudoku.AnswerAccepted | elliptic_relations/scripts/obfuscate.py:23-33 | the authors' solution is one |
| Crc32.StepBijective | modern_cryptocomputer/container/eos_patch.patch:69-71 | one bit step is a bijection on the 32-bit states |
| Crc32.StepsBijective | modern_cryptocomputer/container/eos_patch.patch:69-71 | so is any number of steps |
| Crc32.CrcChains | modern_cryptocomputer/container/eos_patch.patch:65-74 | the CRC of a whole continues the CRC of its first part, for all strings and initial values |
| Crc32.Crc32Intrinsic | modern_cryptocomputer/container/eos_patch.patch:65-74 | the nested loops compute that CRC |
| Crc32.EightStepsAreTableStep | modern_cryptocomputer/container/eos_patch.patch:67-72 | eight bit steps are one step through the table of section 8 of RFC 1952 |
| Crc32.StandardExactly | modern_cryptocomputer/container/eos_patch.patch:64-74 | on every string the value is the CRC of section 8 of RFC 1952, computed there by a table, exactly when the deviations that the sign bits leave cancel out |
| Crc32.StandardOnSevenBits | modern_cryptocomputer/container/eos_patch.patch:64-74 | on bytes below 128 it is that CRC |
| Crc32.OneHighByteDiffers | modern_cryptocomputer/container/eos_patch.patch:64-74 | with exactly one byte from 128 on it is not |
| Crc32.DeviationsCancel | modern_cryptocomputer/container/eos_patch.patch:64-74 | a string of 33 bytes, several of them from 128 on, for which it is |
| Crc32.CheckValue | modern_cryptocomputer/container/eos_patch.patch:64-74 | the CRC of the digits 1 to 9 is 0xCBF43926, in the node and by the standard's routine |
| Crc32.Crc32Byte | modern_cryptocomputer/bootstrap_and_solve/solution/solution.cpp:21-28 | the loop over the bits is one step through the table of RFC 1952 on the complemented value, complemented again |
| Crc32.ByteCrcInjective | modern_cryptocomputer/bootstrap_and_solve/solution/solution.cpp:21-28 | different data give different updates |
| Crc32.UniqueMatch | modern_cryptocomputer/bootstrap_and_solve/solution/solution.cpp:29-36 | exactly one of the 256 test bytes matches a byte below 128, namely itself, and none matches a byte from 128 on |
| Crc32.AgreeExactlyOnSevenBits | modern_cryptocomputer/bootstrap_and_solve/solution/solution.cpp:21-28 | node and contract agree on a byte exactly when it is below 128 |
| Crc32.ReverseCrc32Byte | modern_cryptocomputer/bootstrap_and_solve/solution/solution.cpp:29-36 | the loop prints the matching test bytes in order |
| Crc32.Solve | modern_cryptocomputer/bootstrap_and_solve/solution/solution.cpp:43-51 | at each of the 59 indices the action prints the byte of memory there, if it is below 128, and nothing otherwise |
| Libcheck.DrawnInRange | ghostbuster/ghostbuster/libcheck.c:23-24 | the index drawn lies between i and n, for every n, every generator range and every number drawn |
| Libcheck.EveryPositionDrawn | ghostbuster/ghostbuster/libcheck.c:23-24 | every such index can be drawn exactly when the generator's range reaches the last |
| Libcheck.Shuffle | ghostbuster/ghostbuster/libcheck.c:17-29 | the array is rearranged in place by exchanging each of the first n - 1 members with the one at the position drawn, and nothing beyond n changes |
| Libcheck.EveryOrderReached | ghostbuster/ghostbuster/libcheck.c:17-29 | every rearrangement of different members arises from some draws exactly if the generator's range reaches the last position at every step |
| Libcheck.WideRange | ghostbuster/ghostbuster/libcheck.c:23-24 | which is so if the range is at least n*(n-1) |
| Rearrangement.EveryOrder | ghostbuster/ghostbuster/libcheck.c:22-28 | every order arises from some positions |
| Rearrangement.SamePositions | ghostbuster/ghostbuster/libcheck.c:22-28 | different positions make different rearrangements of different members, so each order arises just once |
| Libcheck.ShuffledIndexes | ghostbuster/ghostbuster/libcheck.c:56-59 | a rearrangement of 0 to n-1 visits every index once and no other |
| Libcheck.CheckSecret | ghostbuster/ghostbuster/libcheck.c:47-74 | the answer is true exactly when the size is 32 and all bytes match, whatever the order |

## Left out

- Noise handshakes, encryption, JSON, sockets, sleeps and the closing of channels: the channels are reliable FIFO queues that tell an encrypted number, a clear number and a clear point apart.
- Mesh.Participants.Connect: treats connection, level byte and what the acceptor does with them as one step.
- Mesh.Participants.SetUp: numbers the participants after the coordinator's own entry in the payload has been skipped; waiting for an acknowledgement that never comes counts as failure.
- Point formulas, encodings of points and the size of numbers on the wire: points are logarithms, so a packet can hold any of them.
- SmpcSigning.EveryRunSigns: does not model that the code raises in the points round when a node's share of the nonce vanishes, because the round cannot carry the identity (TraceRecovery.IdentityOnWire says when).
- SmpcNode.Node.SmpcRandomKeypair: the same; it sends the identity like any other point.
- SHA-256, base64 and the DER encoding of signatures: the hash is a number given to every node.
- Primality of the order of secp256k1: the proofs hold for every prime order with the bounds stated.
- TraceRecovery.SolveSignature: takes the shares and the signature as numbers; reading them from the log with regular expressions is not part of this model; where an assertion of the script fails, the answer is none.
- AesModes.AesCtx.CbcEncryptBuffer: asks for a length that is a multiple of 16, as the header of the code does, and counts without the 16-bit limit of the loop index on the AVR.
- AesCtr.CtrXcryptBuffer: counts the length without the 32-bit limit of its parameter.
- Hsm.EveryRunAnswers: starts from commands whose arguments passed the checks of the command line (eight-character PIN, key number below 8, one to sixteen whole blocks); parsing and hexadecimal conversion are left out, as are the reset between connections and the timing of the comparison.
- HsmFirmware.MainMcu.Flush: takes the number of bytes that have arrived as a parameter.
- RingBuffer.Buffer.TryPop: is one turn of the loop that waits in pop; that a byte comes in the end is a property of the two programs together (Hsm.EveryRunAnswers).
- RingBuffer.Buffer.Flush: is one step here; an interrupt between its two assignments is left out, because no byte is on its way when it is called (Hsm.BetweenCommands).
- USART, SPI, GPIO and network chip registers, clocks, watchdog and LEDs: hardware.
- Sudoku.Challenge.FillGridEntry: the byte that is read beyond the grid, before the position is checked, is a parameter.
- Sudoku.CheckGroup: a scalar of zero counts as rejection, which is what the emulator does; the device raises an error instead. The comparison of encoded points is equality of points.
- Sudoku.ReachedAndAccepted: is about the grid; the application's commands, its screens and the unlocking of the flag from the digest of the grid are left out, as is the uniqueness of the solution.
- Crc32.Solve: asks for 59 readable bytes where the contract points.
- Libcheck.CheckSecret: gets the secret as an array; reading it from a file, and what its errors do, are left out.
- The Ledger command loop, the node's other intrinsics, scripts, containers and schematics: easy or not algorithms.
