# Threshold RSA key sharing over Shamir secret sharing: a Dafny model

The repository splits secrets among parties with Shamir's (t, n) threshold
scheme over the prime field of a 64-bit prime. Its drivers apply the scheme to
an RSA private exponent. The exponent is cut into 61-bit chunks, each chunk is
shared among five parties, and any three parties rebuild the chunks and
reassemble the exponent. A small TLS helper class shares a 64-bit key the same
way. It "encrypts" the pre-master secret by XOR with that key and expands
secrets with the TLS 1.2 PRF (P_SHA256, section 5 of RFC 5246). Separately, a
Python service groups the UE movement events it reads from the AMF log by gNB,
and looks up UE location records by IMSI and IMEI.

The model has one Dafny module per source unit:

- `Field`, `Fermat`, `Poly`, `Lagrange`, `Shamir` model the
  `ShamirSecretSharing` class.
  - The field operations. `mod_add` is modelled as written: its 64-bit sum
    wraps when p > 2^63. `evaluate_polynomial` and `lagrange_interpolate`
    use it.
  - `split`, with its random coefficients taken as any values in [1, p-1].
  - `evaluate_polynomial`, `lagrange_interpolate` and `reconstruct`.
  - The proof that any t distinct shares give the secret back, for a prime
    p larger than n and at most 2^63, so that `mod_add` cannot wrap. It goes through Fermat's little theorem (so `mod_inv`
    is an inverse) and root counting (so interpolation recovers f(0)).
- `Bytes`, `Chunks`, `Dealing` hold what all the drivers share.
  - The little-endian words written to share files.
  - The masking chunk codec and its round trip.
  - The reducing codec and its most-significant-first reassembly.
  - The per-party rows of dealt shares.
- `OpensslRsaTest`, `Rsyslog`, `KeyGenerator`, `TlsSimple`, `HandshakeTest`,
  with `ReducingDrivers`, model the five drivers.
- `LagrangeExample` is the hand-worked interpolation of the Lagrange test
  program.
- `MultiPartyTls` models `TLSMultiParty`. The HMAC is a parameter whose
  outputs are 32 bytes long.
- `FirstAppearance`, `UeMovement`, `UeLocation` model the UE-location service.
  - Log records are maps from field names to strings.
  - An absent key or a `None` is `Option.None`.
  - The regex parsing is not modelled; its results are parameters.

The Lagrange test program's `mod_sub`, `mod_mul`, `mod_pow` and `mod_inv`
(src/tests/test_lagrange.cpp:11-48) are the library's, over its own prime.
`Field.ModSub`, `Field.ModMul`, `Field.ModPow` and `Field.ModInv` model them
with p as a parameter. Its `mod_add` is modelled as written by
`Field.ModAdd64`.

## Model

| member | source | states |
|---|---|---|
| Field.ModAdd | src/shamir_secret_sharing/shamir_secret_sharing.cpp:67-69 | the field sum: (a + b) mod p, below p (the corrected `mod_add`; the wrapping one equals it for p up to 2^63) |
| Field.ModAdd64 | src/tests/test_lagrange.cpp:7-9 | `mod_add` as written, with the 64-bit sum of the reduced operands wrapping; the result is below p |
| Field.ModAdd64Agrees | src/shamir_secret_sharing/shamir_secret_sharing.cpp:67-69 | for every p up to 2^63 the wrapping `mod_add` equals the field sum |
| Field.ModAdd64Overflows | src/tests/test_lagrange.cpp:5-9 | with p = 2^64 - 59, `mod_add(p-1, p-1)` returns 2^64 - 120 while the field sum is p - 2 |
| Field.ModSub | src/shamir_secret_sharing/shamir_secret_sharing.cpp:71-79 | (a - b) mod p, never negative and below p, through both branches |
| Field.ModMul | src/shamir_secret_sharing/shamir_secret_sharing.cpp:81-85 | (a * b) mod p via the 128-bit product, below p |
| Field.ModPow | src/shamir_secret_sharing/shamir_secret_sharing.cpp:87-100 | square-and-multiply returns base^exp mod p; the loop keeps result * base^exp fixed mod p |
| Field.Inv | src/shamir_secret_sharing/shamir_secret_sharing.cpp:137-139 | a^(p-2) mod p, below p |
| Field.ModInv | src/shamir_secret_sharing/shamir_secret_sharing.cpp:130-140 | an error exactly when the argument is literally 0 (checked before reduction), otherwise a^(p-2) mod p |
| Fermat.FermatLittle | src/shamir_secret_sharing/shamir_secret_sharing.cpp:131-132 | a^(p-1) = 1 mod a prime p for a not divisible by p |
| Fermat.InvIsInverse | src/shamir_secret_sharing/shamir_secret_sharing.cpp:130-140 | for a prime p and a not divisible by p, a * mod_inv(a) = 1 mod p |
| Fermat.HasInverseIsUnit | src/shamir_secret_sharing/shamir_secret_sharing.cpp:130-140 | only a non-multiple of p has an inverse: (a * x) mod p = 1 forces a mod p != 0 |
| Fermat.MultipleGetsNoInverse | src/shamir_secret_sharing/shamir_secret_sharing.cpp:130-140 | a nonzero multiple of p passes the zero check, and the value `mod_inv` then returns (0 for p >= 3, 1 for p = 2) is not an inverse: a wrong answer rather than an error |
| Fermat.InverseUnique | src/shamir_secret_sharing/shamir_secret_sharing.cpp:130-140 | modulo a prime, any inverse in [0, p) is the one `mod_inv` returns |
| Poly.PowerSumIsEval | src/shamir_secret_sharing/shamir_secret_sharing.hpp:72-76 | the term-by-term sum c[0] + c[1] x + ... equals the polynomial's value |
| Poly.EvalAtZero | src/shamir_secret_sharing/shamir_secret_sharing.cpp:24-28 | f(0) is the constant coefficient, the secret |
| Poly.VanishAtZero | src/shamir_secret_sharing/shamir_secret_sharing.cpp:158-193 | a polynomial with at most m coefficients that vanishes mod a prime at m distinct points vanishes at 0 |
| Poly.ProdExceptZero | src/shamir_secret_sharing/shamir_secret_sharing.cpp:173-182 | the basis numerator for point i vanishes at every other point |
| Poly.ProdExceptUnit | src/shamir_secret_sharing/shamir_secret_sharing.cpp:173-182 | the basis denominator is not 0 mod a prime that separates the points |
| Poly.LagrangeAtZero | src/shamir_secret_sharing/shamir_secret_sharing.cpp:158-193 | the weighted basis sum at 0 equals f(0) mod p when the weights reproduce f at the points |
| Lagrange.NumeratorIsProduct | src/shamir_secret_sharing/shamir_secret_sharing.cpp:173-178 | the inner loop's numerator is the product of (0 - x_j) over j != i, mod p |
| Lagrange.DenominatorIsProduct | src/shamir_secret_sharing/shamir_secret_sharing.cpp:173-181 | the inner loop's denominator is the product of (x_i - x_j) over j != i, mod p |
| Lagrange.TermIsWeighted | src/shamir_secret_sharing/shamir_secret_sharing.cpp:184-188 | with distinct ids, round i adds y_i * L_i(0) and its `mod_inv` cannot fail |
| Lagrange.AccumulatedIsWeightedSum | src/shamir_secret_sharing/shamir_secret_sharing.cpp:167-192 | for a prime up to 2^63 and distinct ids, every round succeeds and the secret, summed with the wrapping `mod_add`, is the sum of y_i * L_i(0) mod p |
| Lagrange.WeightTimesDenominator | src/shamir_secret_sharing/shamir_secret_sharing.cpp:185-188 | weight i times the full denominator is y_i mod p |
| Lagrange.InterpolateRecoversConstant | src/shamir_secret_sharing/shamir_secret_sharing.cpp:158-193 | for a prime up to 2^63, shares with distinct ids lying on a polynomial with at most as many coefficients as shares interpolate to f(0) mod p |
| Shamir.ParameterError | src/shamir_secret_sharing/shamir_secret_sharing.cpp:8-16 | the constructor's three refusals, in order: threshold < 2, num_shares < threshold, prime < 2 |
| Shamir.ShamirSecretSharing.constructor | src/shamir_secret_sharing/shamir_secret_sharing.cpp:5-17 | accepted parameters are stored unchanged |
| Shamir.ShamirSecretSharing.Create | src/shamir_secret_sharing/shamir_secret_sharing.cpp:5-17 | an error exactly when a check fails, naming the first failing check; otherwise getThreshold and getNumShares return the arguments |
| Shamir.FirstShares | src/shamir_secret_sharing/shamir_secret_sharing.cpp:165 | the first min(size, t) shares, unchanged |
| Shamir.Reconstructed | src/shamir_secret_sharing/shamir_secret_sharing.cpp:49-65 | an error for fewer than t shares; an error for a repeated id anywhere in the list; otherwise the interpolation's value (summed with the wrapping `mod_add`), below p |
| Shamir.ShamirSecretSharing.EvaluatePolynomial | src/shamir_secret_sharing/shamir_secret_sharing.cpp:142-156 | the loop returns the sum of the rounds' terms added with the wrapping `mod_add`; for p up to 2^63 this is f(x) mod p |
| Shamir.PowerAfter | src/shamir_secret_sharing/shamir_secret_sharing.cpp:147-152 | `x_power` after i rounds is x^i mod p |
| Shamir.SumAfter | src/shamir_secret_sharing/shamir_secret_sharing.cpp:146-153 | `result` after i rounds, each term added with the wrapping `mod_add`, stays below p |
| Shamir.SumAfterIsPowerSum | src/shamir_secret_sharing/shamir_secret_sharing.cpp:146-153 | for p up to 2^63, `result` after i rounds is c[0] + ... + c[i-1] x^(i-1) mod p |
| Shamir.EvaluatedIsEval | src/shamir_secret_sharing/shamir_secret_sharing.cpp:142-156 | for p up to 2^63, `evaluate_polynomial` returns f(x) mod p |
| Shamir.EvaluateStep | src/shamir_secret_sharing/shamir_secret_sharing.cpp:149-153 | for p up to 2^63, one round's `mod_add` adds the next power-sum term exactly, and x^i advances |
| Shamir.WrappingRounds | src/shamir_secret_sharing/shamir_secret_sharing.cpp:149-153 | with p = 2^64 - 59 and c = [p-1, p-1], the two rounds at x = 1 end with 2^64 - 120 |
| Shamir.EvaluatedWraps | src/shamir_secret_sharing/shamir_secret_sharing.cpp:142-156 | with p = 2^64 - 59, `evaluate_polynomial([p-1, p-1], 1)` is 2^64 - 120, not f(1) mod p = p - 2 |
| Shamir.SplitSharesAreSharesOf | src/shamir_secret_sharing/shamir_secret_sharing.cpp:39-44 | for p up to 2^63, the shares `split` computes are f(1), ..., f(n) mod p |
| Shamir.EvalMod | src/shamir_secret_sharing/shamir_secret_sharing.cpp:145 | reducing x first does not change f(x) mod p |
| Shamir.ShamirSecretSharing.Split | src/shamir_secret_sharing/shamir_secret_sharing.cpp:19-47 | an error exactly when secret >= p; otherwise n shares with ids 1..n, share k being `evaluate_polynomial(c, k)` for a polynomial c with c0 = secret and the other coefficients in [1, p-1]; for p up to 2^63 that is f(k) mod p |
| Shamir.ShamirSecretSharing.LagrangeInterpolate | src/shamir_secret_sharing/shamir_secret_sharing.cpp:158-193 | the interpolation over the first min(size, t) shares, terms added with the wrapping `mod_add`, with a failing `mod_inv` ending it |
| Shamir.AccumulatedErrorPersists | src/shamir_secret_sharing/shamir_secret_sharing.cpp:185 | once a round throws, the whole interpolation throws that error |
| Shamir.InterpolateKeepsError | src/shamir_secret_sharing/shamir_secret_sharing.cpp:185 | the error of a failed round is the interpolation's result |
| Shamir.ShamirSecretSharing.Reconstruct | src/shamir_secret_sharing/shamir_secret_sharing.cpp:49-65 | the count check, the duplicate check over the whole list, then the as-written interpolation |
| Shamir.ReconstructRecoversSecret | src/shamir_secret_sharing/shamir_secret_sharing.cpp:19-65 | for a prime n < p <= 2^63, any t or more distinct shares of `split(secret)`, in any order, reconstruct the secret |
| LagrangeExample.ExampleShares | src/tests/test_lagrange.cpp:53-59 | the shares of f(x) = 5 + 3x are 8, 11 and 14 |
| LagrangeExample.LineValues | src/tests/test_lagrange.cpp:51-59 | 5 + 3x takes the values 5, 8, 11 at 0, 1, 2 |
| LagrangeExample.MinusOneSelfInverse | src/tests/test_lagrange.cpp:73-74 | p - 1 is its own inverse modulo a prime |
| LagrangeExample.ExampleBasis | src/tests/test_lagrange.cpp:72-78 | mod_sub(0,2) = p-2, mod_sub(1,2) = p-1, L1(0) = 2 and L2(0) = p-1 |
| LagrangeExample.ExampleReconstructs | src/tests/test_lagrange.cpp:90-94 | 8 * L1(0) + 11 * L2(0) is the secret 5 |
| LagrangeExample.ExampleAgreesWithInterpolate | src/tests/test_lagrange.cpp:67-94 | the library's interpolation of the same two shares also gives 5 |
| LagrangeExample.FirstTerm | src/tests/test_lagrange.cpp:72-74 | round 0 over ids 1 and 2 adds y1 * L1(0) = 2 * y1 mod p |
| LagrangeExample.SecondTerm | src/tests/test_lagrange.cpp:76-78 | round 1 over ids 1 and 2 adds y2 * L2(0) = (p - 1) * y2 mod p |
| LagrangeExample.TwoShareInterpolation | src/shamir_secret_sharing/shamir_secret_sharing.cpp:158-193 | over p = 2^64 - 59, interpolating shares at 1 and 2 is mod_add(mod_add(0, 2 y1), (p - 1) y2) |
| LagrangeExample.InterpolationWraps | src/shamir_secret_sharing/shamir_secret_sharing.cpp:49-65 | over p = 2^64 - 59, the shares (1, 101), (2, 102) of f(x) = 100 + x, a polynomial `split` may draw, reconstruct to 41, not 100 |
| Bytes.LittleEndianRoundTrip | src/multiparty_tls/multiparty_tls_rsyslog.cpp:70-79 | a value below 256^n is read back from its n little-endian bytes |
| Bytes.ReadWord | src/multiparty_tls/multiparty_tls_rsyslog.cpp:90-102 | a 64-bit word is read exactly when eight bytes remain at the position |
| Bytes.ReadWordAt | src/multiparty_tls/multiparty_tls_rsyslog.cpp:90-102 | a 64-bit word written after any prefix is read back at that offset |
| Chunks.Bits | src/tests/test_openssl_rsa.cpp:154 | `BN_num_bits`: 2^(r-1) <= d < 2^r, and 0 for 0 |
| Chunks.BitsWithin64 | src/tests/test_multiparty_tls_handshake.cpp:197-203 | a value has at most 64 bits exactly when it fits a 64-bit word |
| Chunks.NumChunks | src/tests/test_openssl_rsa.cpp:154-156 | ceil(bits / 61): the fewest 61-bit chunks that hold the bits |
| Chunks.ChunkAt | src/tests/test_openssl_rsa.cpp:170-177 | chunk k is (d >> 61k) masked to 61 bits, so below 2^61 |
| Chunks.SplitChunks | src/tests/test_openssl_rsa.cpp:152-188 | ceil(bits(d) / 61) chunks, chunk k being ChunkAt(d, k) |
| Chunks.FromChunksSnoc | src/tests/test_openssl_rsa.cpp:199-205 | reassembly adds chunk k at weight 2^(61k) (least significant first) |
| Chunks.Collect | src/multiparty_tls/multiparty_tls_rsyslog.cpp:219-237 | when the reassembly loop succeeds, it holds one value per chunk, each the chunk's reconstruction |
| Chunks.CollectErrorPersists | src/multiparty_tls/multiparty_tls_rsyslog.cpp:227-229 | once a chunk has failed, the loop ends with that failure whatever follows |
| Chunks.ChunkDigits | src/tests/test_openssl_rsa.cpp:152-210 | the first K chunks reassemble to d mod 2^(61K) |
| Chunks.ChunksRoundTrip | src/tests/test_openssl_rsa.cpp:410-423 | reassembling the split chunks reproduces d exactly, for every d |
| Chunks.CollectFirstError | src/multiparty_tls/multiparty_tls_rsyslog.cpp:219-237 | the first chunk whose `reconstruct` throws decides the error of the reassembly loop |
| Chunks.CollectValues | src/multiparty_tls/multiparty_tls_rsyslog.cpp:219-237 | when no chunk fails, the loop collects exactly the chunk values |
| Chunks.ModChunkAt | src/multiparty_tls/multiparty_tls_simple.cpp:130-139 | chunk k is (d >> 61k) mod (2^61 - 1), so below the prime |
| Chunks.ModSplitChunks | src/multiparty_tls/multiparty_tls_simple.cpp:114-151 | ceil(bits(d) / 61) chunks, chunk k being ModChunkAt(d, k) |
| Chunks.MsbIsReversedLsb | src/multiparty_tls/multiparty_tls_simple.cpp:290-306 | the most-significant-first fold puts chunk 0 at the top: it is the LSB-first sum of the reversed chunks |
| Chunks.ReducingCodecLosesTwoChunkKey | src/multiparty_tls/multiparty_tls_simple.cpp:133-139 | for d = 2^61 + 1 the reducing codec yields [2, 1] and reassembles 2^62 + 1; the masking codec yields [1, 1] and gets d back |
| Chunks.ReducingCodecLosesAllOnesKey | src/multiparty_tls/multiparty_tls_simple.cpp:133-139 | for d = 2^61 - 1 the reducing codec yields [0], and the masking codec yields the prime itself as a chunk |
| Dealing.ColumnRecovers | src/tests/test_openssl_rsa.cpp:380-404 | for a prime up to 2^63 (the drivers use 2^61 - 1), any t or more distinct parties holding dealt rows recover every chunk below the prime |
| Dealing.DealtExtend | src/multiparty_tls/multiparty_key_generator.cpp:115-120 | handing out one more chunk's shares keeps the rows dealt |
| Dealing.Transposed | src/multiparty_tls/multiparty_tls_simple.cpp:165-168 | row i holds share i of every chunk, in chunk order |
| Dealing.TransposedDealt | src/multiparty_tls/multiparty_tls_simple.cpp:154-168 | transposing the per-chunk share lists gives dealt rows |
| OpensslRsaTest.SplitBignumToChunks | src/tests/test_openssl_rsa.cpp:152-188 | the loop returns exactly SplitChunks(d) |
| OpensslRsaTest.ReconstructBignumFromChunks | src/tests/test_openssl_rsa.cpp:191-210 | the loop returns the LSB-first sum of the chunks |
| OpensslRsaTest.ShareChunks | src/tests/test_openssl_rsa.cpp:309-322 | unreduced chunks go to a fresh 3-of-5 instance each; an error exactly when some chunk is >= 2^61 - 1, otherwise every chunk is dealt |
| OpensslRsaTest.GatherShares | src/tests/test_openssl_rsa.cpp:381-386 | the collaborating parties' shares of one chunk, in party order |
| OpensslRsaTest.RecoverChunks | src/tests/test_openssl_rsa.cpp:376-404 | the recovery loop yields the per-chunk reconstructions, or the first error |
| OpensslRsaTest.RecoveryFailurePersists | src/tests/test_openssl_rsa.cpp:376-404 | a failed chunk ends the recovery with that chunk's error |
| OpensslRsaTest.RecoveryMatches | src/tests/test_openssl_rsa.cpp:380-404 | three or more distinct parties recover exactly the dealt chunks |
| OpensslRsaTest.ExponentRecovered | src/tests/test_openssl_rsa.cpp:296-423 | parties 1, 2, 3 recover every chunk, and reassembly gives d back |
| Rsyslog.NameBytes | src/multiparty_tls/multiparty_tls_rsyslog.cpp:73 | each character of the name is written as one byte |
| Rsyslog.BytesName | src/multiparty_tls/multiparty_tls_rsyslog.cpp:93-94 | each byte read becomes one character |
| Rsyslog.NameRoundTrip | src/multiparty_tls/multiparty_tls_rsyslog.cpp:73-94 | a name of byte-sized characters is read back unchanged |
| Rsyslog.Header | src/multiparty_tls/multiparty_tls_rsyslog.cpp:69-74 | party id, name length, name and chunk count take 24 + length bytes |
| Rsyslog.EncodeShares | src/multiparty_tls/multiparty_tls_rsyslog.cpp:76-80 | 16 bytes per (id, value) pair |
| Rsyslog.ReadShare | src/multiparty_tls/multiparty_tls_rsyslog.cpp:100-102 | a pair is read exactly when 16 bytes remain |
| Rsyslog.DecodeShares | src/multiparty_tls/multiparty_tls_rsyslog.cpp:97-104 | when it succeeds, exactly `count` pairs |
| Rsyslog.DecodeSharesFailurePersists | src/multiparty_tls/multiparty_tls_rsyslog.cpp:97-104 | a short read ends the share loop in failure, whatever the count |
| Rsyslog.ReadHeader | src/multiparty_tls/multiparty_tls_rsyslog.cpp:89-95 | the header fields are read back from where they were written |
| Rsyslog.DecodeSharesOfEncoded | src/multiparty_tls/multiparty_tls_rsyslog.cpp:76-104 | the encoded pairs are decoded back, whatever precedes and follows them |
| Rsyslog.DecodeEncode | src/multiparty_tls/multiparty_tls_rsyslog.cpp:65-107 | loading what was saved gives the bundle back when shares.size() == num_chunks |
| Rsyslog.SaveToFile | src/multiparty_tls/multiparty_tls_rsyslog.cpp:65-83 | the bytes written are the header followed by the pairs |
| Rsyslog.LoadFromFile | src/multiparty_tls/multiparty_tls_rsyslog.cpp:85-107 | reads the header, then exactly num_chunks pairs; any short read fails |
| Rsyslog.Gathered | src/multiparty_tls/multiparty_tls_rsyslog.cpp:221-226 | the k-th shares of the parties that have one, in party order |
| Rsyslog.GatheredFull | src/multiparty_tls/multiparty_tls_rsyslog.cpp:221-226 | when every party has a k-th share, none is skipped |
| Rsyslog.MultiPartyKeyManager.constructor | src/multiparty_tls/multiparty_tls_rsyslog.cpp:116 | the fixed 3-of-5 instance over 2^61 - 1 |
| Rsyslog.MultiPartyKeyManager.Distribute | src/multiparty_tls/multiparty_tls_rsyslog.cpp:175-177 | party i gets share i of the chunk appended |
| Rsyslog.MultiPartyKeyManager.SplitPrivateKey | src/multiparty_tls/multiparty_tls_rsyslog.cpp:121-194 | an error exactly when some masked chunk equals the prime; otherwise five bundles with ids 1..5, the party names, ceil(bits/61) chunks and one dealt share per chunk |
| Rsyslog.MultiPartyKeyManager.GatherChunkShares | src/multiparty_tls/multiparty_tls_rsyslog.cpp:221-226 | the inner loop returns Gathered |
| Rsyslog.MultiPartyKeyManager.ReconstructChunk | src/multiparty_tls/multiparty_tls_rsyslog.cpp:221-229 | the chunk reconstructed from the gathered shares |
| Rsyslog.MultiPartyKeyManager.ReconstructPrivateKey | src/multiparty_tls/multiparty_tls_rsyslog.cpp:199-237 | no key for fewer than three parties; the chunk count from the first party; the LSB-first sum of the chunks, or the first failing chunk's error |
| Rsyslog.ChunkRecovered | src/multiparty_tls/multiparty_tls_rsyslog.cpp:219-229 | chunk k is recovered from three or more distinct bundles |
| Rsyslog.SplitThenReconstruct | src/multiparty_tls/multiparty_tls_rsyslog.cpp:121-237 | bundles from a successful split, given by any three or more distinct parties, reconstruct d |
| KeyGenerator.MultiPartyKeyGenerator.constructor | src/multiparty_tls/multiparty_key_generator.cpp:46-49 | stores n and t, with no bundles yet |
| KeyGenerator.MultiPartyKeyGenerator.Setup | src/multiparty_tls/multiparty_key_generator.cpp:288-300 | `main` refuses t > n; the constructor refuses t < 2; otherwise a generator for (n, t) |
| KeyGenerator.MultiPartyKeyGenerator.DistributeChunk | src/multiparty_tls/multiparty_key_generator.cpp:118-120 | party p gets share p + 1 of the chunk appended |
| KeyGenerator.MultiPartyKeyGenerator.ShareChunk | src/multiparty_tls/multiparty_key_generator.cpp:106-120 | an error, with the bundles unchanged, exactly when the chunk is >= the prime; otherwise the rows stay dealt with one more chunk |
| KeyGenerator.MultiPartyKeyGenerator.SplitPrivateKey | src/multiparty_tls/multiparty_key_generator.cpp:77-128 | bundles reset to ids 1..n; an error exactly when some masked chunk equals the prime; otherwise every chunk of d dealt to every party in chunk order |
| KeyGenerator.Selected | src/multiparty_tls/multiparty_key_generator.cpp:150-154 | ids outside [1, n] are dropped; the rest name party positions |
| KeyGenerator.SelectedInRange | src/multiparty_tls/multiparty_key_generator.cpp:150-154 | when every id is in range, id x selects position x - 1 |
| KeyGenerator.SelectedIgnoresOutOfRange | src/multiparty_tls/multiparty_key_generator.cpp:151 | an out-of-range id changes nothing, wherever it stands |
| KeyGenerator.MultiPartyKeyGenerator.GatherChunkShares | src/multiparty_tls/multiparty_key_generator.cpp:149-154 | the k-th shares of the selected parties, in id-list order |
| KeyGenerator.MultiPartyKeyGenerator.ReconstructChunk | src/multiparty_tls/multiparty_key_generator.cpp:149-157 | the chunk reconstructed from the selected parties' shares |
| KeyGenerator.Reconstruction | src/multiparty_tls/multiparty_key_generator.cpp:131-171 | no key exactly when fewer than t ids are given; any other failure is a `reconstruct` error |
| KeyGenerator.MultiPartyKeyGenerator.ReconstructPrivateKey | src/multiparty_tls/multiparty_key_generator.cpp:131-171 | the loop computes Reconstruction: the LSB-first sum of the reconstructed chunks |
| KeyGenerator.OutOfRangeIdIgnored | src/multiparty_tls/multiparty_key_generator.cpp:135-154 | with at least t ids, an out-of-range id does not change the result |
| KeyGenerator.PickedChunkRecovers | src/multiparty_tls/multiparty_key_generator.cpp:147-157 | t or more distinct parties recover a dealt chunk |
| KeyGenerator.SplitThenReconstruct | src/multiparty_tls/multiparty_key_generator.cpp:77-171 | after a successful split, any t or more distinct in-range ids reconstruct d |
| KeyGenerator.SimulationRecovers | src/multiparty_tls/multiparty_key_generator.cpp:314-317 | `main`'s parties 1, 3, 5 of a 3-of-5 split reconstruct d |
| KeyGenerator.SharesFile | src/multiparty_tls/multiparty_key_generator.cpp:248-256 | the share count, then 16 bytes per share |
| KeyGenerator.SharesFileRoundTrip | src/multiparty_tls/multiparty_key_generator.cpp:248-256 | reading a share file gives the shares back |
| KeyGenerator.MultiPartyKeyGenerator.SaveShares | src/multiparty_tls/multiparty_key_generator.cpp:236-263 | one file per creatable party file holding its count and shares; nothing for a file that cannot be opened |
| KeyGenerator.LastPem | src/multiparty_tls/multiparty_key_generator.cpp:217 | `rfind(".pem")`: the last start of ".pem", if any |
| KeyGenerator.SharePrefix | src/multiparty_tls/multiparty_key_generator.cpp:332-336 | the output name cut at its last ".pem", a prefix of it |
| KeyGenerator.AnnouncedPublicName | src/multiparty_tls/multiparty_key_generator.cpp:216-222 | the public-key file written is the share prefix followed by "-public.pem" exactly when the output name ends in ".pem"; otherwise the names differ, as for a name without ".pem", which gets ".pub" |
| ReducingDrivers.ExtractChunk | src/multiparty_tls/multiparty_tls_simple.cpp:125-139 | the chunk is ModChunkAt(d, k), below the prime |
| ReducingDrivers.DistributeShares | src/multiparty_tls/multiparty_tls_simple.cpp:165-168 | party p (p < 5) gets share p of every chunk appended, in chunk order; other entries untouched |
| ReducingDrivers.ChunkColumn | src/multiparty_tls/multiparty_tls_simple.cpp:292-295 | the shares of chunk k, in participant order |
| ReducingDrivers.ReconstructChunk | src/multiparty_tls/multiparty_tls_simple.cpp:292-298 | the 3-of-5 reconstruction of that column |
| ReducingDrivers.ReassembleMsb | src/multiparty_tls/multiparty_tls_simple.cpp:287-306 | the MSB-first fold of the reconstructed chunks, or the first error |
| ReducingDrivers.PartiesRecoverChunks | src/multiparty_tls/multiparty_tls_simple.cpp:287-306 | three or more distinct parties rebuild the MSB-first fold of the dealt chunks |
| ReducingDrivers.ReducingCodecKeepsSmallKey | src/multiparty_tls/multiparty_tls_simple.cpp:123-151 | an exponent below 2^61 - 1 survives the reducing codec |
| ReducingDrivers.ParticipantsReassembly | src/multiparty_tls/multiparty_tls_simple.cpp:385-391 | parties 1, 3, 5 rebuild the MSB-first fold, and d itself when d < 2^61 - 1 |
| ReducingDrivers.TwoChunkKeyMismatch | src/multiparty_tls/multiparty_tls_simple.cpp:301-304 | for d = 2^61 + 1 parties 1, 3, 5 rebuild 2^62 + 1 |
| TlsSimple.ToWord | src/multiparty_tls/multiparty_tls_simple.cpp:143-151 | 0 for a chunk over 64 bits, otherwise the chunk reduced below the prime; a chunk below the prime is unchanged |
| TlsSimple.DistributedTlsServer.SetupDistributedKey | src/multiparty_tls/multiparty_tls_simple.cpp:80-180 | ceil(bits/61) chunks; party p's rows gain its share of every chunk, dealt from ModSplitChunks(d) |
| TlsSimple.CollaborativeDecrypt | src/multiparty_tls/multiparty_tls_simple.cpp:260-348 | a `reconstruct` error escapes; a mismatch only warns; the result is the decryption's |
| HandshakeTest.ToWordChecked | src/tests/test_multiparty_tls_handshake.cpp:197-219 | no word exactly for a chunk >= UINT64_MAX; otherwise the chunk reduced below the prime |
| HandshakeTest.MultiPartyTlsServer.constructor | src/tests/test_multiparty_tls_handshake.cpp:93-103 | the 3-of-5 instance over 2^61 - 1 |
| HandshakeTest.MultiPartyTlsServer.DistributeKeyShares | src/tests/test_multiparty_tls_handshake.cpp:152-270 | always true (its refusals cannot fire); party p's rows gain share p + 1 of every chunk of ModSplitChunks(d) |
| HandshakeTest.CollaborativeDecrypt | src/tests/test_multiparty_tls_handshake.cpp:372-472 | a `reconstruct` error escapes; false when the rebuilt exponent differs from the original; otherwise the decryption's result |
| MultiPartyTls.FromBigEndian | src/multiparty_tls/tls_multiparty.cpp:160-162 | the big-endian value of the bytes, below 256^length |
| MultiPartyTls.BytesToBigInt | src/multiparty_tls/tls_multiparty.cpp:158-164 | the first min(8, length) bytes read big-endian |
| MultiPartyTls.ToBytes | src/multiparty_tls/tls_multiparty.cpp:166-175 | exactly `length` bytes |
| MultiPartyTls.BigIntToBytes | src/multiparty_tls/tls_multiparty.cpp:166-175 | the low min(length, 8) bytes of the value big-endian, then zeros |
| MultiPartyTls.BigEndianRoundTrip | src/multiparty_tls/tls_multiparty.cpp:158-175 | reading m bytes written big-endian gives v mod 256^m |
| MultiPartyTls.BytesRoundTrip | src/multiparty_tls/tls_multiparty.cpp:158-175 | bytesToBigInt(bigIntToBytes(v, L)) is v mod 256^min(L, 8), and v for L >= 8 |
| MultiPartyTls.XorCancels | src/multiparty_tls/tls_multiparty.cpp:54 | XOR with the same byte twice gives the byte back |
| MultiPartyTls.XorPrefix | src/multiparty_tls/tls_multiparty.cpp:52-57 | the length of the data is preserved |
| MultiPartyTls.XorPrefixInvolution | src/multiparty_tls/tls_multiparty.cpp:52-57 | XOR-ing the prefix with the same key twice gives the data back |
| MultiPartyTls.EncryptPreMasterSecret | src/multiparty_tls/tls_multiparty.cpp:44-58 | the first min(len(pms), len(key)) bytes XOR-ed, the rest unchanged |
| MultiPartyTls.SecureErase | src/multiparty_tls/tls_multiparty.cpp:142-148 | every byte zeroed and the size left 0 |
| MultiPartyTls.Decryption | src/multiparty_tls/tls_multiparty.cpp:60-101 | the insufficient-shares error exactly when fewer than t shares are given; otherwise the first t are reconstructed (a failure there is passed on) and the result is as long as the ciphertext |
| MultiPartyTls.TlsMultiParty.constructor | src/multiparty_tls/tls_multiparty.cpp:11-15 | threshold and party count stored, over the prime 2^61 - 1 |
| MultiPartyTls.TlsMultiParty.Create | src/multiparty_tls/tls_multiparty.cpp:11-15 | the secret-sharing constructor's refusals, and otherwise the object |
| MultiPartyTls.TlsMultiParty.GenerateAndDistributeKeys | src/multiparty_tls/tls_multiparty.cpp:17-42 | the key is the first 8 random bytes mod 2^61 - 1; the public key is its 32-byte encoding; the shares are a split of it |
| MultiPartyTls.TlsMultiParty.CollaborativeDecryption | src/multiparty_tls/tls_multiparty.cpp:60-101 | the loop over the first t shares, the reconstruction and the XOR compute Decryption |
| MultiPartyTls.DecryptionInvertsEncryption | src/multiparty_tls/tls_multiparty.cpp:22-92 | decrypting with any t or more distinct shares of the key inverts encryption with its public encoding |
| MultiPartyTls.Stream | src/multiparty_tls/tls_multiparty.cpp:212-224 | n rounds give 32n bytes |
| MultiPartyTls.PHashOf | src/multiparty_tls/tls_multiparty.cpp:200-229 | exactly the requested length |
| MultiPartyTls.PHash | src/multiparty_tls/tls_multiparty.cpp:200-229 | the loop returns the first L bytes of HMAC(s, A(1) + seed) + HMAC(s, A(2) + seed) + ..., with A(0) = seed |
| MultiPartyTls.StreamPrefix | src/multiparty_tls/tls_multiparty.cpp:212-224 | fewer rounds give a prefix of more rounds |
| MultiPartyTls.PHashPrefix | src/multiparty_tls/tls_multiparty.cpp:200-229 | a shorter output is a prefix of a longer one |
| MultiPartyTls.LabelBytes | src/multiparty_tls/tls_multiparty.cpp:184 | one byte per label character |
| MultiPartyTls.Prf | src/multiparty_tls/tls_multiparty.cpp:177-188 | exactly the requested length |
| MultiPartyTls.TlsPrf | src/multiparty_tls/tls_multiparty.cpp:177-188 | P_hash over the label bytes followed by the seed |
| MultiPartyTls.DeriveMasterSecret | src/multiparty_tls/tls_multiparty.cpp:103-120 | 48 bytes of PRF(pms, "master secret", client + server) |
| MultiPartyTls.DeriveKeyBlock | src/multiparty_tls/tls_multiparty.cpp:122-140 | the requested length of PRF(master, "key expansion", server + client) |
| FirstAppearance.Distinct | src/ue_location/ue_location_service.py:298 | the distinct values, at most as many as the input |
| FirstAppearance.DistinctElements | src/ue_location/ue_location_service.py:298 | no value twice, and a value is listed exactly when it occurs |
| FirstAppearance.DistinctKeepsFirstAppearanceOrder | src/ue_location/ue_location_service.py:315 | values come out in the order of their first occurrence |
| FirstAppearance.DistinctCountsAddUp | src/ue_location/ue_location_service.py:311 | the counts of the distinct values add up to the length |
| UeMovement.Or3 | src/ue_location/ue_location_service.py:295 | Python `or`: the first truthy operand, else the last |
| UeMovement.GroupKey | src/ue_location/ue_location_service.py:295-297 | a key exactly when gnb_id or gnb_name or cell_id is truthy and not 'N/A'; it is one of the three |
| UeMovement.Keyed | src/ue_location/ue_location_service.py:297 | only events with that key |
| UeMovement.KeyedCount | src/ue_location/ue_location_service.py:306-311 | the events with key k are as many as the occurrences of k among the keys |
| UeMovement.UniqueConnections | src/ue_location/ue_location_service.py:282-315 | one connection per distinct key |
| UeMovement.SummaryStep | src/ue_location/ue_location_service.py:298-313 | the first event creates the entry; a later one updates last_seen, the count and the types |
| UeMovement.TracksStart | src/ue_location/ue_location_service.py:298-308 | a new key appended with its started entry keeps the dict matching the events seen |
| UeMovement.TracksUpdate | src/ue_location/ue_location_service.py:309-313 | updating an existing entry keeps the dict matching the events seen |
| UeMovement.TracksSkip | src/ue_location/ue_location_service.py:297 | an event without a usable key leaves the dict matching |
| UeMovement.GetUniqueGnbConnections | src/ue_location/ue_location_service.py:282-315 | the loop returns one summary per distinct key in first-appearance order |
| UeMovement.ConnectionKeys | src/ue_location/ue_location_service.py:292-315 | at most one connection per event; keys distinct, exactly those of some event, in first-appearance order |
| UeMovement.ConnectionCounts | src/ue_location/ue_location_service.py:306-313 | each count is the number of events with its key; event types have no duplicates; the counts sum to the number of keyed events |
| UeMovement.KeysOfMembers | src/ue_location/ue_location_service.py:294-297 | a key is listed exactly when some event has it |
| UeMovement.TrackUeMovement | src/ue_location/ue_location_service.py:317-362 | an error exactly without logs; no events gives zeros and empty lists; otherwise totals, unique gNBs, first and last timestamps and the set of event types |
| UeMovement.DisplayedEvents | src/ue_location/ue_location_service.py:647-650 | more than 15 events show as the first 10 and the last 5; fewer are shown whole |
| UeLocation.Get | ue_location_service.py:198-204 | `dict.get`: the value exactly when the key is present |
| UeLocation.GetOr | ue_location_service.py:198-204 | `dict.get` with a default |
| UeLocation.ApproximateLocation | ue_location_service.py:186-206 | name falls back to gnb_name then 'N/A'; global_id to gnb_id then 'N/A'; tac and plmn to 'N/A' |
| UeLocation.Compiled | ue_location_service.py:236-273 | a missing cell_id is '0000e000' in both places it appears; imei absent; gNB id and name present when a fallback key is |
| UeLocation.FirstMatch | ue_location_service.py:227-234 | none exactly when no entry has the IMSI; otherwise the earliest entry that has it |
| UeLocation.GetUeLocationByImsi | ue_location_service.py:208-273 | None without logs or without a match; otherwise the record compiled from the first match |
| UeLocation.UsableImsis | ue_location_service.py:337-339 | the IMSIs of entries whose IMSI is neither empty nor '-' |
| UeLocation.UsableImsisListed | ue_location_service.py:337-339 | every usable IMSI comes from some entry |
| UeLocation.LocationsOf | ue_location_service.py:340-342 | one record per IMSI looked up |
| UeLocation.LocationsOfFirstMatches | ue_location_service.py:337-342 | record j is compiled from the first entry that carries IMSI j |
| UeLocation.GetAllUeLocations | ue_location_service.py:320-344 | the loop returns the records of the usable IMSIs in entry order; nothing without logs |
| UeLocation.AllLocationsPerEntry | ue_location_service.py:320-344 | one record per usable IMSI, carrying that IMSI and compiled from its first matching entry |
| UeLocation.GetUeLocationByImei | ue_location_service.py:275-318 | None without logs or an IMSI for the IMEI; otherwise the IMSI lookup with `imei` added and nothing else changed |

## Left out

- RSA key generation, PEM/DER input and output, `RSA_public_encrypt`, `RSA_private_decrypt` and `RSA_check_key` are OpenSSL calls. The exponent d is a `nat`, and whether RSA decryption succeeded is a boolean parameter.
- The HMAC-SHA256 internals are an OpenSSL call. The HMAC is a function parameter assumed to return 32 bytes.
- The random coefficients of `split` and the 32 random bytes of `generateAndDistributeKeys` are inputs, not generated. The `RAND_bytes` failure path is left out with the generator.
- `extended_gcd` is never called and is left out.
- Lagrange.AccumulatedIsWeightedSum: holds only for primes up to 2^63. Above, `mod_add` can wrap (see Findings).
- Lagrange.InterpolateRecoversConstant: holds only for primes up to 2^63, for the same reason.
- Shamir.ReconstructRecoversSecret: holds only for primes up to 2^63. For a larger prime, LagrangeExample.InterpolationWraps shows `reconstruct` losing the secret.
- Shamir.ShamirSecretSharing.EvaluatePolynomial: returns f(x) mod p only for primes up to 2^63. Shamir.EvaluatedWraps shows a larger prime where it does not.
- Shamir.ShamirSecretSharing.Split: its shares are f(k) mod p only for primes up to 2^63.
- Shamir.EvaluateStep, Shamir.SumAfterIsPowerSum, Shamir.EvaluatedIsEval, Shamir.SplitSharesAreSharesOf: stated for primes up to 2^63, where `mod_add` cannot wrap.
- Dealing.ColumnRecovers: stated for primes up to 2^63. Every driver uses 2^61 - 1.
- `Prime(p)` is a hypothesis of the correctness lemmas. The primality of 2^61 - 1 and of 2^64 - 59 is not proved.
- File and socket I/O are left out: share files are byte sequences, and the share server is not modelled. `SaveShares` takes which party files can be opened as a parameter.
- The share-file names that embed the party number are left out.
- Console output, timing and the `OPENSSL_cleanse` primitive are left out.
- Rsyslog.MultiPartyKeyManager.SplitPrivateKey: requires fewer than 2^31 bits, because the source keeps the bit count in an `int`.
- Sizes are not bounded by `size_t` except where a value is written to a file. There a length must be below 2^64.
- The simple server's `sss` member is re-created on each setup and read nowhere else; the model makes it a local of TlsSimple.DistributedTlsServer.SetupDistributedKey.
- The handshake server's `if (!sss)` check is left out, because its constructor's parameters are accepted.
- ReducingDrivers.DistributeShares: requires at least five parties. Indexing a shorter vector is undefined behaviour in the source.
- The party records of the two reducing drivers (the simple driver's `key_shares`, the handshake test's `shares`) are one `Party` datatype.
- TlsMultiParty.CollaborativeDecryption: `share_ids` is accepted and unused, as in the source.
- The AMF log fetch (`docker logs`) is a `logs` string parameter. `get_ue_location_by_imsi` fetches the log again when called from `get_all_ue_locations`; the model assumes the same log both times. It also reuses the outer parse's entries, whereas the source parses again, and each entry's `timestamp` is `datetime.now()` at parse time. So the source's `last_updated` comes from the inner parse, while the model's comes from the outer entries.
- The regex parsers are not modelled. Their results are parameters: the UE table entries, the movement events, the gNB information, and the IMSI found for an IMEI. `parse_initial_ue_message` is left out because its result is unused.
- UeLocation.FirstMatch: requires every entry to have an 'imsi' key. The UE-table parser always sets it; a missing key would be a `KeyError`.
- UeMovement.TrackUeMovement: the Python dict returned for no events omits keys, which the record shows as `None` or empty. `event_types` is a set, because the order of `list(set(...))` is unspecified.
- JSON export and the `display_*` printing are left out, except the event truncation.
- The duplicate `calculate_approximate_location` in src/ue_location/ue_location_service.py:364-384 is identical to the top-level one. UeLocation.ApproximateLocation models both.

## Findings

| source | as written | input that shows it | evidently intended | confidence | as-written member | corrected member |
|---|---|---|---|---|---|---|
| src/shamir_secret_sharing/shamir_secret_sharing.cpp:67-69 (and src/tests/test_lagrange.cpp:7-9) | `a % p + b % p` is a `uint64_t` sum, which wraps modulo 2^64 when p > 2^63 | p = 2^64 - 59 (the Lagrange test's prime), a = b = p - 1: returns 2^64 - 120. Through `evaluate_polynomial` (Shamir.EvaluatedWraps), and through `reconstruct` of the shares (1, 101), (2, 102) of 100 + x, which gives 41 (LagrangeExample.InterpolationWraps) | (a + b) mod p = p - 2; no wrap-around, which holds for p up to 2^63 (Field.ModAdd64Agrees) | not executed | Field.ModAdd64Overflows | Field.ModAdd |
| src/multiparty_tls/multiparty_tls_simple.cpp:133-139, 301-304; src/tests/test_multiparty_tls_handshake.cpp:189-193, 410-414 | chunks are taken modulo 2^61 - 1 and reassembled most significant first, so chunk 0 lands at the top | d = 2^61 + 1: chunks [2, 1], reassembled to 2^62 + 1 | chunks masked to 61 bits and reassembled least significant first, as in the other drivers, giving d back | not executed | ReducingDrivers.TwoChunkKeyMismatch | Chunks.ChunksRoundTrip |
