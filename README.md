# BayesQLD in Dafny

A model of the core of BayesQLD. BayesQLD estimates the number of positives in a sample from a quantal limited dilution assay. A dilution series is plated; at each dilution some of the wells come out positive. A Metropolis–Hastings sampler then draws the number of positives `theta` from its posterior.

The model covers two parts of the C++ library:

- **The sampler object `BayesQLD`** (`BayesQLD/src/model.cpp`):
  - its constructor, which checks the data and draws the starting `theta_`;
  - the log-posterior `logPost_`;
  - the Metropolis–Hastings step `update_`;
  - the two-phase `sampler` loop.
- **The integer random machinery of `RanDraw`** (`BayesQLD/src/random.cpp`):
  - the 64-bit Mersenne Twister `GenerateMT`: seeding, twist and tempering;
  - bounded integer sampling `sampleInt`;
  - the Fisher–Yates shuffle `shuffleUint` with its three-xor swap;
  - the rejection loops `runifnz`, `runifno` and `runifop` around the uniform draw.

The modules are:

| file | module | what |
|---|---|---|
| `results.dfy` | `Results` | `Result`, the outcome of an operation that can throw |
| `real_math.dfy` | `RealMath` | `exp` and `log` as given functions with the two laws the proofs use |
| `twister.dfy` | `Twister` | `GenerateMT` over a 312-word `array<bv64>`, with the twist and tempering proved against pure definitions |
| `random_draw.dfy` | `Random` | `RanDraw`: `sampleInt`, `shuffleUint` and the rejection loops |
| `posterior.dfy` | `Posterior` | the log-posterior as a recursive specification |
| `metropolis.dfy` | `Metropolis` | one Metropolis–Hastings step and the chain of steps, as pure functions |
| `model.dfy` | `Model` | the class `BayesQLD`, whose methods are proved against the two modules above |

Imperative code stays imperative:

- The generator's state is an array that the methods update in place.
- `logPost_` runs its loop over the observations, with the two log-factorial loops inside it one after the other.
- `update_` rewrites the `theta` field.
- `sampler` counts with `uint32_t` counters and appends to the caller's vectors.

Each of these methods states its result or new state through a pure function. The properties are proved about those functions.

Exponential and logarithm are a value of type `RealMath.Elementary`. The uniform and normal draws are two given streams of reals, read from positions that advance by one per draw.

## Model

| member | source | states |
|---|---|---|
| Twister.Seed | BayesQLD/src/random.cpp:94-100 | the seeding loop fills a fresh 312-word state whose word 0 is the seed and word i is `6364136223846793005 * (w ^ (w >> 62)) + i` modulo 2^64 of word i-1 |
| Twister.GenerateMT.constructor | BayesQLD/src/random.cpp:85-102 | the state is the seeded one and `mti_` is 312, so the first `ranInt` regenerates |
| Twister.Join | BayesQLD/src/random.cpp:109 | the joined word holds the low 31 bits of `mt_[i]` and the high 33 bits of `mt_[i+1]` (the masks as the code names them) |
| Twister.AltIndex | BayesQLD/src/random.cpp:110 | the index into `alt_` is in range, and is 0 exactly when the joined word is even |
| Twister.WrapIndex | BayesQLD/src/random.cpp:114 | `i + (m_ - n_)` in 64-bit arithmetic is `i - 156` and lies in 0..154 for every index of the second loop |
| Twister.TwistIsRecurrence | BayesQLD/src/random.cpp:106-119 | word j after the twist is element 312 + j of the linear recurrence over the old state, so the three loops compute that recurrence |
| Twister.TwistFirstHalf | BayesQLD/src/random.cpp:108-111 | after the first loop, words 0..155 are regenerated and words 156..311 are untouched |
| Twister.TwistSecondHalf | BayesQLD/src/random.cpp:112-115 | after the second loop, words 156..310 are regenerated from words already rewritten; word 311 is untouched |
| Twister.Regenerate | BayesQLD/src/random.cpp:106-121 | after the whole twist every word equals `Twisted` of the old state, whose values `TwistIsRecurrence` identifies |
| Twister.UntemperAInverts | BayesQLD/src/random.cpp:126 | the first tempering step `y ^= (y >> 29) & d_` can be undone |
| Twister.UntemperBInverts | BayesQLD/src/random.cpp:127 | the second step `y ^= (y << 17) & b_` can be undone |
| Twister.TemperCSelfInverse | BayesQLD/src/random.cpp:128 | the third step `y ^= (y << 37) & c_` is its own inverse |
| Twister.TemperDSelfInverse | BayesQLD/src/random.cpp:129 | the fourth step `y ^= y >> 43` is its own inverse |
| Twister.TemperInvertible | BayesQLD/src/random.cpp:124-131 | tempering loses nothing: `Untemper` recovers the state word from the output |
| Twister.GenerateMT.RanInt | BayesQLD/src/random.cpp:104-132 | `mti_` stays in 0..312; at 312 the state is regenerated and the index restarts at 0; every call then advances `mti_` by exactly 1; the result, also left in `x_`, is the tempering of the word at the old index and untempers back to it; as a value, the new state is `Advance` of the old one and the result is its `Output` |
| Twister.AdvanceContinuesStream | BayesQLD/src/random.cpp:104-132 | once the words are used up, the j-th call after that leaves the regenerated words in place and returns element 312 + j of the recurrence, tempered: successive numbers follow the Mersenne Twister stream |
| Random.XorCancel | BayesQLD/src/random.cpp:297-299 | xor-ing with the same value twice gives back the original, on numbers |
| Random.SampleIntFrom | BayesQLD/src/random.cpp:281-286 | the error case is exactly `min >= max`; otherwise the result lies in `[min, max)` |
| Random.SampleIntExactly | BayesQLD/src/random.cpp:285 | the result is `v` exactly when `min <= v < max` and the draw is `v - min` modulo `max - min`, so every value of the range can come out |
| Random.RanDraw.RanInt | BayesQLD/src/random.cpp:104-132 | `RanDraw`'s integer draw is the generator's next output: the index advances as `ranInt` says, at 312 every word becomes `Twisted` of the old words, and the new state is `Advance` of the old one |
| Random.RanDraw.SampleInt | BayesQLD/src/random.cpp:281-286 | throws exactly when `min >= max`, and then leaves the generator alone; otherwise it advances the generator by one call (regenerating it at 312) and returns `min + draw % (max - min)` for that call's number, which lies in `[min, max)` |
| Random.Iota | BayesQLD/src/random.cpp:289-292 | the starting vector holds `k` at every position `k` |
| Random.Identity | BayesQLD/src/random.cpp:289-292 | the filling loop produces that starting vector |
| Random.XorSwapExchanges | BayesQLD/src/random.cpp:296-300 | for two different slots the three xors exchange the two entries exactly |
| Random.XorSwapSameSlotZeroes | BayesQLD/src/random.cpp:296 | the `i != j` guard is needed: the three xors on one slot set it to 0 |
| Random.ExchangeByXor | BayesQLD/src/random.cpp:296-300 | the guarded three-xor block exchanges slots `i` and `j` (and leaves the vector alone when they coincide) |
| Random.SwappedKeepsEntries | BayesQLD/src/random.cpp:296-300 | an exchange keeps the multiset of entries |
| Random.ApplySwapsPermutes | BayesQLD/src/random.cpp:293-301 | any sequence of the loop's exchanges only rearranges the entries |
| Random.RanDraw.ShuffleUint | BayesQLD/src/random.cpp:288-303 | returns N entries that are a permutation of 0..N-1, namely the Fisher–Yates result of the partners `js`; partner k is the generator's (k+1)-th number from the call on, modulo N-k, and the generator ends N-1 calls further on; for N = 0 it returns the empty vector and draws nothing |
| Random.ShuffleOfZeroThrows | BayesQLD/src/random.cpp:293-294 | as written, `N = 0` starts the loop at 2^64-1 and asks for a draw below `i + 1`, which wraps to 0, so the bounded draw throws |
| Random.RanDraw.RUnif | BayesQLD/src/random.cpp:307 | `runif()` returns the next value of the uniform stream and advances only that stream |
| Random.RanDraw.RNorm | BayesQLD/src/random.cpp:331-363 | `rnorm()` returns the next value of the normal stream and moves that stream on by one (what else the ziggurat draws is under "Left out") |
| Random.RanDraw.RUnifNz | BayesQLD/src/random.cpp:304-311 | the loop ends, returns the first draw that is not 0.0 (so a value in (0, 1]), and every draw it skipped was 0.0: it stops at `FirstNonZero` of where the stream stood |
| Random.SuccessiveNonZeroExtend | BayesQLD/src/random.cpp:304-311 | a further `runifnz()` call extends the run of stops by the first non-zero draw after the last stop, and the stream then stands just past it |
| Random.SuccessiveNonZeroUnique | BayesQLD/src/random.cpp:304-311 | the stops of successive `runifnz()` calls are determined by the stream and where it started |
| Random.RanDraw.RUnifNo | BayesQLD/src/random.cpp:313-320 | the loop ends, returns the first draw that is not 1.0 (so a value in [0, 1)), and every draw it skipped was 1.0 |
| Random.RanDraw.RUnifOp | BayesQLD/src/random.cpp:322-329 | the loop ends, returns the first draw in the open interval (0, 1), and every draw it skipped was 0.0 or 1.0 |
| Posterior.LogComb | BayesQLD/src/model.cpp:63-70 | when every well is positive (`pos >= n`) both log-factorial loops are empty and the binomial part is 0 |
| Posterior.LogPosterior | BayesQLD/src/model.cpp:59-75 | the sum over the observations of log binomial coefficient + `pos * log(1 - exp(-d theta)) + (pos - n) d theta - rate theta`; it is 0 for empty data |
| Posterior.PriorOncePerObservation | BayesQLD/src/model.cpp:71 | the prior term `-rate * theta` appears once per observation: the log-posterior equals the prior-free sum less `size * rate * theta` |
| Posterior.LogPosteriorConcat | BayesQLD/src/model.cpp:62-72 | observations contribute independently: pooling two data sets adds their log-posteriors |
| Model.BayesQLD.LogPost | BayesQLD/src/model.cpp:59-75 | the nested loops compute `LogPosterior` of the stored data at the argument; no field changes |
| Metropolis.MHStep | BayesQLD/src/model.cpp:77-89 | the flag is 0 or 1; 0 leaves `theta` as it was; 1 sets it to `exp(log theta + 0.4 z)` |
| Metropolis.MHStepIsMetropolisHastings | BayesQLD/src/model.cpp:79-83 | the step accepts exactly when `log u` is below the Metropolis–Hastings ratio `logPost(theta') - logPost(theta) + log theta' - log theta` of the proposal, Jacobian included |
| Metropolis.MHStepKeepsPositive | BayesQLD/src/model.cpp:83-88 | a positive `theta` stays positive whatever the draws |
| Metropolis.Chain | BayesQLD/src/model.cpp:48-57 | one record per pair of draws |
| Metropolis.ChainStep | BayesQLD/src/model.cpp:49-54 | record k is the step from record k-1's `theta` (the starting value for k = 0) with the k-th draws |
| Metropolis.ChainPositive | BayesQLD/src/model.cpp:45-88 | every recorded `theta` is positive when the chain starts positive |
| Metropolis.ChainRejectKeeps | BayesQLD/src/model.cpp:52-55 | a record with flag 0 repeats the `theta` held before that update; flag 1 holds the proposal made from it |
| Model.BayesQLD.constructor | BayesQLD/src/model.cpp:41-46 | stores the three vectors unchanged, sets `lambda_` to 0.0001 and `theta_` to `exp` of one normal draw, hence positive |
| Model.BayesQLD.Create | BayesQLD/src/model.cpp:41-46 | fails with the size error exactly when the three vectors differ in length, drawing nothing; otherwise builds the object as the constructor does, with the caller's `exp` and `log` |
| Model.BayesQLD.Update | BayesQLD/src/model.cpp:77-89 | uses exactly one normal draw and one `runifnz()`: the uniform draws it skipped were all 0.0 and the one it decides with is the first non-zero one; the new `theta_` and the returned flag are `MHStep` from the old `theta_` with those two draws; `theta_` stays positive |
| Model.BayesQLD.TrackedUpdate | BayesQLD/src/model.cpp:49-54 | one update inside `sampler` extends the chain by its record, one normal draw and one `runifnz()` stop |
| Model.BayesQLD.Sampler | BayesQLD/src/model.cpp:48-57 | makes `Nburnin + Nsamples` updates; the k-th decides with the uniform draw at `ps[k]`, the first non-zero draw after the previous update's; the burn-in appends nothing; the vectors keep their contents and gain exactly `Nsamples` entries each; the k-th appended pair is the `theta` and flag of update `Nburnin + k` of the chain; every appended `theta` is positive |

## Left out

- **Hardware generator and vendor detection.** `GenerateHR` (rdrand) and the `cpuid` detection of the `RanDraw` constructor are left out, because they are hardware plumbing. `RanDraw` always holds a Mersenne Twister here.
- **Seed source.** The `rdtsc` read that seeds `GenerateMT` becomes the constructor's `seed` parameter.
- **Floating-point samplers.** The ziggurat `rnorm`, `rgamma` and the floating-point `runif` are left out. The uniform and normal draws are two independent given streams.
- Random.RanDraw.RNorm: in the source the ziggurat also calls `ranInt()` twice per attempt and may call `runifno`/`runifnz`. In the model it moves only the normal stream, so neither the generator nor the uniform stream advances. A `sampleInt` or `shuffleUint` after an `rnorm` therefore sees a generator state the source would have moved on.
- Random.RanDraw.RUnif: `runif` is defined in `random.hpp`, which is not part of this model. The model's `RUnif` returns the next value of the uniform stream and leaves the generator alone.
- **Reals.** Doubles are mathematical reals: float rounding, NaN and infinities are not modelled. `exp` is assumed only to be positive, and `log` only to undo `exp`.
- **Statistical claims.** Acceptance rate and convergence of the chain are not stated.
- **R bindings.** `functions4R.cpp` is R binding code and is not part of this model.
- **Header-only members.** `model.hpp` contributes only the field list. Its copy and move members and `accept_`, which is never used, are left out. There is no multi-chain runner.
- **`random.hpp`.** `random.hpp` is not part of this model. The one-argument `sampleInt(n)` that `shuffleUint` calls is taken to be `sampleInt(0, n)`.
- **Object ownership.** `rng_` is an object handed to the constructor rather than one the object builds itself.
- **Elementary functions.** `exp` and `log` are handed to the constructor too, as a value satisfying `RealMath.Elementary.Lawful`.
- **Uniform stream.** It is taken to stay in [0, 1] and to hold an interior value at or after every position. Without that, the rejection loops would not end.
- Model.BayesQLD.Sampler: requires both counts below 2^32 - 1, because the source's `uint32_t` counter loops with `<=` never end at that count.
- Twister.GenerateMT.RanInt: the scratch field `x_` is set only by the tempering. The source also writes the joined word into it during the twist, but the value after the call is the same.
- Twister.GenerateMT.RanInt: the masks are modelled as written. The generator joins the low 31 bits of word i with the high 33 bits of word i+1, the reverse of MT19937-64, so its output is not claimed to match that generator's reference output.
- **Shuffle entries.** Vector entries outside the generator are integers in [0, 2^64). Their xor is defined on binary digits rather than as `bv64`.

## Findings

| source | as written | input that shows it | evidently intended | confidence | as-written member | corrected member |
|---|---|---|---|---|---|---|
| BayesQLD/src/random.cpp:293-294 | the loop starts at `N - 1` in `uint64_t`, which wraps to 2^64-1 when `N == 0`, and then asks for a draw below `i + 1`, which wraps to 0 | `shuffleUint(0)` | an empty vector for `N == 0` | not executed; the throw depends on the one-argument `sampleInt` in `random.hpp`, which is not part of this model | Random.ShuffleOfZeroThrows | Random.RanDraw.ShuffleUint |
