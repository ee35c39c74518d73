# ElGamal engine over a safe-prime group

A Dafny model of the JavaScript ElGamal engine `basic_simple_elgamal`:

- the `ElGamal` class (`elgamal.js`): its fields `p, g, y, x, q`, the
  security-level state machine (`setSecurityLevel`, `checkSecurity`,
  `isSecure`), group and key generation (`initialize`), encryption,
  decryption, the ungated group helpers (`power`, `add`, `multiply`), the
  accessors, `isReady`, and the `export`/`import` snapshot;
- rejection sampling of a uniform integer in `[min, max)`
  (`randomGeneratorInRange` in `bigIntManager.js`);
- the prime-candidate search run on a worker thread (`producePrime` in
  `primeProducerThread.js`).

The class is a Dafny `class` whose methods update its fields under narrow
`modifies` frames (`this`q, this`isSecure` for `CheckSecurity`, and so on),
so "what else stays unchanged" is part of every method's contract. Fields the
JavaScript may leave `undefined` are `Option<nat>`; every `throw` is a
`Failure`/`Fail` carrying an `Error` constructor named after the exception.

Inputs the program takes from outside are parameters:

- random bytes (`crypto.randomBytes`) are a finite byte stream `src`; each
  consumer returns the unread rest, and a stream that runs out ends the run
  with `OutOfEntropy` (an artefact of finiteness; no result is changed by it);
- the primes `getPrime` would deliver are a sequence `primes`, each prime, as
  `PrimeProducer.ProducePrime` guarantees of its output;
- the library's probabilistic `isProbablePrime`/`isPrime` are replaced by exact
  primality `Primes.IsPrime`;
- big-integer's `mod` and `remainder` truncate toward zero (the result takes
  the sign of the dividend): `ModArith.Rem`; `modInv` is the unique inverse in
  `[0, m)` (`Primes.ModInv`), `None` where the library throws.

Modules: `Common` (Option, Result, Outcome, Byte), `ModArith` (powers,
remainders, modular identities), `Primes` (primality, the modular inverse,
Bezout, Euclid's theorem), `Bits` (big-endian bytes, bit length, shifts,
`or(1)`), `BigIntManager`, `PrimeProducer`, `ElGamalEngine`, and
`ElGamalScenarios` (a 23-element group run end to end and the two findings).

The model follows the code as written: the setters do not reset
`isSecure`; `encrypt` records `lastEncryptionKey` before it checks the
message type; `setSecurityLevel` stores the level unchanged; `import` takes
`y` from the snapshot's modulus. The last two are listed under Findings with
a corrected counterpart.

## Model

| member | source | states |
|---|---|---|
| BigIntManager.DrawSize | bigIntManager.js:48-51 | each draw reads `ceil(bitLength(max-min-1)/8)` bytes, at least one, and `256^n > max-min-1`, so every offset of the range fits in a draw |
| BigIntManager.InRangeSpec | bigIntManager.js:47-55 | the sampling loop's result on a stream: a value in `[min, max)` with the rest of the stream a proper suffix, or exhaustion |
| BigIntManager.FirstDrawBelowRange | bigIntManager.js:50-53 | draws reading `>= max-min` are discarded without modulo reduction: the result is `min` plus the first reading below `max-min`, and the stream resumes right after that draw |
| BigIntManager.EveryValueReachable | bigIntManager.js:48-52 | every value of `[min, max)` is returned for the draw that encodes `v-min` big-endian |
| BigIntManager.SingleByteDraw | bigIntManager.js:48-53 | for a range of at most 256 values a single byte below `max-min` is accepted at once as `min + b` |
| BigIntManager.OneByteRange | bigIntManager.js:51 | a range of at most 256 values is drawn one byte at a time |
| BigIntManager.GetInRange | bigIntManager.js:47-55 | the do-while loop returns exactly `InRangeSpec` of the stream, so a value in `[min, max)` |
| Bits.BigEndian | bigIntManager.js:52 | the hex reading of a buffer is below `256^len` |
| Bits.BigEndianOfEncoding | bigIntManager.js:52 | reading the `n`-byte encoding of `v < 256^n` gives back `v` |
| Bits.EncodingOfBigEndian | bigIntManager.js:52 | encoding the reading of a buffer gives back the buffer |
| Bits.BitLength | bigIntManager.js:51 | `bitLength(n)` is the least `r` with `n < 2^r`; it is 0 exactly for 0 |
| Bits.BitLengthMonotone | primeProducerThread.js:37-41 | a larger value has at least the bit length |
| Bits.BitLengthBelow | bigIntManager.js:51 | below `2^k` the bit length is at most `k` |
| Bits.ByteCount | primeProducerThread.js:31 | `ceil(bits/8)`: `8*r >= bits` and `8*(r-1) < bits` |
| Bits.ByteCountCovers | bigIntManager.js:51 | `ceil(bitLength(n)/8)` bytes represent `n` |
| Bits.ShiftLeftMultiplies | primeProducerThread.js:34 | `shiftLeft(s)` multiplies by `2^s` |
| Bits.ShiftRightDivides | primeProducerThread.js:34 | a negative `shiftLeft` shifts right, dividing by `2^s` rounding down |
| Bits.BitLengthShiftLeft | primeProducerThread.js:34 | shifting a nonzero value left by `s` adds `s` to its bit length |
| Bits.BitLengthShiftRight | primeProducerThread.js:34 | shifting right by `s <= bitLength` removes `s` bits |
| Bits.OrOne | primeProducerThread.js:36 | `or(1)` yields an odd value equal to `v` or `v+1`, with the bit length of a nonzero `v` unchanged |
| PrimeProducer.Shift | primeProducerThread.js:34 | `shiftLeft(delta)` multiplies by `2^delta`, and for a negative `delta` divides by `2^-delta` rounding down |
| PrimeProducer.Normalise | primeProducerThread.js:34 | after `shiftLeft(bitLength - v.bitLength())` a nonzero value has exactly `bitLength` bits |
| PrimeProducer.Candidate | primeProducerThread.js:31-36 | the first candidate is odd, and a nonzero draw for a positive bit length gives exactly `bitLength` bits |
| PrimeProducer.OddPrimeAbove | primeProducerThread.js:37-41 | an odd prime lies above every odd start at an even distance, so the +2 search ends |
| PrimeProducer.ResultLength | primeProducerThread.js:22-26 | the search only moves up, so the result has at least `bitLength` bits (possibly more) |
| PrimeProducer.NoPrimeBetween | primeProducerThread.js:37-41 | no value skipped by the +2 steps is prime |
| PrimeProducer.StepToPrime | primeProducerThread.js:37-41 | the nested loops return the first prime of `start, start+2, ...`: prime, odd, `>= start`, at an even distance, with no prime skipped |
| PrimeProducer.ProducePrime | primeProducerThread.js:29-44 | the result is the first prime in the progression from the normalised odd candidate; for a nonzero draw its bit length is at least `bitLength` |
| Primes.IsPrime | primeProducerThread.js:37-38 | exact primality (at least 2, no divisor in `[2, n)`) stands for `isProbablePrime` here and `isPrime`/`isProbablePrime` in elgamal.js |
| Primes.ModInv | elgamal.js:343 | `modInv` returns an inverse below `m`, and `None` only when no inverse exists |
| Primes.InverseUnique | elgamal.js:343 | an element has at most one inverse in `[0, m)` |
| Primes.ModInvCharacterised | elgamal.js:343 | `ModInv(s, m) == Some(t)` exactly when `t < m` and `s*t mod m = 1` |
| Primes.InverseExists | elgamal.js:209 | modulo a prime every element not divisible by it is invertible, so `modInv` does not throw in the generator loop |
| Primes.NonzeroProduct | elgamal.js:342-344 | a product of two elements not divisible by a prime is not divisible by it |
| Primes.ModPowNonzero | elgamal.js:342 | powers of an element coprime to a prime are nonzero, so the shared secret is invertible |
| Primes.PrimeAbove | primeProducerThread.js:37-41 | there is a prime above every bound (Euclid) |
| Primes.OddPrime | elgamal.js:153-159 | every prime other than 2 is odd |
| ModArith.Rem | elgamal.js:321 | `remainder`/`mod` by a positive modulus: congruent to the dividend, in `[0, m)` for a non-negative dividend and in `(-m, 0]` for a negative one |
| ModArith.ModPow | elgamal.js:204 | `modPow` lies in `[0, m)` |
| ModArith.ModPowPow | elgamal.js:342 | `(g^a)^b = g^(a*b)` modulo `m` |
| ModArith.ModPowAdd | elgamal.js:366-370 | `g^(a+b) = g^a * g^b` modulo `m`: `power` is a homomorphism |
| ModArith.ModPowOfMod | elgamal.js:342 | reducing the base first does not change `modPow` |
| ElGamalEngine.ArgValue | elgamal.js:75-131 | a parsed argument sets the field, an absent one leaves it `undefined` |
| ElGamalEngine.UpperChar | elgamal.js:179 | an ASCII character upper-cased is never a lower-case letter: it is the character itself or the capital whose lower case it is |
| ElGamalEngine.Upper | elgamal.js:179 | `toUpperCase` on ASCII text, character by character: the same length and no lower-case letter left |
| ElGamalEngine.UpperOfSpelling | elgamal.js:179 | a string upper-cases to an upper-case word exactly when it spells that word with each letter in either case |
| ElGamalEngine.LevelAccepted | elgamal.js:179-182 | the upper-cased level is in the accepted list exactly for the mixed-case spellings of HIGH, LOW and MEDIUM |
| ElGamalEngine.ValidGenerator | elgamal.js:205-210 | the four generator conditions: `g^q = 1`, `g^2 != 1`, `(p-1) mod g != 0` and `(p-1) mod g^-1 != 0` |
| ElGamalEngine.GeneratorSpec | elgamal.js:202-210 | the generator loop on a stream: the first drawn `e` in `[3, p)` whose `2^e mod p` passes the four conditions with the stream after it, or the stream too short for a draw with the last generator tried; the stream never grows |
| ElGamalEngine.GeneratorSpecFound | elgamal.js:202-210 | the exponent the search settles on gives a `g = 2^e mod p` meeting all four conditions |
| ElGamalEngine.GroupKeysSpec | elgamal.js:201-219 | the generator search followed by the draw of `x` in `[2, p-2]` with `y = g^x mod p`; any failure is `OutOfEntropy` and leaves `x` and `y` as they were |
| ElGamalEngine.GroupKeysValid | elgamal.js:201-219 | when both steps succeed, `p = 2q+1` is a safe prime, `g` is a power of 2 meeting the four conditions, `x` lies in `[2, p-2]` and `y = g^x mod p` |
| ElGamalEngine.OrderOf | elgamal.js:136-137 | `(p-1)/2` with truncating division; `2q+1 = p` exactly when `p` is odd |
| ElGamalEngine.ModPowOf | elgamal.js:529 | `g.modPow(x, p)` on optional fields succeeds exactly when all are set and `p > 0`, and lies below `p` |
| ElGamalEngine.EncryptWith | elgamal.js:319-322 | `c1 < p`, `c2` in `[0, p)` for a non-negative message, and `c2` congruent to `y^k * m` modulo `p` |
| ElGamalEngine.EncryptOutcome | elgamal.js:308-322 | only a numeric message is encrypted; a string and any other type fail with their own errors |
| ElGamalEngine.DecryptWith | elgamal.js:342-345 | fails exactly when the shared secret has no inverse (or `p = 0`); otherwise the result times `c1^x` is congruent to `c2`, in `[0, p)` for `c2 >= 0` |
| ElGamalEngine.SharedSecretAgrees | elgamal.js:342 | `(g^k)^x = (g^x)^k = g^(x*k)` modulo `p`: both sides reach the same secret |
| ElGamalEngine.DecryptAfterEncrypt | elgamal.js:290-345 | with `p` prime, `g` not a multiple of `p`, `y = g^x` and `0 <= m < p`, decryption of the encryption returns `m` for every ephemeral key |
| ElGamalEngine.SameResidue | elgamal.js:344 | cancelling an invertible factor modulo a prime: two residues in `[0, p)` with the same product are equal |
| ElGamalEngine.SubgroupMembership | elgamal.js:352-355 | a power of an element of the order-`q` subgroup stays in it |
| ElGamalEngine.ElGamal.constructor | elgamal.js:53-139 | level `HIGH`, not secure, the given fields, `q = (p-1)/2` exactly when `p` is given |
| ElGamalEngine.ElGamal.Create | elgamal.js:75-131 | the first malformed literal in the order g, p, x, y decides the error; otherwise a fresh engine as the constructor builds it |
| ElGamalEngine.ElGamal.CheckSecurity | elgamal.js:146-171 | at exact `HIGH`: derive a missing `q`, or throw on missing `p` / `2q+1 != p`, then `true` iff `p` and `q` are prime (a safe-prime group); at exact `MEDIUM`: `true` iff `p` is prime; any other level `true`; `isSecure` is raised only by `true` and never lowered |
| ElGamalEngine.ElGamal.SetSecurityLevel | elgamal.js:178-183 | accepted iff the upper-cased level is HIGH, LOW or MEDIUM; the level is then stored unchanged |
| ElGamalEngine.ElGamal.IsReady | elgamal.js:504-509 | ready exactly when `p`, `g`, `y` and `x` are all defined; `Initialize` leaves the engine ready on success |
| ElGamalEngine.ElGamal.Initialize | elgamal.js:192-220 | `p = 2q+1` for the first supplied `q` making `p` prime (a safe-prime group), or `OutOfPrimes` with `g`, `x`, `y` untouched when there is none; then `g`, `x`, `y` and the unread stream exactly as `GroupKeysSpec` gives them: `g = 2^e mod p` for the first passing draw of `GeneratorSpec`, `x` the next draw in `[2, p-2]`, `y = g^x mod p`; the engine is then ready; `q`, the level and `isSecure` are not assigned |
| ElGamalEngine.ElGamal.ChooseGroupKeys | elgamal.js:201-219 | the generator loop then the key draw: the outcome, the unread stream and `g`, `x`, `y` are exactly those of `GroupKeysSpec` for the fields as they were |
| ElGamalEngine.ElGamal.ChooseModulus | elgamal.js:193-199 | the prime loop keeps the first `q` whose `2q+1` is prime; `p` holds the last candidate tried |
| ElGamalEngine.ElGamal.ChooseGenerator | elgamal.js:202-210 | the loop's outcome, `g` and the unread stream are those of `GeneratorSpec`: success exactly at the first passing draw, with `g = 2^e mod p` for it; when the bytes run out, `g` holds the last generator tried |
| ElGamalEngine.ElGamal.ChooseKeys | elgamal.js:213-219 | succeeds exactly when `InRangeSpec(p-1, 2, src)` draws (`p - 1 = 2q`); then `x` is that draw in `[2, p-2]`, `y = g^x mod p` and the stream resumes after it; otherwise `x`, `y` and the stream are unchanged |
| ElGamalEngine.ElGamal.Encrypt | elgamal.js:290-323 | fails unless secure, then unless ready; draws `k` in `[1, p-2]` and records it as `lastEncryptionKey` before the message type is checked; a numeric message gives `EncryptWith(p, g, y, k, m)` |
| ElGamalEngine.ElGamal.Decrypt | elgamal.js:331-346 | the same two guards, then `DecryptWith` on the engine's `p` and `x` |
| ElGamalEngine.ElGamal.RandomGroupMember | elgamal.js:352-355 | `g^e mod p` for the draw `e` in `[3, p)`; fails on a missing `p` before drawing and on a missing `g` after |
| ElGamalEngine.ElGamal.Power | elgamal.js:366-370 | `g^e mod p` below `p` regardless of `isSecure`; `power(1) = g` for `g < p` |
| ElGamalEngine.ElGamal.Add | elgamal.js:381-388 | `(a+b) mod p` regardless of `isSecure`: congruent to `a+b`, in `[0, p)` for a non-negative sum, fails on missing or zero `p` |
| ElGamalEngine.ElGamal.Multiply | elgamal.js:399-406 | `(a*b) mod p` regardless of `isSecure`: congruent to `a*b`, in `[0, p)` for a non-negative product, fails on missing or zero `p` |
| ElGamalEngine.ElGamal.Generator | elgamal.js:420-422 | returns `g`, fails when it is undefined |
| ElGamalEngine.ElGamal.GroupOrder | elgamal.js:436-438 | returns `q`, fails when it is undefined |
| ElGamalEngine.ElGamal.Modulus | elgamal.js:452-454 | returns `p`, fails when it is undefined |
| ElGamalEngine.ElGamal.PublicKey | elgamal.js:470-472 | returns `y`, fails when it is undefined |
| ElGamalEngine.ElGamal.PrivateKey | elgamal.js:493-498 | returns `x` only at the exact level `LOW`, otherwise a policy violation |
| ElGamalEngine.ElGamal.SetGenerator | elgamal.js:411-415 | replaces `g` only; `isSecure` untouched |
| ElGamalEngine.ElGamal.SetGroupOrder | elgamal.js:427-431 | replaces `q` only; `isSecure` untouched |
| ElGamalEngine.ElGamal.SetModulus | elgamal.js:443-447 | replaces `p` only (not `q`); `isSecure` untouched |
| ElGamalEngine.ElGamal.SetPublicKey | elgamal.js:461-465 | replaces `y` only; `isSecure` untouched |
| ElGamalEngine.ElGamal.SetPrivateKey | elgamal.js:479-483 | replaces `x` only; `isSecure` untouched |
| ElGamalEngine.ElGamal.Export | elgamal.js:517-531 | clears and hands out `lastEncryptionKey` only when `deep` (even if the rest throws); includes `x` only at exact `LOW`; recomputes `y = g^x mod p` |
| ElGamalEngine.ElGamal.Import | elgamal.js:537-544 | clears `isSecure`, copies `g`, `p`, `x`, the level, and sets `y` to the snapshot's `p` |
| ElGamalEngine.ElGamal.ImportRestoringKey | elgamal.js:26-37 | corrected import: `y` is the snapshot's public value |
| ElGamalEngine.ElGamal.SetSecurityLevelCanonical | elgamal.js:178-183 | corrected level setter: stores the upper-cased level, always one of the three |
| ElGamalScenarios.TrialDivision | elgamal.js:156-159 | no divisor found by trial division means prime |
| ElGamalScenarios.ToyCipher | elgamal.js:290-346 | in the group `p = 23`, `g = 4`, `x = 6`, `y = 2`: `k = 3`, `m = 9` encrypt to `(18, 3)`, which decrypts to 9 |
| ElGamalScenarios.ToySession | tests/encryption-decryption.js:7-34 | the test's sequence (checkSecurity, encrypt, decrypt, compare) on the engine with `p = 23, g = 4, y = 2, x = 6`, `checkSecurity` is `true` and 9 decrypts back to 9 for every one-byte key draw up to 20 |
| ElGamalScenarios.EncryptThenDecrypt | tests/encryption-decryption.js:23-34 | on a secure, ready engine with `y = g^x` over a prime modulus, decrypt returns every `m` in `[0, p)` that encrypt accepted; only exhausted randomness stops it |
| ElGamalScenarios.InitializedEngineIsSecure | elgamal.js:192-220 | a fresh engine that `initialize` completes passes `checkSecurity` at `HIGH`; the check fails to start only when no prime was supplied |
| ElGamalScenarios.ImportLosesPublicKey | elgamal.js:541 | as written, export then import turns the public value 2 into 23 |
| ElGamalScenarios.TransferKeys | elgamal.js:517-544 | export then corrected import carries `p`, `g`, `y = g^x mod p`, the level and (at `LOW`) `x`, with `isSecure` cleared |
| ElGamalScenarios.ImportRestoresPublicKey | elgamal.js:541 | with the corrected import the public value 2 survives |
| ElGamalScenarios.LowercaseMediumSkipsPrimality | elgamal.js:182 | as written, `'medium'` is accepted and the composite modulus 9 is then declared secure |
| ElGamalScenarios.CanonicalMediumChecksPrimality | elgamal.js:160-165 | with the level stored upper-cased, the same engine is refused |

## Left out

- `initializeRemotely` and the offline group files: HTTPS fetch and filesystem dumps; offlineGroups/offlineGroupInitializer.js is not part of this model.
- The worker-thread plumbing around `producePrime` and `getPrime` (spawn, await, terminate), and `async`/`await`, which are sequential calls here.
- `crypto.randomBytes`: its bytes are a parameter; nothing is claimed about entropy, uniformity or expected iteration counts.
- Probabilistic primality: `isProbablePrime`/`isPrime` are exact primality, so the rare false positive of the library is not modelled.
- Decimal string parsing and `typeof` dispatch: arguments arrive parsed (`Arg`: parsed, absent, or malformed with the constructor's or setter's error).
- Logging, the `console.log` of the bit length and the empty `trim` stub.
- Message values that are JavaScript numbers beyond integer precision: a numeric message is an integer.
- ElGamalEngine.Upper: maps only `a`-`z`; JavaScript's `toUpperCase` also maps other letters and may change the length (`'ß'` becomes `"SS"`), and it accepts `'hıgh'` (dotless i) as `HIGH`, which the model refuses.
- `lengthOfOrder`: `initialize` receives the primes directly, so the bit length requested of `getPrime` does not appear.
- big-integer internals of `modPow`/`modInv` for a modulus of 1 or below, and negative exponents: exponents are natural numbers.
- BigIntManager.GetInRange: requires `max - min >= 2`. With `max - min = 1` the JavaScript draws zero bytes and returns `min`; with `max - min <= 0` every candidate is at least `max` and its do-while loop never returns. Neither is modelled.
- ElGamalEngine.ElGamal.Encrypt: requires `p >= 4` once the guards pass, because of the sampler's precondition. In the JavaScript `p = 3` always draws `k = 1`, and `p = 2` never returns from the draw; `setSecurityLevel('MEDIUM')` with `p = 2` lets `encrypt` reach that loop.
- ElGamalEngine.ElGamal.RandomGroupMember: requires `p >= 5` when `p` is set, for the same reason. In the JavaScript `p = 4` returns `g^3 mod 4` and `p <= 3` never returns.
- The getters (elgamal.js:420-472) return the value's decimal string; the model returns the number.
- A JavaScript number that is not an integer makes `encrypt` throw when big-integer refuses to convert it; the model's `Message` has no such value.
- ElGamalEngine.ElGamal.Initialize: the stream of `getPrime` results and of random bytes is finite, so a run can end with `OutOfPrimes`/`OutOfEntropy` where the program would keep drawing.

## Findings

| source | as written | input that shows it | evidently intended | confidence | as-written member | corrected member |
|---|---|---|---|---|---|---|
| elgamal.js:541 | `import` assigns `y` from the snapshot's modulus | export of the engine `p = 23, g = 4, y = 2, x = 6`, then import: `y` becomes 23 | `y` taken from the snapshot's public value, as the `Engine` type documents | high; not executed | ElGamalScenarios.ImportLosesPublicKey | ElGamalEngine.ElGamal.ImportRestoringKey |
| elgamal.js:182 | `setSecurityLevel` validates the upper-cased level but stores the raw string | `setSecurityLevel('medium')` on an engine with composite `p = 9`: `checkSecurity` returns `true` | the level stored in canonical upper case, so `MEDIUM` checks primality | high; not executed | ElGamalScenarios.LowercaseMediumSkipsPrimality | ElGamalEngine.ElGamal.SetSecurityLevelCanonical |
