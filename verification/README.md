# he-score-calculator core in Dafny

This project models the arithmetic core of the score calculator. The calculator
compares a user's encrypted quiz score against a pass mark inside an o1js smart
contract. The model has three parts:

- **Exponentiation, discrete log and lookup table** (`src/lib.ts`, module `Lib`).
  - `ModExp` is the fixed 255-step square-and-select loop over the bits of the
    exponent.
  - `DiscreteLogRec` and `DiscreteLog` are the recursive and iterative linear
    searches for an exponent.
  - `BuildTable` is the table-building loop of `generateLookup`.
  - `LookUp` is the table read of `lookUp`.
- **The score contract** (`src/contract.ts`, modules `Contract`, `Popcount` and
  `Gadgets`).
  - The state record and its three setters, plus `deploy` and `calculateScore`.
  - `countSetBitsBigInt`, the 64-bit SWAR population count, proved equal to a
    reference `PopCount`.
- **Number-theory helpers and `PaillierCipher`** (`src/Paillier.ts`, modules
  `BigIntMath` and `Paillier`).
  - The big-integer `modExp`, `egcd`, `modInv`, `gcd` and `lcm`.
  - JavaScript BigInt's truncating `/` and `%` are modelled as `TDiv` and `TMod`.
  - `PaillierCipher.add` and `PaillierCipher.sub`.

The o1js base field is modelled as the integers modulo a parameter `p` (module
`Field`).
- Exponentiation, the discrete-log search, the lookup table and the popcount
  require `2^64 < p <= 2^255` (`IsModulus`). This is the field's size as far as
  `toBits` (255 bits) and the 64-bit gadgets need it.
- Field addition, subtraction and multiplication need only `p > 0`.
  `Paillier.Add` needs only `p > 1`.
- Field division and inversion, `Paillier.Sub` and `Paillier.SubAsWritten` need
  `p` to be prime, and nothing more.
- The generator `G` of the lookup table is a parameter.

The field exponentiation is modelled as the code is written, not as its doc comment
describes it (`src/lib.ts:7`).
- The accumulator starts at `base`, not at 1.
- A set bit keeps the plain square, and a clear bit multiplies by `base`.
- So for an exponent `e` the loop returns `base^(2^256 - 1 - e) mod p`
  (`Lib.ModExpClosedForm`). With `e = 0` it does not return 1 (`Lib.ModExpZeroExponent`).

The discrete-log search and the lookup table both go through this same `ModExp`.
They agree under three conditions (`Lib.TableAgreesWithSearch`):
- `modExp(G, .)` is injective on the table's range `[0, n)`;
- the exponent the table finds is at least 1, since the search starts at 1;
- the search bound is at least `n - 1`.

Without injectivity they can differ. The table keeps the largest matching index,
because later writes overwrite earlier ones. The search returns the smallest.

The 64-bit popcount is proved stage by stage.
- The 64-bit value is read as a little-endian sequence of lanes.
- Lanes are 1, 2, 4 and then 8 bits wide (`Popcount.LaneCounts`).
- Then come the byte sums after each folding addition (`Popcount.ByteSums`).
- Each line of `countSetBitsBigInt` is one `Popcount.Stage*` lemma. Each lemma shows:
  - the operands stay below `2^64`, as the range checks of `Gadgets.and` and
    `Gadgets.rightShift64` demand;
  - no field operation wraps around;
  - no carry or borrow crosses a lane.

## Model

| member | source | states |
|---|---|---|
| Lib.ModExp | src/lib.ts:9-23 | the result of the 255-step square-and-select loop is a field element below `p`; its value, `base^(2^256 - 1 - e) mod p`, is stated by `Lib.ModExpClosedForm` |
| Lib.DefaultTable | src/lib.ts:60-65 | `generateLookup()` with its default `n = 20000`: every stored exponent is below 20000 and maps back to its key |
| Lib.Select | src/lib.ts:16-19 | the arithmetic selector `bit*A + (1-bit)*B` yields exactly `A` when the bit is set and exactly `B` when it is clear |
| Lib.RunIsPow | src/lib.ts:10-20 | after `k` square-and-select steps over bits 254 downwards the accumulator is `base^E mod p`, with `E` doubled each step and raised by one for each clear bit |
| Lib.ExponentComplement | src/lib.ts:10-20 | the exponent the loop builds, added to the value of the bits it consumed, is `2^(k+1) - 1`: each clear bit contributes where a set bit would not |
| Lib.ModExpClosedForm | src/lib.ts:9-23 | for every exponent below `p`, `modExp(base, e) == base^(2^256 - 1 - e) mod p` |
| Lib.ModExpZeroExponent | src/lib.ts:6-23 | a counterexample to the doc comment: `modExp(p-1, 0)` is `p-1`, which is not 1 |
| Lib.DiscreteLogRec | src/lib.ts:25-30 | a returned `n` lies in `[start, bound]`, has `modExp(g, n) == a` and no smaller exponent from `start` matches; "not found" only when no exponent in `[start, bound]` matches |
| Lib.DiscreteLog | src/lib.ts:32-41 | the loop returns the same answer as the recursive search from 1: the least `n >= 1` with `modExp(g, n) == a`, or "not found" when none up to the bound exists |
| Lib.BuildTable | src/lib.ts:60-65 | the keys are exactly `{ modExp(G, i) : 0 <= i < n }`; each stored `j` is below `n` and maps back to its key; no later index hits the same key (later writes overwrite earlier ones) |
| Lib.LookUp | src/lib.ts:69-71 | a hit exactly when the key is in the table, and the hit is the stored exponent |
| Lib.LookUpMiss | src/lib.ts:60-71 | a lookup misses exactly when no exponent in `[0, n)` produces the value |
| Lib.LookUpFindsExponent | src/lib.ts:60-71 | when `modExp(G, .)` is injective on `[0, n)`, looking up `modExp(G, i)` returns exactly `i` |
| Lib.TableAgreesWithSearch | src/lib.ts:25-71 | when `modExp(G, .)` is injective on `[0, n)`, the table finds an exponent of at least 1 and the search bound is at least `n - 1`, the brute-force search finds the same exponent as the table |
| Contract.SetEncryptedFullScore | src/contract.ts:32-34 | the full-score ciphertext becomes the argument and every other state field is unchanged |
| Contract.SetEncryptedCorrectAnswers | src/contract.ts:36-38 | the correct-answers ciphertext becomes the argument and every other state field is unchanged |
| Contract.SetEncryptedUserAnswers | src/contract.ts:40-42 | the user-answers ciphertext becomes the argument and every other state field is unchanged |
| Contract.Deploy | src/contract.ts:81-84 | the stored score starts at 0 and every other state field is unchanged |
| Contract.CalculateScore | src/contract.ts:55-79 | the stored score becomes the user ciphertext's `c2`, nothing else changes, and `passed` holds exactly when `c2` is 4, 5 or 6 |
| Contract.PassedIgnoresCorrectAnswers | src/contract.ts:63-76 | replacing the correct-answers ciphertext changes neither `passed` nor the stored score |
| Contract.CalculateScoreIdempotent | src/contract.ts:55-79 | scoring a second time changes nothing and reports the same outcome |
| Contract.SettersOverwrite | src/contract.ts:32-42 | the last write to a field wins |
| Contract.SettersCommute | src/contract.ts:32-42 | setters of different fields commute |
| Contract.ScoreScenario | tests/score.test.ts:39-96 | after deployment, user `c2 = 4` with correct `c2 = 6` passes with stored score 4; then user `c2 = 3` fails with stored score 3 |
| Contract.CountSetBits | src/contract.ts:44-53 | succeeds exactly when the input fits in 64 bits (the gadgets' range check), and then returns the number of one bits of the input, at most 64 |
| Popcount.StageOne | src/contract.ts:46 | the odd bits are at most `v`, so the subtraction does not wrap; the result holds in each 2-bit lane that lane's number of one bits |
| Popcount.StageTwo | src/contract.ts:47 | masking with `0x33..` and adding the shifted copy turns the 2-bit counts into 4-bit counts of each nibble, below `2^64` |
| Popcount.StageThree | src/contract.ts:48 | adding the 4-bit shift and masking with `0x0F..` gives each byte's count in its own byte, and the sum stays below `2^64` |
| Popcount.StageFold | src/contract.ts:49-51 | adding the copy shifted right by `8k` bits adds to each byte count the count `k` bytes above it, with no carry between bytes and no overflow of 64 bits |
| Popcount.StageMask | src/contract.ts:51-52 | after the folds, masking with `0x7F` yields the population count of `v`, which is at most 64 |
| Gadgets.PopCountBelow | src/contract.ts:52 | a number below `2^n` has at most `n` one bits: the bound that puts the result in `[0, 64]` |
| BigIntMath.TModBounds | src/Paillier.ts:14-40 | BigInt `%` keeps the sign of the dividend and is smaller than the divisor in magnitude; it agrees with the mathematical remainder on non-negative operands |
| BigIntMath.ModExp | src/Paillier.ts:12-23 | exponent 0 (or below) gives 1 without entering the loop; otherwise the result is congruent to `base^exponent` and lies strictly between `-modulus` and `modulus`, and for `base >= 0` it is exactly `base^exponent mod modulus` |
| BigIntMath.Egcd | src/Paillier.ts:25-32 | `a*x + b*y == g`, with `g` dividing both `a` and `b`, and `g >= 0` for non-negative inputs |
| BigIntMath.Gcd | src/Paillier.ts:44-46 | the result divides both arguments, every common divisor divides it, and `gcd(a, 0) == a` |
| BigIntMath.EgcdIsGcd | src/Paillier.ts:25-46 | for non-negative inputs `egcd` and `gcd` compute the same divisor |
| BigIntMath.ModInv | src/Paillier.ts:35-41 | for `a >= 0` it fails exactly when `gcd(a, m) != 1`; for every `a`, a returned `r` lies in `[0, m)` and `a*r == 1 (mod m)` |
| BigIntMath.ModInvFailsOnlyWithoutInverse | src/Paillier.ts:35-41 | for `a >= 0`: when `modInv` throws, no `x` at all satisfies `a*x == 1 (mod m)` |
| BigIntMath.ModInvNegativeFails | src/Paillier.ts:26-41 | for a negative `a` the throw does not mean there is no inverse: `modInv(-29, 2)` throws because `egcd` ends with `g = -1`, yet `-29 * 1 == 1 (mod 2)` |
| BigIntMath.Lcm | src/Paillier.ts:49-51 | the result is a multiple of both arguments, `lcm * gcd == a * b`, and it is non-negative for non-negative inputs |
| BigIntMath.LcmIsLeast | src/Paillier.ts:49-51 | for any `a` and `b` not both zero, whatever their signs, every common multiple of `a` and `b` is a multiple of `lcm(a, b)` |
| Field.DivChecked | src/Paillier.ts:69 | `Field.div` fails exactly on a zero divisor, and otherwise returns the unique `r < p` with `r * b == a` |
| Paillier.Add | src/Paillier.ts:58-60 | the sum of two ciphertexts is again a field element, below `p`; its algebra is stated by `Paillier.AddCommutes`, `Paillier.SubUndoesAdd` and `Paillier.AddUndoesSub` |
| Paillier.AddCommutes | src/Paillier.ts:58-60 | `add` is commutative |
| Paillier.SubAsWritten | src/Paillier.ts:63-71 | `sub` as written fails exactly when `other.c` is zero, and otherwise returns the quotient |
| Paillier.SubAsWrittenFailsOnZero | src/Paillier.ts:66-70 | the zero guard does not protect: subtracting a zero ciphertext fails |
| Paillier.Sub | src/Paillier.ts:63-71 | the guarded subtraction: a zero divisor leaves `this` unchanged; any other divisor is divided out |
| Paillier.SubAsWrittenAgrees | src/Paillier.ts:63-71 | for a non-zero divisor the code as written and the guarded subtraction agree |
| Paillier.SubUndoesAdd | src/Paillier.ts:58-71 | `sub(add(x, y), y) == x` for `y.c != 0` |
| Paillier.AddUndoesSub | src/Paillier.ts:58-71 | `add(sub(x, y), y) == x` for `y.c != 0` |

## Left out

- File and JSON I/O of `generateLookup` and `lookUp` (`src/lib.ts:66`, `src/lib.ts:70`).
  The table is a `map` from field value to exponent, and `lookUp` reads that map.
  - Keys are field values rather than their decimal strings, since `toString` is
    injective on field elements.
  - `generateLookup` writes to the literal `lookup.json` and ignores its `path`
    argument. This has no counterpart in a model without files.
- Lib.DiscreteLog: the source search has no bound and loops forever when no
  exponent matches. The model takes an explicit `bound < p` and reports "not found"
  beyond it, so a target whose first exponent is above the bound is not modelled.
  The bound stays below `p` because the source's counter is a field element.
- Lib.DiscreteLogRec: the same bound replaces the unbounded recursion.
- The o1js and Mina machinery:
  - `@state`/`@method`, `get`/`assertEquals`, transactions and proof generation;
  - the account effects of `super.deploy`;
  - the internals of the gadgets' range checks.
  The `passed` event is returned as a value instead of being emitted. A range
  check that fails is modelled as a `Failure` result.
- Contract.CountSetBits: the source's function is `async`. The model is the
  computation it awaits.
- `MAX_USERS` (`src/contract.ts:20`) is declared but never used by the core.
- `src/he.ts` and the ElGamal cipher: `Cipher` is an opaque pair `(c1, c2)`. The
  ElGamal module is not part of this model.
- The `Paillier` class's key generation, encryption and decryption
  (`src/Paillier.ts:75-132`). They are placeholders with random witnesses, and there
  is no contract to state about them.
- BigIntMath.ModExp: a zero modulus makes `base % modulus` throw a `RangeError`, and
  a negative modulus is accepted by the source. The model requires a positive
  modulus, so neither the error nor negative moduli are modelled.
- BigIntMath.ModInv: the model requires `m > 0`, which leaves out two source cases.
  - With `m = 0`, `egcd(a, 0)` ends with `g = a`. For every `a != 1`, `modInv` then
    throws its own "modular inverse does not exist" error. For `a = 1` it reaches
    `x % 0n`, which throws a `RangeError`.
  - A negative modulus is accepted by the source.
- BigIntMath.Lcm: `lcm(0, 0)` divides by `gcd(0, 0) = 0` and throws a `RangeError`.
  The model requires `a` and `b` not both zero instead of modelling that error.
- `index.ts`: the cloud compile entry point and its network polling.
- BigIntMath.ModInv: when it throws is characterised only for `a >= 0`. For a
  negative `a`, `egcd` can end with `g = -1`, and `modInv` then throws although an
  inverse exists (`BigIntMath.ModInvNegativeFails`). When it does return, the
  result is a correct inverse for every `a`.

## Findings

| source | as written | input that shows it | evidently intended | confidence | as-written member | corrected member |
|---|---|---|---|---|---|---|
| src/Paillier.ts:66-70 | `Circuit.if(other.c.equals(0), this.c, this.c.div(other.c))` evaluates both branches before selecting, so the division by zero runs and throws | `other.c = 0`, any `this.c` | a zero `other.c` returns `this` unchanged, as the guard expresses | not executed | Paillier.SubAsWritten, Paillier.SubAsWrittenFailsOnZero | Paillier.Sub |
