# Pairing-based accumulator, modelled in Dafny

This project models the protocol algebra of a small cryptographic accumulator over the
bn256 pairing groups. It covers:

- key derivation: a secret α, and a public key made of the generators g1, g2 and g2^α;
- the accumulator value V and its in-place update V := X + α·V;
- generation and checking of membership witnesses W;
- generation and checking of non-membership witnesses (D, v);
- the Fiat–Shamir membership proof: commitments T1, T2, T3, a challenge hashed from
  the transcript, and a response s = ρ + c·x.

The pairing library is modelled in the discrete-log (exponent) model:

- Every element of G1, G2 and GT is its exponent with respect to the generator, a `nat`.
- The library operations reduce modulo the group order m:
  - `ScalarBaseMult(k)` is k mod m;
  - `ScalarMult(P, k)` is p·k;
  - `Add` is +, and `Neg` is −;
  - `Pair(P, Q)` is p·q;
  - comparison through `String()` is equality of residues.
- The order m is a parameter (`Numbers.Modulus`, any integer above 1). Where a result
  needs the order to be prime, `IsPrime(m)` appears as an explicit hypothesis.
- `big.Int.ModInverse` is the canonical inverse in [0, m), computed by a recursive
  extended Euclid. It is `None` when the gcd is not 1.
- Randomness is a `Draw` the caller supplies: either `Drawn(n)` or `Exhausted`, the
  failure of the random source.
- SHA-256 and point marshalling are function parameters.

Modules, one per source file plus support:

| module | file | models |
|---|---|---|
| `Numbers` | numbers.dfy | math/big: residues, extended Euclid, `ModInverse`, big-endian `SetBytes` |
| `Bn256` | bn256.dfy | the group operations and the pairing in the exponent model |
| `Effects` | effects.dfy | random draws and the error results |
| `Keys` | keys.dfy | key.go |
| `Utils` | utils.dfy | utils.go |
| `Accumulators` | accumulator.dfy | accumulator.go |
| `Proofs` | proof.dfy | proof.go |
| `Witnesses` | witness.dfy | witness.go |
| `Scenario` | scenario.dfy | the flow of main.go, as lemmas over all keys and elements |

The model follows what the code computes, not the textbook scheme:

- `Add` computes V' = X + α·V, not V^(x+α). A membership witness W = V^(1/(x+α)) therefore
  verifies only in the single-element case: `GeneratedWitnessVerifiesIff` states exactly
  when, and the lemmas `StaleAccumulatorValues`, `FirstWitnessValid`, `OldWitnessFails` and
  `RegeneratedWitnessFails` show a two-element accumulator where neither the old
  witness nor a regenerated one verifies.
- An `Element` carries its point X and its scalar x independently. `Utils.Consistent` names
  the relation X = g1^x, and only the lemmas that need it assume it.
- `GenerateWitness` inverts the unreduced sum x + α. `GenerateNonMembershipWitness` reduces
  the sum first, draws v before computing the inverse, and keeps its self-check. The
  self-check can never fail (`SelfCheckHolds`).
- A non-membership witness checked against another element is still accepted when D = 0,
  that is when the random v equals V (`NonMembershipRejectsOtherElement`,
  `NonMembershipDegenerateIff`).
- `MembershipProof.Verify` does not use T3.

## Model

| member | source | states |
|---|---|---|
| `Keys.NewSecretKey` | key.go:16-24 | a failed draw returns the error and no key; otherwise the key is the drawn α, with 0 ≤ α < m |
| `Keys.ToPublicKey` | key.go:27-41 | G1 and G2 are the generators (exponent 1) and Alpha is g2^α (exponent α mod m); the key depends on α alone |
| `Utils.HashToInt` | utils.go:16-22 | the result lies in [0, m), is congruent to the big-endian integer of the digest, and equals it when that integer is already below m |
| `Utils.DigestBelow2To256` | utils.go:19-21 | a 32-byte digest read big-endian is below 2^256 |
| `Numbers.FromBigEndianInjective` | utils.go:21 | `SetBytes` is injective on byte strings of equal length |
| `Numbers.ModInverse` | witness.go:85-88 | a returned inverse lies in [0, m) and multiplies g to 1; for a prime order it is missing exactly when g ≡ 0 |
| `Numbers.NoInverseWhenNone` | witness.go:85-88 | when no inverse is returned, no integer multiplies g to 1 modulo m |
| `Numbers.ProductZeroIff` | witness.go:82-91 | modulo a prime a product vanishes exactly when a factor does, which decides when witnesses verify |
| `Bn256.Neg` | witness.go:180-181 | the negated point cancels its argument under `Add` |
| `Bn256.PairBilinear` | witness.go:22-33 | the modelled pairing is bilinear: e(P^a, Q^b) = e(P, Q)^(a·b) |
| `Bn256.PairNonDegenerate` | witness.go:22-33 | e(g1, g2) is not the identity of GT |
| `Accumulators.Accumulator.constructor` | accumulator.go:15-18 | a new accumulator holds the G1 generator (exponent 1) and has no Adds behind it |
| `Accumulators.Accumulator.Add` | accumulator.go:21-25 | V becomes x_pt + α·V mod m, one step is appended to the history, only the accumulator changes, and V stays the replay of its history |
| `Accumulators.ReplayClosedForm` | accumulator.go:16-24 | under a fixed α, n Adds give V = α^n + Σ x_i·α^(n−i) mod m |
| `Accumulators.SingleAdd` | accumulator.go:16-24 | one Add onto a fresh accumulator gives x_pt + α mod m |
| `Scenario.FirstAdd` | main.go:37 | one Add of a consistent element onto a fresh accumulator gives x + α mod m |
| `Witnesses.WitnessVerifyMeaning` | witness.go:17-34 | under a genuine key, `Witness.Verify` holds exactly when W·α + x_pt ≡ V |
| `Witnesses.GenerateWitness` | witness.go:77-94 | the only error is a missing inverse, and for a prime order it happens exactly when x + α ≡ 0; a witness satisfies W·(x + α) ≡ V |
| `Witnesses.GeneratedWitnessVerifiesIff` | witness.go:17-34 | a generated witness for a consistent element verifies exactly when x·(x + α − V) ≡ 0; for a prime order, exactly when x ≡ 0 or V ≡ x + α |
| `Scenario.SingleElementWitness` | main.go:37-50 | after one Add, `GenerateWitness` returns W = g1 and it verifies |
| `Scenario.SingleElementRejectsOther` | main.go:61-71 | after one Add of x, the witness generated for y ≢ x, y ≢ 0, y + α ≢ 0 is rejected (prime order) |
| `Scenario.StaleAccumulatorValues` | accumulator.go:21-25 | with order 7 and α = 2, Adds of the points 1 then 3 take V from 1 to 3 to 2 |
| `Scenario.FirstWitnessValid` | witness.go:77-94 | in that example the witness of the first element at V = 3 is g1, and it verifies |
| `Scenario.OldWitnessFails` | witness.go:17-34 | that witness fails once V = 2, after the second Add |
| `Scenario.RegeneratedWitnessFails` | witness.go:77-94 | the witness generated afresh at V = 2 exists and fails as well |
| `Witnesses.NonMembershipVerifyMeaning` | witness.go:103-128 | under a genuine key, `NonMembershipWitness.Verify` holds exactly when V ≡ v + D·(y + α) |
| `Witnesses.GenerateNonMembershipWitness` | witness.go:162-202 | a failed draw is reported first; otherwise the call fails exactly when y + α has no inverse, never with "invalid witness"; the witness keeps the drawn v, satisfies v + D·(y + α) ≡ V and passes `Verify` |
| `Witnesses.SelfCheckHolds` | witness.go:190-196 | the self-check g1^v + D^(y+α) = V always holds once the inverse exists |
| `Witnesses.NonMembershipRejectsOtherElement` | witness.go:103-128 | for a prime order, a valid witness checked against an element with a different scalar passes exactly when D ≡ 0 |
| `Witnesses.NonMembershipDegenerateIff` | witness.go:162-202 | for a valid witness with y + α invertible, D ≡ 0 exactly when v ≡ V |
| `Scenario.MemberRejectsNonMembershipWitness` | main.go:73-91 | for a prime order, the non-member's witness checked against the member passes exactly when v ≡ V |
| `Witnesses.Witness.ZkProof` | witness.go:37-74 | a failed draw returns the error; otherwise the proof is the one `Prove` builds from the drawn ρ, with the challenge computed from the appended transcript |
| `Witnesses.ProveCommitments` | witness.go:44-68 | T1 = W·ρ, T2 = ρ, T3 = W, and the response is (ρ + c·x) mod m, in [0, m) |
| `Witnesses.HonestProofVerifiesIff` | witness.go:37-74 | for a consistent element, an honest proof verifies exactly when ρ·(W − 1) ≡ 0; for a prime order, exactly when ρ ≡ 0 or W ≡ g1 |
| `Scenario.GeneratorWitnessProofVerifies` | main.go:100-111 | a proof built from the witness W = g1 verifies against any accumulator value |
| `Proofs.Challenge` | proof.go:25-32 | the challenge lies in [0, m) and is congruent to the big-endian integer of Marshal(V) ‖ Marshal(X) ‖ Marshal(T1) ‖ Marshal(T2); prover and verifier share this one definition |
| `Proofs.VerifyMeaning` | proof.go:22-48 | under a genuine key, `Verify` holds exactly when s ≡ t1 + c·x_pt |
| `Proofs.VerifyIgnoresT3` | proof.go:34-47 | replacing T3 never changes the verdict: "Check 1" is not performed |
| `Proofs.TamperedResponseRejected` | proof.go:39-47 | a verifying proof stops verifying when its response is increased by one |

## Left out

- main.go as a program: printing, panics and wiring. Its checks appear only as the `Scenario` lemmas.
- The tampered-element and wrong-element proof checks (main.go:115-124, 137-146). Their outcome depends on concrete challenge values from real marshalling and hashing, so the abstract model cannot decide them.
- main.go:93-98, the non-membership check after the second Add. It is covered only through the general `Witnesses.NonMembershipVerifyMeaning`, because its outcome depends on the random v.
- The commented-out non-membership proof (witness.go:130-159, proof.go:50-92), which is dead code.
- Cryptographic security claims (soundness, zero knowledge, hardness of α). They are not algebraic identities.
- Curve and field arithmetic, the pairing computation, the byte layout of `Marshal` and the text of `String()`. The exponent model replaces them.
- The numeric value of `bn256.Order`. The order is a parameter, and primality is a hypothesis where it is needed.
- `crypto/rand` entropy. A draw is an input, and its range is a precondition only of `NewSecretKey`.
- The SHA-256 compression function. The hash is a function parameter returning 32 bytes.
- How bn256 treats negative scalars. The model reduces every scalar with Euclidean `%`, like `big.Int.Mod`.
- `big.Int.ModInverse`'s choice of representative. The model returns the canonical residue, which `ScalarMult` makes indistinguishable.
- Pointers and aliasing. Keys, elements, witnesses and proofs are values, and the `Verify` predicates take the accumulator's value rather than the object.
