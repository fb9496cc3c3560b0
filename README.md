# Light-client signature-threshold circuit, modelled in Dafny

The XRPL zk-bridge light client proves in zero knowledge that at least 80% of a
90-member committee signed one message. `lightClientVerificationCircuit.Define`
builds that circuit. It constructs a twisted Edwards curve gadget and a MiMC hash
gadget, returning their errors if either fails. It then runs the EdDSA
verification gadget once per committee slot and fills a 91-slot running count
`validSignatures`. Each slot adds `One` when verification returned no error and
keeps the previous count otherwise. Finally it asserts
`One * (90*8/10) <= validSignatures[90]`.

`signature_validity.dfy` (module `SignatureValidity`) models this as follows:

- `Define` is an imperative method. It fills a fresh 91-slot array in a `for`
  loop that reproduces the Go branch.
- The curve and hash constructor failures are inputs (`curveErr`, `hashErr`).
- The verification gadget is an abstract oracle `verify(signature, message,
  publicKey) -> bool`, where `true` means it returned `nil`.
- The `AssertIsLessOrEqual` that `Define` itself emits is recorded as a
  `LessOrEqual` constraint in the outcome. `Satisfied` says that this one
  assertion holds.
- `IsRunningCount` is the step relation of the count. `CountValid` counts the
  successful slots. `Threshold(n)` is `n*8/10` with integer floor division.
  `Accepts` is the acceptance criterion stated on the verdicts.

Three features of the code shape what the model states:

- Each slot is decided by a Go `if isValid == nil` while the circuit is being
  defined (light_client_verification/signature_validity.go:46-51). It is not a
  field indicator constrained to {0, 1}. `Define` models that branch as written,
  and `Verdicts` gives the outcome of the per-slot call at line 46 for every slot.
- The threshold is multiplied by the public input `One` (line 55).
- The count starts at the public input `Zero` (line 43).

So the main properties are stated for `Zero = 0, One = 1`. With `Zero = One = 0`
every witness passes the threshold assertion (`UnitZeroAcceptsAll`).

## Model

| member | source | states |
|---|---|---|
| `SignatureValidity.Define` | light_client_verification/signature_validity.go:31-57 | A curve-constructor error is returned first, then a MiMC-constructor error, with nothing counted. Otherwise the 91-slot array starts at Zero and each slot adds One exactly when that slot's verification succeeded, else stays unchanged. Slot 90 equals Zero + One × (number of successful slots). The asserted constraint is One × Threshold(90) ≤ slot 90, and it holds iff `Accepts` holds. |
| `SignatureValidity.CountValid` | light_client_verification/signature_validity.go:45-52 | The number of successful slots lies between 0 and the number of slots. It equals the number of slots iff every slot succeeded, and is 0 iff none did. |
| `SignatureValidity.Threshold` | light_client_verification/signature_validity.go:55 | The threshold is the floor of 8n/10: 10t ≤ 8n < 10t + 10. |
| `SignatureValidity.RunningCountClosedForm` | light_client_verification/signature_validity.go:42-52 | Every slot i of a running count equals Zero + One × (number of successes among the first i slots). |
| `SignatureValidity.RunningCountMonotone` | light_client_verification/signature_validity.go:45-51 | In the integer model, with One ≥ 0, the running count never decreases from slot i to slot j ≥ i. |
| `SignatureValidity.UnitRunningCountBounds` | light_client_verification/signature_validity.go:42-52 | With Zero = 0 and One = 1, every slot i holds a value in [0, i], and the sequence is non-decreasing. |
| `SignatureValidity.CountValidIsMultiplicity` | light_client_verification/signature_validity.go:45-52 | The success count equals the number of `true` verdicts (their multiplicity in the multiset of verdicts). |
| `SignatureValidity.CountValidPointwise` | light_client_verification/signature_validity.go:45-51 | If every slot that succeeds in v also succeeds in w, then v has no more successes than w. |
| `SignatureValidity.AcceptanceIgnoresSlotOrder` | light_client_verification/signature_validity.go:55-57 | Two verdict sequences that are permutations of each other are both accepted or both rejected: only how many signatures verified matters, not which. |
| `SignatureValidity.AcceptsMonotone` | light_client_verification/signature_validity.go:55-57 | In the integer model, with One ≥ 0, turning failed verifications into successes never turns acceptance into rejection. |
| `SignatureValidity.UnitAcceptance` | light_client_verification/signature_validity.go:55-57 | With Zero = 0 and One = 1, a 90-slot committee is accepted iff at least 72 verdicts are `true`. |
| `SignatureValidity.ThresholdBoundary` | light_client_verification/signature_validity.go:55 | floor(8n/10) ≤ k iff 8n < 10(k+1). When n is a multiple of 5 this is k ≥ 80% of n, with the bound inclusive. |
| `SignatureValidity.ThresholdExamples` | light_client_verification/signature_validity.go:55 | Threshold(90) = 72 and Threshold(91) = 72 (72/91 is below 80%). Threshold(10) = 8, Threshold(9) = 7 and Threshold(1) = 0. |
| `SignatureValidity.UnitZeroAcceptsAll` | light_client_verification/signature_validity.go:55-57 | With the public inputs One = 0 and Zero = 0 the assertion holds for every set of verdicts. |
| `SignatureValidity.ReferenceScenarios` | light_client_verification/signature_validity.go:55-57 | With Zero = 0 and One = 1 on 90 slots: 90 and 72 successes are accepted; 71, 63 and 0 successes are rejected. |

## Left out

- `twistededwards.NewEdCurve` and `mimc.NewMiMC` are foreign gadgets. Only their error results are modelled, as inputs. Which curve identifiers make curve construction fail is not modelled.
- `eddsa.Verify` is a foreign gadget (curve arithmetic, hashing, the signature equation). It is modelled as a pure oracle of (signature, message, public key). The model does not capture any dependence of one slot's result on the MiMC hasher state left by earlier slots.
- Field arithmetic is modelled with unbounded integers, with no modular reduction. This is exact for Zero = 0 and One = 1, where every value is at most 90. For other field values of Zero and One, wrap-around is not modelled.
- The internals of `api.Add`, `api.Mul` and `api.AssertIsLessOrEqual` (constraint emission, bit decomposition) are not modelled. The assertion is recorded as a value, and acceptance is integer comparison.
- `fmt.Println("Passed test!")` is console output only.
- light_client_verification/signature_validity_test.go is a test harness that uses key generation, signing and the external prover. It is not part of this model.
- Compiling, setting up, proving and verifying the circuit, and the struct tags that mark inputs public, belong to the proof-system backend. They are not part of this model.
- Determinism of `Define` is not stated as a lemma. Its `ensures` pin the result uniquely: the two error cases fix `r`, and otherwise `IsRunningCount` fixes all 91 slots and the constraint is fixed as well.
- Constraints emitted inside `eddsa.Verify`, `twistededwards.NewEdCurve` and `mimc.NewMiMC` are not part of `Satisfied`. All three are built on the same `api`. The per-slot verdict is the Go return value of `eddsa.Verify` while the circuit is being defined, not whether the witness's signature is valid. So `UnitAcceptance` and `ReferenceScenarios` are statements about the threshold assertion only.
