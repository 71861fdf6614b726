# Coordinator core of Attested Custody: a verified model

The coordinator orchestrates threshold signing between attested enclaves. It holds no key
material; what it must get right is bookkeeping: which signer has proved what, in which session,
with which one-time nonce, under which version of the signer policy. This project models that
core of `reference-impl/` and proves what every run of it keeps.

| files | part |
|---|---|
| `Basics`, `Strings` | bytes, digests, the order behind `sort.Strings` |
| `Merkle`, `Records`, `PolicyState`, `StateManager` | signer lifecycle, state root, signed records |
| `Validator`, `Concurrency`, `Recovery`, `Restarts` | quorum counting, the two-lock commit under interleaving, startup recovery, versions across restarts |
| `Nonces`, `Attestation` | one-time nonces, the verifier's chain of checks |
| `Sessions`, `SessionOps`, `SessionLaws`, `PayloadKeys`, `SessionManager` | session values, table operations, the mutable manager |
| `Coordinator`, `Calls` | runs of manager, nonces, verifier and policy together; sequences of calls on the objects are such runs |
| `Answers` | exactly when each call succeeds, what each refusal means, what a success writes |
| `Safety`, `Reuse`, `Liveness` | what holds in every reachable state, which session a request is answered with, what completes and what cannot |

Each mutable object of the source (`NonceManager`, `StateManager`, `SignerEnrollment`,
`Validator`, `Session`, `Manager`, the store) is a class whose methods keep the source's loops and
branches and are proved equal to functions on values. The theorems are then about those functions,
over every run of calls.

## How things are modelled

- SHA-256, Ed25519 and X.509 path validation are parameters, so every statement holds for every
  hash function and every verification predicate. A binding statement names two concrete strings,
  both of them really hashed in the computations compared, and says that they collide.
- Go strings and byte slices are byte sequences. Times and durations are integers in nanoseconds
  without overflow; each call takes one clock reading as a parameter, where the code may read up
  to three clocks. Theorems about runs assume that readings do not run backwards.
- Random draws are parameters too: a value, or the failure of the random source. Runs assume that
  a session ID or nonce drawn is new.
- The order in which a Go map is ranged over is arbitrary: loops over maps pick any remaining
  key, and a listing of the active signers is any listing.
- Policy versions are 64-bit and wrap; statements that need the absence of a wrap say so.
  Threshold and total are truncated to 32 bits in the configuration leaf, as in the code.

## What the code does where its comments say otherwise

Each of these comes with a witness and with the exact condition under which the announced
property does hold.

- `ValidateTransition` announces that all signatures are valid; the loop ignores invalid ones and
  counts the known guardians with at least one valid signature. Acceptance means that
  all entries of a list of n signatures are valid exactly for n up to the threshold
  (`AcceptanceMeansAllValidIff`); any signature may follow an accepted list
  (`AnySignaturesMayFollow`).
- `ComputeStateRoot` calls its hash a simplification that hashes all leaves together; the loop
  builds a tree, of the shape of section 2.1 of RFC 6962 but without that RFC's 0x00 and 0x01
  prefixes. So a 64-byte leaf input can pass for an inner node, as in the roots of three and of
  four leaves (`ThreeAgainstFour`) or of two and of three enrolled signers
  (`TwoAgainstThreeSigners`, and `TwoStandForThreeIff` for when there is such a pair). That needs
  trees that split alike at the root: where the splits differ a shared root is a collision
  (`DifferentSplitsBind`), where they agree it can be had without one (`SameSplitUnbound`).
- The payload index is said to track in-flight sessions; what decides is the stored status, so
  complete sessions and sessions past their deadline are reused as well (`ReusedIff`,
  `CompleteSessionReused`, `OverdueSessionReused`). Whether the answered session can still be used
  is read from the table before the call (`AnsweredUsableIff`).
- The key of that index runs the signer IDs together: a request can be answered with the session
  of other signers, without any collision (`ReachableClash`). After enrolling any signers, every
  unbound request gets its own session in every run exactly if no two lists of at least Threshold
  of their IDs, with different multisets, run together to the same bytes (`OwnSessionIffSeparable`).
  IDs of which none is empty or a prefix of another pass (`PrefixFreeSeparable`), so IDs of one
  length do (`AnsweredSigners`); "a", "ab", "bcd" and "cd" fail at every threshold
  (`UnseparableExample`).
- `NewValidator` compares the threshold with a list of guardians that may repeat an ID, and
  `CreateSession` compares it with a list of signers that may. Both can succeed and yield
  something that can never reach its threshold (`DuplicateGuardiansLockOut`,
  `RepeatedSignerAccepted`). What counts is the number of distinct IDs (`FullySignedQuorum`,
  `CompletableIff`).
- `RecordShare` asks for an attestation, not for a commitment. The sharers of a session are
  always among its committers exactly if its distinct signers are no more than the threshold
  (`SharersCommitIff`, with `FewSignersOneTeam` for every reachable state and
  `ManySignersNeedNotCommit` for a run that completes otherwise).
- Only active signers are selected, but the policy is not looked at again: a signer suspended or
  revoked while the session is open can still take part (`DemotedSignerShares`). The sharers of a
  complete session are all active exactly if no participant may be suspended or revoked meanwhile
  (`SharersActiveIff`).
- Policy versions are to strictly increase across restarts, so that replays after a reboot fail;
  the validator knows only its InitialVersion. Versions increase, whatever each restart finds in
  the store and is offered, exactly if each InitialVersion is at least the greatest version
  accepted before (`RestartsSafeIff`); below it the old record is accepted again
  (`ReplayAccepted`).

## Model

| member | source | states |
|---|---|---|
| Merkle.HashPairs | reference-impl/internal/policy/state.go:220-231 | the inner loop hashes adjacent nodes and carries an odd last one |
| Merkle.ComputeMerkleRoot | reference-impl/internal/policy/state.go:208-238 | the level-by-level loop ends and yields the root of the recursive tree that splits at the largest power of two below n, for every list of leaves |
| Merkle.SplitPoint | reference-impl/internal/policy/state.go:218-233 | the split is a power of two k with k < n <= 2k |
| Merkle.PairUpKeepsRoot | reference-impl/internal/policy/state.go:218-233 | one level of pairing never changes the recursive tree's root |
| Merkle.DifferentSplitsBind | reference-impl/internal/policy/state.go:208-238 | lists whose trees split differently at the root, and whose first leaf inputs are not 64 bytes, share a root only by a collision of strings hashed for them |
| Merkle.SameSplitUnbound | reference-impl/internal/policy/state.go:208-238 | for any two different lengths that split alike at the root, any first leaf and any hash, there are lists with one root |
| Merkle.ThreeAgainstFour | reference-impl/internal/policy/state.go:208-238 | three leaves share a root with four that begin alike exactly if the third is the inner node of the last two, or a collision is exhibited |
| Merkle.RootBinds | reference-impl/internal/policy/state.go:208-238 | equal roots of different leaf lists exhibit a collision among the strings hashed, or lists of different length with a 64-byte leaf input |
| Records.FillBuffer | reference-impl/pkg/types/policy.go:43-59 | the two byte loops and the copy fill the buffer with the 48-byte encoding |
| Records.Hash | reference-impl/pkg/types/policy.go:43-62 | the record hash is the hash of that encoding |
| Records.LittleEndianByte | reference-impl/pkg/types/policy.go:48-50 | shifting right by 8i and truncating yields byte i of the little-endian form |
| Records.EncodingRoundTrip | reference-impl/pkg/types/policy.go:43-62 | version, state root and signed seconds can be read back from the encoding |
| Records.EncodingInjective | reference-impl/pkg/types/policy.go:41-62 | encodings agree exactly when version, root and seconds do; nothing else is signed |
| Records.EncodingBytes | reference-impl/pkg/types/policy.go:43-59 | byte by byte: version, root, seconds, little-endian |
| Records.RecordHashBinds | reference-impl/pkg/types/policy.go:41-62 | records have one hash exactly when version, root and seconds agree, or their 48-byte encodings collide |
| Records.RecordHashOf | reference-impl/pkg/types/policy.go:43-62 | any 48 bytes that read as the record's fields hash to the record hash |
| PolicyState.VersionCountsSuccesses | reference-impl/internal/policy/state.go:50-131 | over any run in which the version does not wrap it grows by exactly the number of successful operations |
| PolicyState.VersionCountsModulo | reference-impl/internal/policy/state.go:50-131 | over any run whatever the version is the starting one plus the successes, modulo 2^64 |
| PolicyState.EachSignerLivesAlone | reference-impl/internal/policy/state.go:50-131 | in every run the status of a signer is what its life cycle makes of the operations that name it, whatever happens to others |
| PolicyState.SucceedsIffStatusChanges | reference-impl/internal/policy/state.go:50-131 | an operation succeeds, answering with the next version, exactly if it changes the status of the signer it names; when each refusal is given; a refusal changes nothing |
| PolicyState.RevocationIsFinal | reference-impl/internal/policy/state.go:74-91 | after a revocation that succeeds the signer is revoked through any operations |
| PolicyState.EnrollmentKept | reference-impl/internal/policy/state.go:50-131 | ID, key and enrolment time of a signer never change, and it never leaves the policy |
| PolicyState.CreatedRecordNumbered | reference-impl/internal/policy/state.go:242-251 | a record created after any run carries the starting version plus the successes, the root of that state, the time given, and no signatures |
| PolicyState.CreatedRecordsAgree | reference-impl/internal/policy/state.go:242-251 | records created at two moments of one run (without a wrap) have ordered versions, and equal versions carry equal roots |
| PolicyState.ConfigLeafBytes | reference-impl/internal/policy/state.go:188-193 | byte by byte: threshold, then total, truncated to 32 bits, little-endian |
| PolicyState.StatusStrings | reference-impl/pkg/types/policy.go:91-95 | the ASCII bytes of the status strings |
| PolicyState.RevokedForever | reference-impl/internal/policy/state.go:74-131 | a revoked signer stays revoked through any operations |
| PolicyState.SuspendReactivateRestores | reference-impl/internal/policy/state.go:94-131 | suspend then reactivate restores signers and root, two versions later |
| PolicyState.SameVersionSameRoot | reference-impl/internal/policy/state.go:242-251 | records of one run (without a wrap of the version) with one version carry one root |
| PolicyState.StatusStringsSuffixFree | reference-impl/pkg/types/policy.go:91-95 | no status string is the tail of another, so a leaf determines its status |
| PolicyState.StateRootBinds | reference-impl/internal/policy/state.go:157-205 | with equally many signers, roots agree exactly when configuration (mod 2^32) and, position by position, status and ID with key agree, or a collision is exhibited |
| PolicyState.StateRootBindsAcrossSizes | reference-impl/internal/policy/state.go:157-238 | with different numbers of signers a shared root exhibits a collision, unless the two trees split alike at the root and a 64-byte leaf input is shared |
| PolicyState.TwoAgainstThreeSigners | reference-impl/internal/policy/state.go:157-238 | enrolling two signers and enrolling three that begin alike yields one root exactly if the leaf of the second is the inner node of the last two, or a collision is exhibited |
| PolicyState.TwoStandForThreeIff | reference-impl/internal/policy/state.go:157-238 | a second signer that gives three enrolled signers' root exists if the inner node over the last two ends with "active" and the rest of it comes after the first ID; if not, each such signer exhibits a collision |
| PolicyState.TwoStandForThree | reference-impl/internal/policy/state.go:157-238 | in particular with first ID [0] and a last leaf digest that ends with "active" |
| PolicyState.NewcomerWithLeafIff | reference-impl/internal/policy/state.go:196-205 | a signer that can be enrolled after a given one and has a given leaf exists exactly if the leaf ends with "active" and the rest of it comes after that signer's ID |
| PolicyState.SignerLeafForm | reference-impl/internal/policy/state.go:196-205 | the leaf inputs a signer can have are exactly the strings that end with a status string |
| PolicyState.EnrolmentsFile | reference-impl/internal/policy/state.go:50-70 | enrolling new signers one after another succeeds each time and files exactly those |
| PolicyState.StatusChangeChangesRoot | reference-impl/internal/policy/state.go:74-131 | every accepted suspend, reactivate or revoke changes the root or exhibits a collision |
| StateManagers.StateManager.EnrollSigner | reference-impl/internal/policy/state.go:50-70 | refuses an empty or known ID, else files the enrollment as active and advances the version; all else unchanged |
| StateManagers.StateManager.RevokeSigner | reference-impl/internal/policy/state.go:74-91 | revokes a known signer not yet revoked, with the source's refusals |
| StateManagers.StateManager.SuspendSigner | reference-impl/internal/policy/state.go:94-111 | suspends an active signer, with the source's refusals |
| StateManagers.StateManager.ReactivateSigner | reference-impl/internal/policy/state.go:114-131 | reactivates a suspended signer, with the source's refusals |
| StateManagers.StateManager.GetActiveSigners | reference-impl/internal/policy/state.go:134-145 | lists every active signer once, in some order |
| StateManagers.StateManager.SortedSignerIDs | reference-impl/internal/policy/state.go:162-166 | whatever the map order, the sorted IDs are one list |
| StateManagers.StateManager.ComputeStateRoot | reference-impl/internal/policy/state.go:157-185 | computes the state root of the policy value |
| StateManagers.StateManager.CreateStateRecord | reference-impl/internal/policy/state.go:242-251 | a record with the current version and root, unsigned |
| StateManagers.NewStateManager | reference-impl/internal/policy/state.go:35-46 | succeeds exactly for 0 < threshold <= total, with an empty policy at version 0 |
| Validators.Validator.CountValid | reference-impl/internal/policy/validator.go:116-135 | the loop counts exactly the known guardians with some verifying signature, whatever repeats or is unknown |
| Validators.Validator.ValidateTransition | reference-impl/internal/policy/validator.go:97-143 | rollback if not above the last version, else success exactly with a quorum; the length pre-check decides nothing |
| Validators.Validator.CommitVersion | reference-impl/internal/policy/validator.go:155-165 | the re-check under the write lock refuses or sets the version |
| Validators.Validator.AcceptTransition | reference-impl/internal/policy/validator.go:150-166 | without interference, accepts and advances exactly when the transition is valid |
| Validators.NewValidator | reference-impl/internal/policy/validator.go:66-88 | succeeds exactly for 0 < threshold <= list length and 32-byte keys; later guardians replace earlier ones of the same ID |
| Validators.LastGuardianCounts | reference-impl/internal/policy/validator.go:74-80 | of the guardians listed under one ID the last one's key is used |
| Validators.AcceptedIff | reference-impl/internal/policy/validator.go:97-143 | a record is accepted exactly if it is newer and as many different guardians as the threshold have signed the hash of its 48 bytes; an older one is a rollback, whoever signed |
| Validators.QuorumMonotone | reference-impl/internal/policy/validator.go:119-135 | adding signatures anywhere never loses a quorum |
| Validators.VerdictDependsOnSignedFields | reference-impl/internal/policy/validator.go:97-143 | the verdict depends on version, root, seconds and the set of signatures alone |
| Validators.QuorumsIntersect | reference-impl/internal/policy/validator.go:108-142 | two accepted records share at least 2t - n guardians |
| Validators.FullySignedQuorum | reference-impl/internal/policy/validator.go:74-80 | a record signed by all guardians has a quorum exactly when t does not exceed the number of distinct IDs |
| Validators.DuplicateGuardiansLockOut | reference-impl/internal/policy/validator.go:70-80 | two guardians under one ID with threshold 2 meet the constructor's demands, and no record is ever accepted |
| Validators.ShortQuorumAllValid | reference-impl/internal/policy/validator.go:108-142 | an accepted list no longer than the threshold has that length, and all its entries are valid and by different guardians |
| Validators.AnySignaturesMayFollow | reference-impl/internal/policy/validator.go:119-135 | an accepted record stays accepted whatever signatures are appended, and is free of invalid ones exactly if it was and they are |
| Validators.AcceptanceMeansAllValidIff | reference-impl/internal/policy/validator.go:90-142 | all accepted lists of n signatures on a record are free of invalid ones exactly if n does not exceed the threshold |
| Concurrency.AcceptedVersionsIncrease | reference-impl/internal/policy/validator.go:97-166 | under every interleaving of any number of calls accepted versions strictly increase, each accepted by exactly one call, whose record has a quorum |
| Concurrency.QuiescentVersionIsMaximum | reference-impl/internal/policy/validator.go:150-166 | once all calls have returned the version is exactly the maximum of the initial one and the offered ones with a quorum |
| Concurrency.Linearizable | reference-impl/internal/policy/validator.go:97-166 | every schedule has one sequential order of the calls, each returned call in it once, whose replay gives each call its very verdict and ends in the version in force |
| Concurrency.OrderRespectsTime | reference-impl/internal/policy/validator.go:97-166 | in that order a call that returned before another was invoked comes first |
| Concurrency.Section | reference-impl/internal/policy/validator.go:98-165 | reading, checking and committing on the real validator are the three sections of a step |
| Concurrency.Execute | reference-impl/internal/policy/validator.go:97-166 | any schedule of sections of any calls on the real validator ends in the version and the verdicts of the run |
| Concurrency.UninterruptedIsAtomic | reference-impl/internal/policy/validator.go:150-166 | three sections in a row act as one atomic acceptance |
| Recovery.RecoverPolicyState | reference-impl/internal/policy/recovery.go:32-67 | for any store content and save behaviour: answer, version and store after recovery |
| Recovery.RecoverySucceedsIff | reference-impl/internal/policy/recovery.go:40-66 | recovery succeeds exactly with an acceptable stored record, or, with an empty store, a permitted, given, acceptable and saved bootstrap record |
| Recovery.RecoveryRefusals | reference-impl/internal/policy/recovery.go:40-66 | exactly when each refusal of recovery is given |
| Recovery.RecoverySound | reference-impl/internal/policy/recovery.go:40-66 | (corollary of the outcome) success returns a quorum-signed record above the prior version, which is then in force and stored |
| Recovery.AttemptsSafe | reference-impl/internal/policy/recovery.go:32-67 | over any sequence of attempts on one validator the version never goes back, at most one attempt succeeds, a stored record, accepted or not, is never overwritten, and a changed store holds a quorum-signed record of the version in force |
| Recovery.LaterRecoveriesFail | reference-impl/internal/policy/recovery.go:40-46 | after a success every further attempt on the same validator fails as a rollback and changes nothing |
| Recovery.RestartRecoversSameRecord | reference-impl/internal/policy/recovery.go:40-46 | (corollary of the outcome) a fresh validator with the same rules and start recovers the same record |
| Recovery.FailedSaveStrandsBootstrap | reference-impl/internal/policy/recovery.go:59-64 | if saving fails the validator has moved on, and the same bootstrap record is refused as a rollback after any further attempts |
| Recovery.BootstrapAgreesIffSaved | reference-impl/internal/policy/recovery.go:59-66 | (corollary of the outcome) a valid bootstrap always advances the validator, and reaches the store exactly when saving succeeds |
| Recovery.PolicyHistoryAccepted | reference-impl/internal/policy/state.go:240-251 | quorum-signed records of the successive states of any run are accepted in order from version 0, and none is accepted again after a later one |
| Recovery.CreatedHistoryAccepted | reference-impl/internal/policy/state.go:240-251 | the records that CreateStateRecord makes after the successive successes of any run, once signed, are accepted in order from version 0, and none again after a later one |
| Restarts.RestartsSafeIff | reference-impl/internal/policy/validator.go:53-88 | over any sequence of restarts accepted versions strictly increase, for all each restart may find in the store and be offered, exactly if each InitialVersion is at least the greatest version accepted before |
| Restarts.CarriedIncreases | reference-impl/pkg/types/policy.go:10-15 | with InitialVersion carried over, all versions accepted across restarts strictly increase |
| Restarts.ReplayAccepted | reference-impl/internal/policy/recovery.go:40-46 | a validator that begins below an accepted version recovers that record again from the store |
| Restarts.OldRefusedIff | reference-impl/internal/policy/validator.go:103-107 | no process that begins at v, whatever it finds and is offered, accepts again a record accepted before exactly if v is at least the greatest version among those |
| Restarts.LifeGoesOn | reference-impl/internal/policy/recovery.go:40-66 | what a process accepts is what recovery accepts and then what the validator, where recovery left it, accepts |
| Nonces.NonceManager.Issue | reference-impl/internal/attestation/nonce.go:39-56 | files the drawn nonce as unused, now; nothing on failure |
| Nonces.NonceManager.Validate | reference-impl/internal/attestation/nonce.go:60-84 | accepts a known, unused nonce within its age and marks it used, with the source's refusals |
| Nonces.NonceManager.Cleanup | reference-impl/internal/attestation/nonce.go:88-104 | removes exactly the entries older than twice the age and returns their number |
| Nonces.CleanupInvisibleFromStart | reference-impl/internal/attestation/nonce.go:60-104 | with clean-ups anywhere and a clock that does not run backwards, every call on a manager that starts empty is answered as by one that never forgets, for every maximum age, except that "unknown" may stand for "already used" or "expired" |
| Nonces.CleanupInvisible | reference-impl/internal/attestation/nonce.go:60-104 | the same from any store that has forgotten only entries too old to be accepted |
| Nonces.AcceptedAtMostOncePerIssue | reference-impl/internal/attestation/nonce.go:39-84 | no nonce is accepted more often than it was issued |
| Nonces.NonceVerdictIs | reference-impl/internal/attestation/nonce.go:39-104 | what an issued nonce is told at any later call: unknown exactly after a clean-up more than twice the maximum age later, else already used if presented in time before (however old), else expired past the maximum age, else accepted |
| Nonces.UnissuedUnknown | reference-impl/internal/attestation/nonce.go:60-70 | a nonce never issued is unknown after any calls |
| Attestation.FirstFailure | reference-impl/internal/attestation/verifier.go:69-117 | the verdict is positive exactly when the document exists and passes all four checks |
| Attestation.VerdictMeans | reference-impl/internal/attestation/verifier.go:69-197 | the rejection is decided by the first of: nonce of the right length and repeated, age from minus 60 seconds to the maximum, path from the first certificate, every expected register equal |
| Attestation.TamperedRegisterRejected | reference-impl/internal/attestation/verifier.go:182-197 | changing or removing any one expected register of an accepted document has it rejected for a register mismatch |
| Attestation.TamperedRestRejected | reference-impl/internal/attestation/verifier.go:120-179 | so does another nonce, an instant outside the window, or an empty chain, each with its own code |
| Attestation.Verifier.VerifyTimestamp | reference-impl/internal/attestation/verifier.go:135-149 | accepts ages from one minute in the future to the maximum |
| Attestation.Verifier.VerifyCertChain | reference-impl/internal/attestation/verifier.go:152-179 | validates the first certificate against the pool of the others |
| Attestation.Verifier.VerifyPCRs | reference-impl/internal/attestation/verifier.go:182-197 | in any map order, accepts exactly if every expected register is present and equal |
| Attestation.Verifier.Verify | reference-impl/internal/attestation/verifier.go:69-117 | the code of the first check that fails, or none |
| Attestation.NewVerifier | reference-impl/internal/attestation/verifier.go:46-65 | succeeds exactly with expected registers and roots; without a nonce specification it checks for 32 bytes and five minutes |
| Attestation.VerdictIgnoresExtras | reference-impl/internal/attestation/verifier.go:160-196 | order and repetition of intermediates, and extra registers, do not matter |
| Sessions.RaiseFirstEffect | reference-impl/internal/session/manager.go:278-285 | setting a flag through the find-first loop flags that signer and no other, on the ID's first position |
| Sessions.CountIsDistinct | reference-impl/internal/session/manager.go:318-323 | the counting loops count distinct signers even when IDs repeat |
| PayloadKeys.ComputePayloadKey | reference-impl/internal/session/manager.go:201-216 | the loops compute the hex form of the hash of payload hash and sorted IDs |
| PayloadKeys.KeyReadsAsHash | reference-impl/internal/session/manager.go:210-215 | the key is 64 lower-case hexadecimal digits that decode to the hash |
| PayloadKeys.KeyIgnoresOrder | reference-impl/internal/session/manager.go:201-216 | the key is one for every arrangement of the participants |
| PayloadKeys.KeyIdentifies | reference-impl/internal/session/manager.go:201-216 | keys agree exactly when payload hashes and run-together sorted IDs do, or the two inputs collide |
| PayloadKeys.FixedWidthKeyIdentifies | reference-impl/internal/session/manager.go:201-216 | for IDs of one non-zero length equal keys mean equal payload and signers with multiplicity, or a collision |
| PayloadKeys.SeparatorlessKeysClash | reference-impl/internal/session/manager.go:212-214 | pairs of IDs that run together to the same bytes share a key under every hash |
| PayloadKeys.PrefixFreeSeparable | reference-impl/internal/session/manager.go:212-214 | IDs of which none is empty or a proper prefix of another can be told apart in any lists |
| PayloadKeys.PairsClash | reference-impl/internal/session/manager.go:212-214 | two ordered pairs of IDs that run together to the same bytes clash at every threshold |
| PayloadKeys.UnseparableExample | reference-impl/internal/session/manager.go:212-214 | "a", "ab", "bcd" and "cd" clash at every threshold |
| SessionOps.IndexInjective | reference-impl/internal/session/manager.go:423-429 | at most one key names a session, so stopping at the first is enough |
| SessionOps.CreateKeepsIndex | reference-impl/internal/session/manager.go:102-158 | creating or reusing a session keeps the indexes in agreement |
| SessionOps.CleanKeepsIndex | reference-impl/internal/session/manager.go:410-438 | clean-up keeps the indexes in agreement |
| SessionManagers.Session.FindParticipant | reference-impl/internal/session/manager.go:278-285 | the first position of the signer, or the length |
| SessionManagers.Session.CountFlag | reference-impl/internal/session/manager.go:318-323 | the number of flagged positions |
| SessionManagers.Session.MaybeAdvance | reference-impl/internal/session/manager.go:313-329 | an attesting session with enough attestations moves to commit, and nothing else changes |
| SessionManagers.Manager.SelectParticipants | reference-impl/internal/session/manager.go:161-189 | the required signers in order, or all active ones in some order, with the first refusal |
| SessionManagers.Manager.CreateSession | reference-impl/internal/session/manager.go:102-158 | answer and new tables for any request and any draw: bound, refused, reused or opened; keeps the indexes in agreement unless the drawn ID is in the table already |
| SessionManagers.Manager.GetSession | reference-impl/internal/session/manager.go:219-234 | the session unless unknown or past its deadline |
| SessionManagers.Manager.IssueChallenge | reference-impl/internal/session/manager.go:237-256 | issues a nonce to a participant of a session in time, else refuses and changes nothing |
| SessionManagers.Manager.SubmitAttestation | reference-impl/internal/session/manager.go:259-310 | answer, session and nonce store after a submission; no other session changes |
| SessionManagers.Manager.RecordCommitment | reference-impl/internal/session/manager.go:332-368 | answer and session after a commitment; no other session changes |
| SessionManagers.Manager.RecordShare | reference-impl/internal/session/manager.go:371-407 | answer and session after a share; no other session changes |
| SessionManagers.Manager.CleanupExpired | reference-impl/internal/session/manager.go:410-438 | in any map order, removes exactly the overdue sessions and their index entries and returns their number |
| SessionLaws.StatusMeaning | reference-impl/internal/session/manager.go:313-407 | the status of a sound session spelt out in numbers of distinct signers |
| SessionLaws.AttestKeepsSound | reference-impl/internal/session/manager.go:301-307 | an accepted attestation keeps status, counts, first positions and stored documents in agreement |
| SessionLaws.RecordKeepsSound | reference-impl/internal/session/manager.go:345-367 | a recorded commitment or share keeps them in agreement |
| SessionLaws.FewSignersShareCommitted | reference-impl/internal/session/manager.go:345-393 | in a sound session with no more distinct signers than the threshold every sharer has committed |
| SessionLaws.ShareKeepsCommittedIff | reference-impl/internal/session/manager.go:384-393 | in one step, a recorded share keeps "every sharer has committed" exactly if the signer is no participant or has committed |
| Coordinator.StepKeepsInv | reference-impl/internal/session/manager.go:102-438 | every legal call keeps tables, nonce store, stored documents and history in agreement |
| Coordinator.StepEvolves | reference-impl/internal/session/manager.go:259-407 | any call leaves a session as it was or moves it forward, and sound |
| Calls.Perform | reference-impl/internal/session/manager.go:102-438 | any call on the real objects answers (versions of policy operations and clean-up counts included) and changes manager, nonce store and policy together exactly as a step of a run does, and keeps the manager valid |
| Calls.PerformAll | reference-impl/internal/session/manager.go:102-438 | any sequence of calls with new draws and a clock that does not run backwards is a legal run: same calls, same answers, and the objects end in its state |
| Calls.Serve | reference-impl/internal/session/manager.go:72-100 | from new objects, the states reached by calls are reachable states of the model |
| Answers.GetSucceedsIff | reference-impl/internal/session/manager.go:219-234 | a session is fetched exactly if it is in the table and its deadline has not passed |
| Answers.ChallengeSucceedsIff | reference-impl/internal/session/manager.go:237-256 | a challenge is issued exactly to a participant of a session in time if a nonce can be drawn; when each refusal is given; only the nonce is written |
| Answers.SubmitSucceedsIff | reference-impl/internal/session/manager.go:259-299 | a submission is accepted exactly from a participant of a session in time with a good nonce and a good document; when each refusal is given; the nonce is spent whatever the document |
| Answers.SubmissionWrites | reference-impl/internal/session/manager.go:301-304 | an accepted submission writes document, flag and time for its signer and nothing else of any participant or session |
| Answers.SubmissionExpiresIff | reference-impl/internal/session/manager.go:273-276 | a submission marks a session expired exactly if it comes past the deadline, whatever the status |
| Answers.RecordSucceedsIff | reference-impl/internal/session/manager.go:332-393 | when a commitment or share is taken and when each refusal is given |
| Answers.RecordingWrites | reference-impl/internal/session/manager.go:345-393 | a commitment or share sets its own flag of the first participant of that ID and no other |
| Answers.CreateRefusals | reference-impl/internal/session/manager.go:113-139 | the first unfit signer decides whether the refusal is "not enrolled" or "not active"; when signers are too few or no ID can be drawn |
| Answers.CleanupExact | reference-impl/internal/session/manager.go:410-438 | a clean-up removes the sessions past their deadline and their payload keys and nothing else, and counts them |
| Answers.NonceCleanupExact | reference-impl/internal/attestation/nonce.go:88-104 | a clean-up of nonces keeps those up to twice the maximum age old, unchanged, and counts the others |
| Safety.CompleteMeansAttested | reference-impl/internal/session/manager.go:102-407 | in every reachable state a complete session has Threshold distinct sharers, active at creation, each with a stored document whose nonce had the right length, was issued here and consumed in time, and which at that moment was in its time window, had a validated chain and every expected register equal; the nonces are pairwise distinct |
| Safety.StatusFollowsFlags | reference-impl/internal/session/manager.go:273-407 | in every reachable state the status of a session that has not expired is the one its distinct flagged signers determine, and stored documents are those of the attested signers |
| Safety.FewSignersOneTeam | reference-impl/internal/session/manager.go:332-407 | in every reachable state the sharers of a session with no more distinct signers than the threshold are among its committers |
| Safety.OneLiveSessionPerKey | reference-impl/internal/session/manager.go:125-155 | in every reachable state at most one session per payload key is neither expired nor failed, the one the index names; the index is injective and never dangles |
| Safety.StoredNoncesInjective | reference-impl/internal/session/manager.go:290-304 | across all sessions no two stored documents share a nonce |
| Safety.NoncesConserved | reference-impl/internal/session/manager.go:290-304 | in every run successful submissions <= nonces consumed <= nonces issued |
| Safety.ReplayRefused | reference-impl/internal/session/manager.go:290-299 | a consumed nonce, even one whose document was rejected, is refused ever after for every session and signer |
| Safety.CreateSucceedsIff | reference-impl/internal/session/manager.go:102-139 | exactly when CreateSession succeeds; a refusal changes nothing |
| Safety.OpenedSessionMeans | reference-impl/internal/session/manager.go:141-157 | what an opened session holds: payload, signers, threshold, deadline, no flags, its request ID bound |
| Safety.SessionsEvolve | reference-impl/internal/session/manager.go:259-407 | between any two moments of a run a session's status has not gone back, no flag is lost, and an expired session is frozen |
| Safety.OnlyCleanupRemoves | reference-impl/internal/session/manager.go:418-421 | a session leaves the table exactly by clean-up past its deadline |
| Safety.BindingLasts | reference-impl/internal/session/manager.go:106-111 | a bound request ID is answered with its session through any calls until that session is removed |
| Safety.SuccessBinds | reference-impl/internal/session/manager.go:106-155 | whenever CreateSession succeeds (bound, reused or opened) the request ID is bound to the session answered |
| Safety.AnswerRepeats | reference-impl/internal/session/manager.go:106-155 | a CreateSession that succeeded is repeated by every later one with that request ID, whatever happens to the signers, while the session is in the table |
| Safety.StaleBindingUnresolved | reference-impl/internal/session/manager.go:106-111 | a binding to a removed session resolves to nothing until that request ID is created again |
| Safety.AnsweredPayload | reference-impl/internal/session/manager.go:106-132 | the answered session is for the requested payload exactly if the request ID is not bound to one for another, or the key inputs collide |
| Reuse.ReusedIff | reference-impl/internal/session/manager.go:125-132 | an admitted request, not bound, is answered with an existing session under its key exactly if that session is in flight |
| Reuse.CompleteSessionReused | reference-impl/internal/session/manager.go:125-132 | a request for the payload and signers of a complete session is answered with it, and commitments and shares are then refused |
| Reuse.AnsweredUsableIff | reference-impl/internal/session/manager.go:102-157 | in every reachable state, the session answered can be fetched and takes a participant's submission at that instant exactly if the deadline read from the table before the call (of the bound, reused or new session) has not passed, and it is then neither expired nor failed |
| Reuse.OverdueSessionReused | reference-impl/internal/session/manager.go:125-132 | a session opened and asked for again past its deadline is answered and cannot be fetched |
| Reuse.OwnSessionIffSeparable | reference-impl/internal/session/manager.go:102-216 | after enrolling any signers, in every later state without new enrolments every unbound request is answered with a session for its payload and its very signers (or key inputs collide) exactly if the enrolled IDs are separable at the threshold |
| Reuse.SeparableMeansOwnSession | reference-impl/internal/session/manager.go:102-157 | in every reachable state with separable enrolled IDs, an unbound request is answered with a session for its payload and its very signers, or the key inputs collide |
| Reuse.AnsweredSigners | reference-impl/internal/session/manager.go:102-157 | in particular with enrolled IDs of one non-zero length |
| Reuse.ReachableClash | reference-impl/internal/session/manager.go:201-216 | from an empty coordinator, for any threshold and any clashing lists of enrolled IDs, a request for the ones is answered with the session of the others, under every hash and without a collision |
| Reuse.PairsNotOwn | reference-impl/internal/session/manager.go:201-216 | four enrolled IDs that run together in pairs are enough for that, at every threshold |
| Liveness.ThresholdSignersComplete | reference-impl/internal/session/manager.go:259-407 | from an untouched session, any submissions in time with passing documents and acceptable nonces, then commitments by any Threshold of those signers, then shares by any Threshold of them, each in any order, complete it, none refused |
| Liveness.OpenedSessionCompletes | reference-impl/internal/session/manager.go:102-407 | from any state in which CreateSession opens a session, the challenges and the ceremony that follow complete it, none refused |
| Liveness.SharersCommitIff | reference-impl/internal/session/manager.go:332-407 | for an untouched session all of whose signers can attest, over all legal runs every sharer has committed exactly if the distinct signers are no more than the threshold |
| Liveness.FewSignersAlwaysCommit | reference-impl/internal/session/manager.go:332-407 | with no more distinct signers than the threshold, every sharer has committed at the end of every legal run |
| Liveness.ManySignersNeedNotCommit | reference-impl/internal/session/manager.go:371-407 | with more signers able to attest than the threshold, a run without refusals completes the session with a sharer who never committed |
| Liveness.CompletableIff | reference-impl/internal/session/manager.go:119-123 | an untouched session all of whose signers can attest can be completed exactly if its distinct signers are at least the threshold |
| Liveness.SharersActiveIff | reference-impl/internal/session/manager.go:161-189 | for an untouched session of active signers able to attest, the sharers of the complete session are active at the end of every legal run exactly if the policy operations that may occur suspend and revoke no participant |
| Liveness.UndemotedSharersActive | reference-impl/internal/session/manager.go:371-407 | over every legal run that suspends and revokes no participant every sharer is still active |
| Liveness.DemotedSignerShares | reference-impl/internal/session/manager.go:371-407 | after a participant is suspended or revoked, a run without refusals completes the session with that participant among the sharers, inactive |
| Liveness.CompletesUnderAnyPolicy | reference-impl/internal/session/manager.go:259-407 | after any policy operations the ceremony of an open session is refused nowhere and completes it |
| Liveness.CompletionCost | reference-impl/internal/session/manager.go:259-407 | no run completes a session with fewer than 3*Threshold flag-setting calls |
| Liveness.StepSetsOneFlag | reference-impl/internal/session/manager.go:301-403 | no call sets more than one flag, and only accepted submissions, commitments and shares for the session set any |
| Liveness.RepeatedSignersNeverComplete | reference-impl/internal/session/manager.go:119-123 | a session with fewer distinct signers than Threshold never gets past attesting, in any run |
| Liveness.RepeatedSignerAccepted | reference-impl/internal/session/manager.go:119-123 | with threshold 2 and one active signer named twice, CreateSession opens such a session |
| Liveness.CompleteUntilLateSubmission | reference-impl/internal/session/manager.go:273-276 | a complete session changes status exactly by a submission past its deadline |

## Left out

- The gRPC surface, protobuf code and audit events: plumbing around the calls modelled here.
- The JSON file store and the SQLite store: one cell that may hold any record, nothing, or be
  unreadable, and whose save may fail without effect.
- Raw attestation parsing (`VerifyRaw`, `Parser`) and the document's raw bytes, module ID and user
  data, which the verifier does not read; the concrete parsers are not part of this model.
- The enclave identity of an enrollment, which neither leaves nor sessions use.
- Error text, `Details` strings and the list of registers checked; errors are enumerations.
- Locks of `Manager`, `NonceManager` and `StateManager`: their calls are atomic. Interleaving is
  modelled for the validator only.
- `RequireAllAttestation`, `StrictNonceLifetime`, `Urgency` and FROST itself, which the code does
  not use or implement; `SessionPending` and `SessionFailed`, which no code sets, are declared only.
- Nil dependencies of `NewManager`; the model's manager has its dependencies by type.
- Callers that mutate a returned session or an enrolled signer through its pointer.
- Runs in which a drawn session ID or nonce repeats, which 16 or more random bytes make all but
  impossible. `CreateSession` itself is specified for a repeated ID too: it replaces the session.
