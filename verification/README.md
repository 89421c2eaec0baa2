# MaintChain: a verified model of its compliance workflow

MaintChain certifies equipment maintenance. A technician, a supervisor and, when
required, an auditor approve a record on a Soroban ledger; an attestation contract then
issues a certificate and moves the record to Compliant. A browser page drives the
contracts through Freighter and mirrors each decision into a Postgres backend.

This project models that workflow in Dafny 4.11 and proves what it keeps. Run
`dafny verify dfyconfig.toml` to check everything.

| file | what it models |
|---|---|
| `Basics.dfy` | bytes, machine integers, addresses, the host environment and traps |
| `Contracts.dfy` | the three compliance contracts as classes, each method against a specification function |
| `Ledger.dfy` | one deployment and the host: nested calls, traps, rollback, runs of transactions |
| `History.dfy` | every stored field and every commit decision, read off the run's history |
| `Roles.dfy` | the approval state as a product of three independent role machines |
| `Certification.dfy` | non-interference between records, the counting bound, the completer lock |
| `PageDecision.dfy` | what the page's decision word does on the ledger |
| `Registry.dfy` | the equipment registry, its hash preimage, and its refinement of an owner log |
| `Pipeline.dfy` | `invokeContract` against arbitrary RPC and wallet replies |
| `ApprovePage.dfy` | the transaction state machine, the page handlers run serially, and the same handlers interleaved at every `await` |
| `Backend.dfy` | the SQL statements, the handlers as interleaved statement programs with aborts, each handler alone, and the latest supervisor decision |
| `Auth.dfy` | challenge nonces, uninterrupted and interleaved |
| `Text.dfy`, `IdCodec.dfy` | UTF-8, hex, and the 32-byte identifier encodings of browser and backend |
| `Cookie.dfy` | base64url (section 5 of RFC 4648) and the signed session cookie |

## Conventions

* A panic is a `Panic` result. Contract methods write storage in the order the source
  does, so `issue_certificate` leaves its attestation behind when the nested `complete`
  traps; `LedgerHost.Invoke` plays the host and undoes it.
* A run is a sequence of top-level invocations, each with its own signers and ledger time.
  `issue_certificate` always names the deployed approval and record contracts. Lemmas
  that need it assume, by name (`SelfNeverSigns`), that the attestation contract's address
  authorizes only calls that contract makes itself.
* The contract workspace sets no overflow checks for release builds, so the registry's
  `u32` version counter wraps. `RegistryHoldsLog` says what the store holds in every run,
  wrapped or not, and `RegistryRefinesLog` exactly when that is the plain owner log.
* RPC, wallet, mirror and database failures are parameters (oracles, accept flags, the
  number of the statement that fails), and every theorem holds for all of them.
* SHA-256, the cookie MAC and the ISO date printer and parser are function parameters;
  a lemma that needs something of them says so in a `requires`.

## Where the code and its promise differ

* The approve page sends a decision word whose last byte is one, and the contract reads
  the first byte. On every state the page's approval therefore does exactly what a
  rejection does (`PageApprovalIsRejection`), and a run whose supervisor approvals all
  come from the page certifies nothing (`PageNeverCertifies`). `ApprovalByFirstByte` gives
  the exact condition for an approval to differ from a rejection.
* The comment on `toBytesN32` says the UTF-8 text is padded to 32 bytes, but the string
  is padded first. The result is 32 bytes exactly for ASCII text of at most 32 characters
  (`CodecAgreement`). The 36-character text of a UUID is not, so it is sent as a string
  and never as the bytes the backend verifies (`UuidIsSentAsText`).
* `ContractCallResult` is documented as always SUCCESS. A status other than PENDING or
  FAILED is treated as success as well (`NeverFoundReturns`). `ReturnWithoutSuccess` gives
  the exact condition on the raw replies.
* A "Check again" answered after another operation has timed out mirrors that other
  operation (`OverlapMirrorsAnother`). It mirrors the operation asked about exactly when
  that one is remembered at the press and nobody clicks, times out or confirms a check
  before the answer (`PressedCheckIsRightWhen`); serial use is always right
  (`SerialRunsMirrorTheRightOperation`).
* A record can be PENDING_APPROVAL without any approval row (`PendingWithoutRow`), because
  the status is written first. That is so exactly when every supervisor approval of it is
  between its update and its insert (`PendingLacksRowExactlyWhen`).
* The backend counts any approved supervisor row, while the contract goes by the latest
  decision. A record approved, then rejected, then approved by the auditor is COMPLIANT with
  the rejection as its latest decision (`RejectedThenCompliant`). The latest decision on a
  COMPLIANT record is an approval exactly when every recorded rejection was followed by a
  recorded approval (`LatestApprovedExactlyWhen`).
* A record can be Compliant on the ledger without an attestation (`HandWrittenCompliance`);
  `UnattestedExactlyWhen` gives the exact condition.
* Marking a nonce as used is meant to make it single-use, but the update does not test what
  it overwrites. A verification spends a nonce spent before exactly when all its rows are
  already used at the update (`SpentBeforeExactlyWhen`), and a nonce just marked can be
  accepted again exactly when another verification of it has passed by then
  (`AcceptableAgainExactlyWhen`, with the run `NonceAcceptedTwice`).
* A word with an upper-case `0X` passes the browser's 64-digit test but decodes to no
  bytes (`DecodersAgree`).

## Model

| member | source | states |
|---|---|---|
| ApprovalContract.MultiPartyApproval.SetAuditorRequired | contracts/multi-party-approval/src/lib.rs:48-71 | a signed call by the bound technician (or the first one) sets the requirement; otherwise it traps and storage is unchanged |
| ApprovalContract.MultiPartyApproval.ApproveByTechnician | contracts/multi-party-approval/src/lib.rs:73-96 | a signed call by the bound technician (or the first one) records the approval; otherwise it traps and storage is unchanged |
| ApprovalContract.MultiPartyApproval.ApproveBySupervisor | contracts/multi-party-approval/src/lib.rs:98-133 | the supervisor's decision is an approval when its first byte is 1, and overwrites the previous one |
| ApprovalContract.MultiPartyApproval.RejectBySupervisor | contracts/multi-party-approval/src/lib.rs:135-162 | a rejection withdraws the supervisor's approval |
| ApprovalContract.MultiPartyApproval.ApproveByAuditor | contracts/multi-party-approval/src/lib.rs:164-192 | the auditor's approval, with its own role binding |
| ApprovalContract.MultiPartyApproval.VerifyApproval | contracts/multi-party-approval/src/lib.rs:194-206 | reads `Verify`, whose answer over every run is `VerifyFromHistory` |
| RecordsContract.MaintenanceRecords.CreateRecord | contracts/maintenance-records/src/lib.rs:66-87 | new orders are Open, without evidence, stamped with the ledger time; duplicates trap |
| RecordsContract.MaintenanceRecords.SubmitEvidence | contracts/maintenance-records/src/lib.rs:91-110 | only the order's technician submits; the status goes to Submitted |
| RecordsContract.MaintenanceRecords.UpdateStatus | contracts/maintenance-records/src/lib.rs:114-125 | any existing order takes any status |
| RecordsContract.MaintenanceRecords.SetAuthorizedCompleter | contracts/maintenance-records/src/lib.rs:128-138 | the first signer, then only the current completer, sets the completer |
| RecordsContract.MaintenanceRecords.Complete | contracts/maintenance-records/src/lib.rs:142-167 | only the authorized completer moves PendingApproval to Compliant |
| AttestationContract.ComplianceAttestation.IssueCertificate | contracts/compliance-attestation/src/lib.rs:30-78 | what is on storage when the code ends, including the attestation left behind when the nested call traps |
| AttestationContract.ComplianceAttestation.GetAttestation | contracts/compliance-attestation/src/lib.rs:80-83 | returns exactly what is stored, or traps |
| Ledger.LedgerHost.Invoke | contracts/compliance-attestation/src/lib.rs:45-75 | a transaction commits its whole effect or leaves all three contracts unchanged, wherever it traps |
| Ledger.LedgerHost.Run | contracts/compliance-attestation/src/lib.rs:30-78 | a run on live storage ends in the state the run theorems speak about |
| Ledger.IssueAllOrNothing | contracts/compliance-attestation/src/lib.rs:45-75 | a certificate stores the attestation and moves PendingApproval to Compliant together, or nothing changes; with the exact condition |
| History.TechnicianFromHistory | contracts/multi-party-approval/src/lib.rs:73-96 | the technician flag is set exactly when some technician approval committed |
| History.SupervisorFromHistory | contracts/multi-party-approval/src/lib.rs:98-162 | the supervisor flag is set exactly when the latest committed decision was an approval |
| History.SettingFromHistory | contracts/multi-party-approval/src/lib.rs:48-71 | the auditor requirement is as last set |
| History.AuditorFromHistory | contracts/multi-party-approval/src/lib.rs:164-192 | the auditor flag is set exactly when some auditor approval committed |
| History.VerifyFromHistory | contracts/multi-party-approval/src/lib.rs:194-206 | `verify` traps exactly on records no approval call was committed for; on others it says whether a technician approved, the latest supervisor decision was an approval, and an auditor approved if the latest setting requires one |
| History.StatusFromHistory | contracts/maintenance-records/src/lib.rs:66-167 | a record exists once created and its status is the last one written |
| History.OrderFromHistory | contracts/maintenance-records/src/lib.rs:66-110 | equipment, technician and time are those of the one creation; evidence is the last submitted |
| History.CompleterFromHistory | contracts/maintenance-records/src/lib.rs:128-138 | the completer is the one last set |
| History.RecordCallExactlyWhen | contracts/maintenance-records/src/lib.rs:66-167 | every record call commits exactly when the history before it allows it |
| History.RecordTrapFromHistory | contracts/maintenance-records/src/lib.rs:66-167 | and traps for the stated reason exactly when the history gives that reason, in the order of the checks |
| History.CertificateExactlyWhen | contracts/compliance-attestation/src/lib.rs:30-78 | a certificate commits exactly when technician, latest supervisor decision, auditor if required, pending status and completer are all in place in the history |
| History.CertificateTrapFromHistory | contracts/compliance-attestation/src/lib.rs:30-78 | a refused certificate traps because the record is unknown, because approvals are missing, or for the reason its completion does |
| History.AttestationFromHistory | contracts/compliance-attestation/src/lib.rs:50-55 | the stored attestation is that of the latest committed certificate |
| History.AttestationProvenance | contracts/compliance-attestation/src/lib.rs:30-78 | an attestation exists exactly when some step issued it on a certifiable history |
| History.AttestationIsLast | contracts/compliance-attestation/src/lib.rs:50-55 | and carries that last step's time, issuer and hash |
| Roles.ProductDecomposition | contracts/multi-party-approval/src/lib.rs:48-192 | the approval state of a record is three folds, each over one role's operations only |
| Roles.OutcomeByOwnRole | contracts/multi-party-approval/src/lib.rs:48-192 | whether an operation commits, and how it traps, depends on its own role's operations only |
| Roles.OutcomesFromProjection | contracts/multi-party-approval/src/lib.rs:48-192 | all outcomes of a role are those its own machine decides |
| Roles.ReorderInvariance | contracts/multi-party-approval/src/lib.rs:48-192 | runs with the same per-role orders have the same approval storage and the same outcomes, traps included |
| Roles.RoleBinding | contracts/multi-party-approval/src/lib.rs:61-67 | an operation commits exactly when signed by its caller, who is the role's first signer or becomes it; it traps as unauthorized exactly when unsigned, and as the wrong role holder exactly when signed by another |
| Roles.StoredHolders | contracts/multi-party-approval/src/lib.rs:61-67 | the stored role holders are the first signers |
| Isolation.NonInterference | contracts/maintenance-records/src/lib.rs:66-167 | everything stored about one record is as if only its own steps and the completer settings had run |
| Isolation.SameOutcome | contracts/maintenance-records/src/lib.rs:66-167 | and each of those steps ends the same way |
| Isolation.InterleavingIrrelevant | contracts/maintenance-records/src/lib.rs:66-167 | two runs that agree on the steps of every record (with the completer settings) leave the whole ledger the same, however the records interleave |
| Isolation.StepsCommute | contracts/maintenance-records/src/lib.rs:66-167 | adjacent steps on different records, other than completer settings, commute |
| Certification.CompletionsBounded | contracts/maintenance-records/src/lib.rs:142-167 | certificates and direct completions of a record number at most its moves to PendingApproval |
| Certification.EvidenceBlocksCertificate | contracts/maintenance-records/src/lib.rs:91-125 | between submitted evidence and a later certificate lies a move to PendingApproval, with no status write after it |
| Certification.CompleterLocks | contracts/maintenance-records/src/lib.rs:128-138 | once the completer is the attestation contract it never changes |
| Certification.CompliantOrigin | contracts/maintenance-records/src/lib.rs:114-161 | a Compliant status comes from a certificate, a direct completion or a hand-written status, and nothing else |
| Certification.UnattestedExactlyWhen | contracts/maintenance-records/src/lib.rs:114-161 | a record is Compliant without an attestation exactly when its last status write is a direct completion or a hand-written Compliant and no certificate was ever committed |
| Certification.HandWrittenCompliance | contracts/maintenance-records/src/lib.rs:114-125 | a fresh record becomes Compliant, unattested, by one unsigned status write |
| Certification.CompliantIsAttested | contracts/maintenance-records/src/lib.rs:142-167 | without hand-written Compliant and with only the attestation contract ever authorized, Compliant records are attested |
| PageDecision.ApprovalByFirstByte | contracts/multi-party-approval/src/lib.rs:119-126 | an accepted approval differs from a rejection exactly when the first byte is 1 |
| PageDecision.PageApprovalIsRejection | frontend/src/app/approve/page.tsx:154-171 | the page's approve call has exactly the effect of a rejection |
| PageDecision.PageNeverCertifies | frontend/src/app/approve/page.tsx:154-171 | a run approving only through the page never certifies |
| EquipmentContract.BytesDetermine | contracts/equipment-registry/src/lib.rs:28-50 | shifting and masking loses nothing: a number is determined by its bytes |
| EquipmentContract.U32BeInjective | contracts/equipment-registry/src/lib.rs:28-36 | the big-endian `u32` is invertible |
| EquipmentContract.U32BeSpells | contracts/equipment-registry/src/lib.rs:28-36 | the four bytes, most significant first, are the number |
| EquipmentContract.U64BeInjective | contracts/equipment-registry/src/lib.rs:38-50 | the big-endian `u64` is invertible |
| EquipmentContract.U64BeSpells | contracts/equipment-registry/src/lib.rs:38-50 | the eight bytes, most significant first, are the number |
| EquipmentContract.CanonicalPreimage | contracts/equipment-registry/src/lib.rs:56-74 | the appended buffer is `Preimage`, laid out as `PreimageLayout` says |
| EquipmentContract.PreimageLayout | contracts/equipment-registry/src/lib.rs:56-74 | bytes 0-3 are EQUP, 4-35 the id, 36-67 the metadata, 68-75 the time and 76-79 the version, big-endian |
| EquipmentContract.PreimageNumbers | contracts/equipment-registry/src/lib.rs:28-74 | time and version as sums of the bytes at their positions |
| EquipmentContract.PreimageDetermines | contracts/equipment-registry/src/lib.rs:56-74 | equal preimages mean equal id, metadata, time and version, and the owner is irrelevant |
| EquipmentContract.EquipmentRegistry.RegisterEquipment | contracts/equipment-registry/src/lib.rs:94-127 | writes version 1 and its snapshot and returns its hash, or traps unchanged |
| EquipmentContract.EquipmentRegistry.UpdateOwner | contracts/equipment-registry/src/lib.rs:131-174 | writes the next version and snapshot with the same metadata, or traps unchanged |
| EquipmentContract.EquipmentRegistry.GetEquipment | contracts/equipment-registry/src/lib.rs:176-184 | the snapshot of the latest version |
| EquipmentContract.EquipmentRegistry.GetEquipmentVersion | contracts/equipment-registry/src/lib.rs:186-189 | the snapshot of a given version |
| VersionNumbers.SlotIsLast | contracts/equipment-registry/src/lib.rs:154 | with the counter wrapping, no owner after the one in a version's slot has that version number |
| OwnershipLog.RegistryHoldsLog | contracts/equipment-registry/src/lib.rs:94-174 | in every run the latest version is the number of owners modulo 2^32, and under each version number lies the last owner so numbered, with its time, metadata and hash |
| OwnershipLog.RegistryRefinesLog | contracts/equipment-registry/src/lib.rs:94-174 | the two-key store represents the append-only owner log exactly when no equipment ran out of version numbers |
| OwnershipLog.AcceptedAlike | contracts/equipment-registry/src/lib.rs:94-174 | in every run the contract accepts a call exactly when the log does |
| OwnershipLog.RefusedBecause | contracts/equipment-registry/src/lib.rs:94-152 | in every run which trap refuses a call, read off the log; a missing snapshot is never one |
| OwnershipLog.GettersReadLog | contracts/equipment-registry/src/lib.rs:176-189 | in every run the latest getter reads the last owner, no snapshot is ever missing, and the version getter reads the last owner of that number: the v-th until the counter wraps |
| OwnershipLog.LogOnlyGrows | contracts/equipment-registry/src/lib.rs:131-174 | owners are only appended and metadata is constant |
| OwnershipLog.SnapshotsAreImmutable | contracts/equipment-registry/src/lib.rs:160-171 | a stored snapshot is never removed, and does not change until its version number comes round again |
| OwnershipLog.EveryTransferSigned | contracts/equipment-registry/src/lib.rs:94-174 | in every run each stored snapshot was written by a call made and signed by the owner stored as latest just before, or by the first owner for a registration |
| OwnershipLog.NextVersionSigned | contracts/equipment-registry/src/lib.rs:131-174 | until the counter wraps, the snapshot at version v + 1 was written by a call that the owner stored at version v made and signed |
| OwnershipLog.EveryTenureSigned | contracts/equipment-registry/src/lib.rs:131-152 | every entry of the owner log comes from a call the owner before it made and signed |
| OwnershipLog.WrapsAtLimit | contracts/equipment-registry/src/lib.rs:154-171 | at the last version number one more transfer wraps the latest version to 0 |
| OwnershipLog.RefinementCanFail | contracts/equipment-registry/src/lib.rs:154-171 | a run that uses up the version numbers no longer represents its log |
| OwnershipLog.SnapshotsDistinguished | contracts/equipment-registry/src/lib.rs:56-88 | in every run different (id, version) pairs have different preimages and, without a collision, different hashes |
| Pipeline.InvokeContract | frontend/src/lib/soroban.ts:165-294 | for every RPC and wallet, the emitted statuses and the way the call ends |
| Pipeline.SimulateSignSubmit | frontend/src/lib/soroban.ts:172-243 | how far an attempt gets, and which early failures are announced before being thrown |
| Pipeline.PollForCompletion | frontend/src/lib/soroban.ts:248-263 | the loop polls up to the first conclusive reply or fifteen times and keeps the last status that did not throw |
| Pipeline.ReachesNetworkExactlyWhen | frontend/src/lib/soroban.ts:172-243 | the network is reached exactly when the transaction was built, sequenced, simulated, signed and answered |
| Pipeline.EarlyEnd | frontend/src/lib/soroban.ts:172-243 | for each earlier failure, the statuses reported before the throw, written out, and which of them end in failed |
| Pipeline.NetworkTrace | frontend/src/lib/soroban.ts:172-293 | otherwise the four forward statuses, one pending attempt per poll, then the ending of the outcome |
| Pipeline.PollMadeExactlyWhen | frontend/src/lib/soroban.ts:248-263 | a poll is made exactly when the submission was pending, fewer than fifteen were made and none was conclusive |
| Pipeline.SignedAfterSimulation | frontend/src/lib/soroban.ts:190-236 | a signature is asked for exactly when simulated, a submission made exactly when also signed, in that order |
| Pipeline.SubmissionDecides | frontend/src/lib/soroban.ts:238-293 | a submission answered with anything but PENDING is decided without polling |
| Pipeline.OutcomeHash | frontend/src/lib/soroban.ts:241-245 | the hash of an outcome is the submitted one, or unknown for none |
| Pipeline.TraceGrammar | frontend/src/lib/soroban.ts:165-294 | every trace is forward statuses, at most fifteen pending attempts from 1, and at most one terminal status, last |
| Pipeline.OutcomeMatchesTrace | frontend/src/lib/soroban.ts:265-293 | normal return exactly when success was emitted last, the timeout throw exactly when timeout was, and which throws are announced as failed |
| Pipeline.LastReplyIsLast | frontend/src/lib/soroban.ts:255-261 | the status kept is that of the last reply that did not throw |
| Pipeline.FirstConclusivePollDecides | frontend/src/lib/soroban.ts:248-293 | the first SUCCESS or FAILED among fifteen polls ends the polling and decides the call |
| Pipeline.TimesOutExactlyWhen | frontend/src/lib/soroban.ts:248-273 | without one the call times out exactly when the last reply that did not throw, if any, was PENDING |
| Pipeline.ReturnWithoutSuccess | frontend/src/lib/soroban.ts:248-293 | a call returns without a SUCCESS from the network exactly when the submission is answered with an unknown status, or it is PENDING, no poll is conclusive and the last one that answers is unknown |
| Pipeline.NeverFoundReturns | frontend/src/lib/soroban.ts:251-293 | fifteen NOT_FOUND replies end in a normal return |
| Pipeline.PollOnce | frontend/src/lib/soroban.ts:301-311 | one poll answers its own status when conclusive and PENDING otherwise |
| TransactionState.FailuresAreTheRest | frontend/src/hooks/useTransactionState.ts:31-39 | the failure states are those neither idle, in progress nor complete |
| TransactionState.TxStateMachine.Transition | frontend/src/hooks/useTransactionState.ts:87-126 | counts failures, keeps or replaces the hash, updates poll progress |
| TransactionState.TxStateMachine.SetError | frontend/src/hooks/useTransactionState.ts:155-156 | a transition carrying an error text |
| TransactionState.TxStateMachine.Reset | frontend/src/hooks/useTransactionState.ts:128-140 | back to the initial fields |
| ApprovePage.ApprovalCenter.HandleContractStatus | frontend/src/lib/tx-status-handler.ts:32-65 | each status moves the machine; only timeout counts as a failure and remembers the operation |
| ApprovePage.ApprovalCenter.CallContract | frontend/src/app/approve/page.tsx:158-171 | after all callbacks: TIMEOUT with one failure, hash and context, or no failure and no context |
| ApprovePage.ApprovalCenter.HandleDecision | frontend/src/app/approve/page.tsx:133-273 | the whole handler, step by step, has the stated effect and shows the stated error |
| ApprovePage.ApprovalCenter.HandleCheckAgain | frontend/src/app/approve/page.tsx:72-131 | the recovery handler: mirror the remembered operation once, report failure, or time out again, each with its error |
| ApprovePage.ApprovalCenter.HandleDismiss | frontend/src/app/approve/page.tsx:290-295 | dismissing resets the machine and leaves the remembered operation and the mirrors alone |
| ApprovePage.ThreeEndings | frontend/src/app/approve/page.tsx:133-273 | with wallet and contract, a decision ends in COMPLETE/0, TIMEOUT/1 with hash and context, or RPC_ERROR/1; it is submitted exactly when the network answered and mirrored exactly when the call returned |
| ApprovePage.NothingToCall | frontend/src/app/approve/page.tsx:142-151 | without a contract or a wallet nothing is submitted, mirrored or remembered, and only the missing contract is shown as an error |
| ApprovePage.SerialRunsMirrorTheRightOperation | frontend/src/app/approve/page.tsx:72-131 | in every serial run TIMEOUT shows the hash of the remembered operation, and every mirror records an operation with its own hash |
| ApprovePage.CheckResumesTheInterruptedOperation | frontend/src/app/approve/page.tsx:72-131 | a confirmed re-check mirrors exactly the last submitted operation under its own hash; others mirror nothing; the state, hash and failure count of every ending, and only an inconclusive one can be repeated |
| ApprovePage.CheckOfferedExactlyWhen | frontend/src/components/maintchain/TransactionProgress.tsx:127-136 | in every serial run the check button is there exactly in TIMEOUT |
| ApprovePage.DismissOfferedExactlyWhen | frontend/src/components/maintchain/TransactionProgress.tsx:144-154 | the dismiss button is there exactly when the machine is neither idle nor in progress |
| ApprovePage.DismissalAbandons | frontend/src/app/approve/page.tsx:290-295 | after a dismissal, whatever follows, only operations submitted later are mirrored |
| ApprovePage.SerialMirrorsBounded | frontend/src/app/approve/page.tsx:72-204 | mirrors plus the one still remembered number at most the submitted operations |
| PageInterleaving.AtMostOneMirror | frontend/src/app/approve/page.tsx:72-273 | under every interleaving at awaits each approve or reject is mirrored at most once |
| PageInterleaving.RememberedExactlyWhen | frontend/src/app/approve/page.tsx:72-171 | over any steps an attempt that timed out stays remembered exactly when it was and no step clicks, times out or confirms a check |
| PageInterleaving.ConfirmingCheckIsRightWhen | frontend/src/app/approve/page.tsx:72-106 | in every reachable state, whatever happens before its answer, a confirming check mirrors the attempt it asks about exactly when that one is remembered and the context stays untouched until the answer |
| PageInterleaving.PressedCheckIsRightWhen | frontend/src/app/approve/page.tsx:72-106 | the same from the press of the button, after any run |
| PageInterleaving.OverlapMirrorsAnother | frontend/src/app/approve/page.tsx:80-98 | a concrete overlap in which a check mirrors another operation |
| PageInterleaving.SerialRunsEmbed | frontend/src/app/approve/page.tsx:72-273 | every serial run of the handlers is one of the interleavings, with the same mirror calls (operation and hash), the same remembered operation, and its hash displayed in TIMEOUT |
| Backend.ApprovalsOnlyGrow | backend/src/main.rs:559-574 | the approvals table is append-only under every interleaving |
| Backend.EligibilityIsStable | backend/src/complaint.rs:29-51 | once true, the database half of eligibility stays true |
| Backend.CompliantIsEligible | backend/src/audit.rs:144-209 | under every interleaving with aborts a COMPLIANT record has both approved rows, and a positive eligibility answer is right |
| Backend.LateChecksSayYes | backend/src/complaint.rs:29-51 | the database half of an eligibility check started on an eligible record answers yes once both its counts have run |
| Backend.RowsComeFromHandlers | backend/src/audit.rs:182-194 | a row exists exactly when a handler for it got past its insert |
| Backend.PendingComesFromSupervisor | backend/src/main.rs:539-574 | under every interleaving with aborts a PENDING_APPROVAL status was written by a supervisor approval of that record |
| Backend.PendingLacksRowExactlyWhen | backend/src/main.rs:539-574 | such a record lacks its approval row exactly when every supervisor approval of it is, or was cut off, between its status update and its insert |
| Backend.PendingWithoutRow | backend/src/main.rs:539-574 | a reachable PENDING_APPROVAL record with no approval row |
| Handlers.CreateMaintenanceOrder | backend/src/main.rs:362-424 | alone, cut off anywhere, the handler does what its statement program does; it succeeds exactly when neither statement is cut off and the id is new, and then an OPEN record is added |
| Handlers.SubmitEvidenceHandler | backend/src/main.rs:426-471 | alone, cut off anywhere, it does what its statement program does; it succeeds exactly when neither statement is cut off and the record exists, and then the record is SUBMITTED; an unknown one changes nothing |
| Handlers.SupervisorDecisionHandler | backend/src/main.rs:524-605 | alone, cut off anywhere, it does what its statement program does; it succeeds exactly when none of its four statements is cut off and the record exists, leaving the target status and exactly one more row |
| Handlers.ApproveByAuditorHandler | backend/src/audit.rs:135-237 | alone, cut off anywhere, it does what its statement program does; it conflicts exactly when the count runs and finds no approved supervisor row, changing nothing, and succeeds exactly when all six statements run on a known, supervisor-approved record, leaving exactly one more row and a COMPLIANT, eligible record |
| Handlers.CheckEligibilityHandler | backend/src/complaint.rs:25-60 | alone, the database half answers whether both approved rows exist, and nothing when cut off |
| Decisions.SerialIsAlone | backend/src/main.rs:524-605 | a request served with nobody interfering, after any run, leaves the tables as its handler alone does |
| Decisions.LatestDecidedAt | backend/src/main.rs:559-574 | the decision in a record's newest supervisor row is that of the last supervisor handler to pass its insert |
| Decisions.LatestApprovedExactlyWhen | backend/src/audit.rs:145-209 | the latest supervisor decision on a COMPLIANT record is an approval exactly when every recorded rejection was followed by a recorded approval |
| Decisions.RejectedThenCompliant | backend/src/audit.rs:145-209 | after any run that left an approved row, a rejection and then an auditor's approval make the record COMPLIANT with the rejection still the latest decision |
| Decisions.ApprovedRecordReachable | backend/src/main.rs:524-605 | such a run exists: create, then approve |
| Nonces.NonceTable.CreateChallenge | backend/src/auth.rs:63-116 | an address of 56 UTF-8 bytes starting with G gets an unused row expiring in five minutes; any other is refused |
| Nonces.NonceTable.VerifyChallenge | backend/src/auth.rs:126-261 | uninterrupted: accepted exactly with a good signature on an unused, unexpired newest row; the first failing check refuses; acceptance marks the nonce, and no later verification of it is accepted |
| Nonces.NewestIsLast | backend/src/auth.rs:131-144 | the row fetched is the last one of the address and message |
| NonceLifecycle.FetchPassesExactlyWhen | backend/src/auth.rs:63-233 | over every run a fetch passes exactly when the signature is good, a challenge for a 56-byte address starting with G was issued at most 300000 ms before, and no earlier verification spent the nonce |
| NonceLifecycle.RefusalFromHistory | backend/src/auth.rs:154-233 | which check refuses, read off the history, in the order of the checks |
| NonceLifecycle.FetchAfterMarkIsRefused | backend/src/auth.rs:131-174 | in every interleaving a fetch after another's mark-used step for the nonce does not pass, even when the reply to that update was lost |
| NonceLifecycle.DoubleAcceptanceOverlaps | backend/src/auth.rs:131-250 | two verifications that mark a nonce have both been fetched and have passed when the first marks it |
| NonceLifecycle.OverlapAcceptsBoth | backend/src/auth.rs:236-250 | conversely, wherever two verifications of a nonce have both passed, both can still be accepted |
| NonceLifecycle.UsedRowMarked | backend/src/auth.rs:236-250 | every used row was marked by an earlier verification of its address and message |
| NonceLifecycle.SpentBeforeExactlyWhen | backend/src/auth.rs:236-250 | a verification spends a nonce that was spent before exactly when all its rows are already used when the update runs |
| NonceLifecycle.AcceptableAgainExactlyWhen | backend/src/auth.rs:131-250 | when a nonce is marked, some continuation accepts it again exactly when another verification of it has passed by then |
| NonceLifecycle.NonceAcceptedTwice | backend/src/auth.rs:131-250 | a concrete run in which one nonce is accepted twice |
| NonceLifecycle.AcceptedOnce | backend/src/auth.rs:126-250 | if no other verification of the nonce passes its fetch between a fetch and its mark, each nonce is marked, hence accepted, at most once |
| NonceLifecycle.AcceptedInTime | backend/src/auth.rs:88-174 | an acceptance rests on a challenge issued at most five minutes before the fetch |
| IdCodec.ZeroExtend32 | backend/src/soroban_rpc.rs:57-62 | fills a fixed array with the source, cut or zero-extended to 32 bytes |
| IdCodec.ZeroExtendedIs | backend/src/soroban_rpc.rs:57-62 | up to 32 bytes are kept and followed by zeros, of more the first 32 are kept |
| IdCodec.UuidIdsDiffer | backend/src/soroban_rpc.rs:57-62 | different UUIDs get different ids |
| IdCodec.ArgumentKinds | frontend/src/hooks/useSoroban.ts:480-489 | which strings become bytes, addresses and strings |
| IdCodec.AddressIsSentAsAddress | frontend/src/lib/soroban.ts:317-327 | every 56-character address starting with G or C goes out as an address |
| IdCodec.CodecAgreement | frontend/src/lib/soroban.ts:332-346 | the written id passes the 64-digit test exactly for ASCII text of at most 32 characters, and then the bytes sent equal the backend's |
| IdCodec.ParsesBack | backend/src/soroban_rpc.rs:45-54 | the backend's parser accepts exactly those ids, with the same bytes |
| IdCodec.ParsesExactlyWhen | backend/src/soroban_rpc.rs:45-54 | what the parser answers for the digits after an optional prefix |
| IdCodec.ParsesHexText | backend/src/soroban_rpc.rs:45-54 | every 32 bytes are read back from their hex text, prefixed or not |
| IdCodec.ParseContractIdInto | backend/src/soroban_rpc.rs:45-54 | fills the fixed array with the parsed id, or leaves it zero and reports why |
| IdCodec.UuidIsSentAsText | frontend/src/app/approve/page.tsx:153-162 | the text of a record's UUID is sent as a string, never as the 32 bytes the backend verifies |
| IdCodec.WrittenBytes | frontend/src/lib/soroban.ts:344-348 | for any text, its UTF-8 bytes and a zero for each UTF-16 unit short of 32 |
| IdCodec.WrittenInjective | frontend/src/lib/soroban.ts:344-348 | distinct NUL-free ids are written differently |
| IdCodec.DecodersAgree | frontend/src/hooks/useSoroban.ts:484-487 | lenient and strict decoding agree on `0x` words and differ on `0X` |
| IdCodec.DecisionWordBytes | frontend/src/app/approve/page.tsx:154 | the decision literal is 31 zero bytes and a one |
| Utf8.RoundTrip | frontend/src/app/api/[...proxy]/route.ts:120-129 | UTF-8 decoding undoes encoding for every string |
| Utf8.DecodedBack | frontend/src/app/api/[...proxy]/route.ts:125-129 | bytes that decode without a replacement character are the encoding of what they decode to |
| Hex.RoundTrip | frontend/src/lib/soroban.ts:332-348 | hex decoding undoes encoding |
| Hex.Digits | frontend/src/lib/soroban.ts:344-348 | the sixteen digits, and both cases read back |
| Base64Url.RoundTrip | frontend/src/app/api/[...proxy]/route.ts:120-129 | base64url decoding undoes encoding |
| Base64Url.Alphabet | frontend/src/app/api/[...proxy]/route.ts:120 | the 64 symbols |
| Base64Url.ReadSymbols | frontend/src/app/api/[...proxy]/route.ts:129 | what each character reads as |
| Base64Url.FullGroup | frontend/src/app/api/[...proxy]/route.ts:120 | three bytes and four symbols are the same 24-bit number, group after group |
| Base64Url.ShortGroup | frontend/src/app/api/[...proxy]/route.ts:120 | a short last group is completed with zeros and cut |
| SessionCookie.SplitIsInverse | frontend/src/app/api/[...proxy]/route.ts:130-133 | splitting at bars is undone by joining and leaves no bar |
| SessionCookie.CookieRoundTrip | frontend/src/app/api/[...proxy]/route.ts:104-148 | a cookie reads back as its address up to and including expiry and as nothing after, exactly for addresses without a bar |
| SessionCookie.AcceptedExactlyWhen | frontend/src/app/api/[...proxy]/route.ts:104-148 | a string is accepted exactly when it decodes to address, a date in force and the MAC of `address`, a bar and the date |
| SessionCookie.IssuedText | frontend/src/app/api/[...proxy]/route.ts:104-121 | what is issued decodes to the address, the date 86400000 ms ahead and that MAC |
| SessionCookie.AlteredCookie | frontend/src/app/api/[...proxy]/route.ts:127-148 | with address or date replaced it reads as nothing unless the MAC agrees on both texts |

## Left out

- React rendering, effects and batching: setters are immediate updates, and stale closures of `transactionHash` are not modelled.
- The upload and audit pages: the same pattern as the approve page.
- The identity registry contract: a per-wallet overwrite with a counter.
- Contract events: they carry no state that another call reads.
- `issue_certificate` naming other approval or records contracts: one deployment only.
- SHA-256, HMAC, Ed25519, StrKey, XDR and ISO dates: parameters of the model.
- HTTP, Postgres sessions, IPFS, CORS, headers and environment reading: outcomes of statements only.
- The database seeder: it inserts COMPLIANT records itself and is not part of the transition system.
- `get_audit_trail`: its ordering is done by the database, and approver ids, notes, timestamps and transaction ids of rows are not modelled.
- On-chain verification inside the eligibility check and the auditor's handler: a step that may fail; the eligibility answer modelled is the database half.
- `identity_middleware` and the proxy's header handling: string comparisons and plumbing.
- Malformed base64 input: characters outside both alphabets are skipped, including misplaced padding.
- Strings that are not well-formed UTF-16: text is a sequence of Unicode scalar values.
- Debug builds of the registry: they trap where the release build wraps.
- Message texts of the page: named, not spelled out.
