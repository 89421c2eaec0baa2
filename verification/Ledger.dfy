/** One deployment of the three contracts, and the host that runs invocations on it. */
module Ledger {
  import opened Basics
  import opened Host
  import opened ApprovalContract
  import opened RecordsContract
  import opened AttestationContract

  datatype Call =
    | Approval(id: Bytes32, op: Op, caller: Address)
    | CreateRecord(id: Bytes32, equipment: Bytes32, tech: Address)
    | SubmitEvidence(id: Bytes32, evidence: Bytes32, caller: Address)
    | UpdateStatus(id: Bytes32, status: Status)
    | SetAuthorizedCompleter(authorized: Address, caller: Address)
    | Complete(id: Bytes32, attestation: Address)
    | IssueCertificate(id: Bytes32, certHash: Bytes32)

  /** A top-level invocation: the call, its signatures and the ledger time. */
  datatype Step = Step(call: Call, signers: set<Address>, now: U64) {
    function Env(): Env {
      Host.Env.Env(signers, None, now)
    }
  }

  datatype State = State(approvals: Storage, records: Store, attestations: map<Bytes32, Attestation>)

  const GENESIS := State(map[], Store(map[], None), map[])

  function OnApprovals(s: State, r: Result<Storage>): Result<State> {
    match r case Ok(v) => Ok(s.(approvals := v)) case Panic(t) => Panic(t)
  }

  function OnRecords(s: State, r: Result<Store>): Result<State> {
    match r case Ok(v) => Ok(s.(records := v)) case Panic(t) => Panic(t)
  }

  /** The committed effect of issuing, or the trap that cancels it. */
  function Issue(s: State, env: Env, id: Bytes32, certHash: Bytes32): Result<State> {
    match Verify(s.approvals, id)
    case Panic(t) => Panic(t)
    case Ok(false) => Panic(NotEligible)
    case Ok(true) =>
      match Completed(s.records, Nested(env), id, SELF)
      case Panic(t) => Panic(t)
      case Ok(v) => Ok(s.(records := v, attestations := s.attestations[id := Attestation(env.now, SELF, certHash)]))
  }

  function Effect(s: State, step: Step): Result<State> {
    match step.call
    case Approval(id, op, caller) => OnApprovals(s, Perform(s.approvals, step.Env(), id, op, caller))
    case CreateRecord(id, equipment, tech) => OnRecords(s, Create(s.records, step.Env(), id, equipment, tech))
    case SubmitEvidence(id, evidence, caller) => OnRecords(s, Submit(s.records, step.Env(), id, evidence, caller))
    case UpdateStatus(id, status) => OnRecords(s, Update(s.records, id, status))
    case SetAuthorizedCompleter(authorized, caller) => OnRecords(s, SetCompleter(s.records, step.Env(), authorized, caller))
    case Complete(id, attestation) => OnRecords(s, Completed(s.records, step.Env(), id, attestation))
    case IssueCertificate(id, certHash) => Issue(s, step.Env(), id, certHash)
  }

  predicate Commits(s: State, step: Step) {
    Effect(s, step).Ok?
  }

  function Next(s: State, step: Step): State {
    if Commits(s, step) then Effect(s, step).value else s
  }

  /** Certification is all-or-nothing: either the record moves from PendingApproval to
      Compliant and the attestation is stored, or nothing at all changes. */
  lemma IssueAllOrNothing(s: State, step: Step)
    requires step.call.IssueCertificate?
    ensures
      var id, n := step.call.id, Next(s, step);
      if Commits(s, step) then
        && id in s.records.orders && s.records.orders[id].status == PendingApproval
        && n.records.orders == s.records.orders[id := s.records.orders[id].(status := Compliant)]
        && n.attestations == s.attestations[id := Attestation(step.now, SELF, step.call.certHash)]
        && n.approvals == s.approvals && n.records.completer == s.records.completer == Some(SELF)
      else n == s
    // Exactly when it commits.
    ensures Commits(s, step) <==>
            && Verify(s.approvals, step.call.id) == Ok(true)
            && s.records.completer == Some(SELF)
            && step.call.id in s.records.orders
            && s.records.orders[step.call.id].status == PendingApproval
  {
  }

  class LedgerHost {
    const approvals: MultiPartyApproval
    const records: MaintenanceRecords
    const attestation: ComplianceAttestation

    constructor ()
      ensures View() == GENESIS
      ensures fresh(approvals) && fresh(records) && fresh(attestation)
    {
      approvals := new MultiPartyApproval();
      records := new MaintenanceRecords();
      attestation := new ComplianceAttestation();
    }

    function View(): State
      reads approvals, records, attestation
    {
      State(approvals.storage, records.View(), attestation.attestations)
    }

    /** Runs the contract code of a step on the live storage. A trap inside it can
        leave a partial write. */
    method Execute(step: Step) returns (r: Result<()>)
      modifies approvals, records, attestation
      ensures r.Ok? <==> Commits(old(View()), step)
      ensures r.Ok? ==> View() == Next(old(View()), step)
      ensures r.Panic? ==> Effect(old(View()), step) == Panic(r.trap)
    {
      var env := step.Env();
      match step.call
      case Approval(id, op, caller) =>
        match op {
          case SetAuditorRequired(required) => r := approvals.SetAuditorRequired(env, id, required, caller);
          case ApproveByTechnician => r := approvals.ApproveByTechnician(env, id, caller);
          case ApproveBySupervisor(decision) => r := approvals.ApproveBySupervisor(env, id, decision, caller);
          case RejectBySupervisor => r := approvals.RejectBySupervisor(env, id, caller);
          case ApproveByAuditor => r := approvals.ApproveByAuditor(env, id, caller);
        }
      case CreateRecord(id, equipment, tech) => r := records.CreateRecord(env, id, equipment, tech);
      case SubmitEvidence(id, evidence, caller) => r := records.SubmitEvidence(env, id, evidence, caller);
      case UpdateStatus(id, status) => r := records.UpdateStatus(id, status);
      case SetAuthorizedCompleter(authorized, caller) => r := records.SetAuthorizedCompleter(env, authorized, caller);
      case Complete(id, addr) => r := records.Complete(env, id, addr);
      case IssueCertificate(id, certHash) =>
        var issued := attestation.IssueCertificate(env, approvals, records, id, certHash);
        r := if issued.Ok? then Ok(()) else Panic(issued.trap);
    }

    /** A whole transaction: execute, and undo every write if anything trapped. */
    method Invoke(step: Step) returns (r: Result<()>)
      modifies approvals, records, attestation
      ensures r.Ok? <==> Commits(old(View()), step)
      ensures r.Panic? ==> Effect(old(View()), step) == Panic(r.trap)
      ensures View() == Next(old(View()), step)
    {
      var savedApprovals, savedOrders := approvals.storage, records.orders;
      var savedCompleter, savedAttestations := records.completer, attestation.attestations;
      r := Execute(step);
      if r.Panic? {
        approvals.storage, records.orders := savedApprovals, savedOrders;
        records.completer, attestation.attestations := savedCompleter, savedAttestations;
      }
    }

    /** A run of transactions. */
    method Run(steps: seq<Step>)
      modifies approvals, records, attestation
      ensures View() == RunFrom(old(View()), steps)
    {
      for i := 0 to |steps|
        invariant View() == RunFrom(old(View()), steps[..i])
      {
        assert steps[..i + 1][..i] == steps[..i];
        var _ := Invoke(steps[i]);
      }
      assert steps[..|steps|] == steps;
    }
  }

  function RunFrom(s: State, h: seq<Step>): State {
    if |h| == 0 then s else Next(RunFrom(s, h[..|h| - 1]), h[|h| - 1])
  }
}
