/** MultiPartyApproval: approval flags and first-caller role binding. */
module ApprovalContract {
  import opened Basics
  import opened Host

  datatype ApprovalState = ApprovalState(
    techApproved: bool,
    supervisorApproved: bool,
    auditorApproved: bool,
    auditorRequired: bool,
    technician: Option<Address>,
    supervisor: Option<Address>,
    auditor: Option<Address>)

  const BLANK := ApprovalState(false, false, false, false, None, None, None)

  type Storage = map<Bytes32, ApprovalState>

  /** The five state-changing entry points. */
  datatype Op =
    | SetAuditorRequired(required: bool)
    | ApproveByTechnician
    | ApproveBySupervisor(decision: Bytes32)
    | RejectBySupervisor
    | ApproveByAuditor

  function Lookup(st: Storage, id: Bytes32): ApprovalState {
    if id in st then st[id] else BLANK
  }

  predicate MayAct(holder: Option<Address>, caller: Address) {
    holder.None? || holder.value == caller
  }

  function Holder(s: ApprovalState, op: Op): Option<Address> {
    match op
    case SetAuditorRequired(_) => s.technician
    case ApproveByTechnician => s.technician
    case ApproveBySupervisor(_) => s.supervisor
    case RejectBySupervisor => s.supervisor
    case ApproveByAuditor => s.auditor
  }

  function Updated(s: ApprovalState, op: Op, caller: Address): ApprovalState {
    match op
    case SetAuditorRequired(required) => s.(technician := Some(caller), auditorRequired := required)
    case ApproveByTechnician => s.(technician := Some(caller), techApproved := true)
    case ApproveBySupervisor(decision) => s.(supervisor := Some(caller), supervisorApproved := decision[0] == 1)
    case RejectBySupervisor => s.(supervisor := Some(caller), supervisorApproved := false)
    case ApproveByAuditor => s.(auditor := Some(caller), auditorApproved := true)
  }

  /** The effect of one entry point on the contract's storage. */
  function Perform(st: Storage, env: Env, id: Bytes32, op: Op, caller: Address): Result<Storage> {
    if !env.Authorizes(caller) then Panic(Unauthorized)
    else if !MayAct(Holder(Lookup(st, id), op), caller) then Panic(WrongRoleHolder)
    else Ok(st[id := Updated(Lookup(st, id), op, caller)])
  }

  /** `verify`: every required role has approved; traps on an unknown id. */
  function Verify(st: Storage, id: Bytes32): Result<bool> {
    if id !in st then Panic(ApprovalStateNotFound)
    else Ok(st[id].techApproved && st[id].supervisorApproved && (st[id].auditorRequired ==> st[id].auditorApproved))
  }

  /** A unit-returning call moved the storage from `before` to `after` as `effect` says. */
  predicate Follows<S(==)>(effect: Result<S>, before: S, after: S, r: Result<()>) {
    match effect
    case Ok(s) => r == Ok(()) && after == s
    case Panic(t) => r == Panic(t) && after == before
  }

  class MultiPartyApproval {
    var storage: Storage

    constructor ()
      ensures storage == map[]
    {
      storage := map[];
    }

    method SetAuditorRequired(env: Env, id: Bytes32, required: bool, caller: Address) returns (r: Result<()>)
      modifies this
      ensures Follows(Perform(old(storage), env, id, Op.SetAuditorRequired(required), caller), old(storage), storage, r)
    {
      if !env.Authorizes(caller) { return Panic(Unauthorized); }
      var state := if id in storage then storage[id] else BLANK;
      if state.technician.Some? {
        if caller != state.technician.value { return Panic(WrongRoleHolder); }
      } else {
        state := state.(technician := Some(caller));
      }
      state := state.(auditorRequired := required);
      storage := storage[id := state];
      r := Ok(());
    }

    method ApproveByTechnician(env: Env, id: Bytes32, caller: Address) returns (r: Result<()>)
      modifies this
      ensures Follows(Perform(old(storage), env, id, Op.ApproveByTechnician, caller), old(storage), storage, r)
    {
      if !env.Authorizes(caller) { return Panic(Unauthorized); }
      var state := if id in storage then storage[id] else BLANK;
      if state.technician.Some? {
        if caller != state.technician.value { return Panic(WrongRoleHolder); }
      } else {
        state := state.(technician := Some(caller));
      }
      state := state.(techApproved := true);
      storage := storage[id := state];
      r := Ok(());
    }

    method ApproveBySupervisor(env: Env, id: Bytes32, decision: Bytes32, caller: Address) returns (r: Result<()>)
      modifies this
      ensures Follows(Perform(old(storage), env, id, Op.ApproveBySupervisor(decision), caller), old(storage), storage, r)
    {
      if !env.Authorizes(caller) { return Panic(Unauthorized); }
      var state := if id in storage then storage[id] else BLANK;
      if state.supervisor.Some? {
        if caller != state.supervisor.value { return Panic(WrongRoleHolder); }
      } else {
        state := state.(supervisor := Some(caller));
      }
      var first := decision[0];
      var approved := first == 1;
      state := state.(supervisorApproved := approved);
      storage := storage[id := state];
      r := Ok(());
    }

    method RejectBySupervisor(env: Env, id: Bytes32, caller: Address) returns (r: Result<()>)
      modifies this
      ensures Follows(Perform(old(storage), env, id, Op.RejectBySupervisor, caller), old(storage), storage, r)
    {
      if !env.Authorizes(caller) { return Panic(Unauthorized); }
      var state := if id in storage then storage[id] else BLANK;
      if state.supervisor.Some? {
        if caller != state.supervisor.value { return Panic(WrongRoleHolder); }
      } else {
        state := state.(supervisor := Some(caller));
      }
      state := state.(supervisorApproved := false);
      storage := storage[id := state];
      r := Ok(());
    }

    method ApproveByAuditor(env: Env, id: Bytes32, caller: Address) returns (r: Result<()>)
      modifies this
      ensures Follows(Perform(old(storage), env, id, Op.ApproveByAuditor, caller), old(storage), storage, r)
    {
      if !env.Authorizes(caller) { return Panic(Unauthorized); }
      var state := if id in storage then storage[id] else BLANK;
      if state.auditor.Some? {
        if caller != state.auditor.value { return Panic(WrongRoleHolder); }
      } else {
        state := state.(auditor := Some(caller));
      }
      state := state.(auditorApproved := true);
      storage := storage[id := state];
      r := Ok(());
    }

    method VerifyApproval(id: Bytes32) returns (r: Result<bool>)
      ensures r == Verify(storage, id)
    {
      if id !in storage { return Panic(ApprovalStateNotFound); }
      var state := storage[id];
      var auditorOk := if state.auditorRequired then state.auditorApproved else true;
      r := Ok(state.techApproved && state.supervisorApproved && auditorOk);
    }
  }
}

/** MaintenanceRecords: order status and the authorized completer. */
module RecordsContract {
  import opened Basics
  import opened Host
  import opened ApprovalContract

  datatype Status = Open | Submitted | PendingApproval | Compliant | Rejected | PendingAudit

  datatype Order = Order(equipment: Bytes32, technician: Address, status: Status, evidence: Option<Bytes32>, createdAt: U64)

  datatype Store = Store(orders: map<Bytes32, Order>, completer: Option<Address>)

  function Create(st: Store, env: Env, id: Bytes32, equipment: Bytes32, tech: Address): Result<Store> {
    if !env.Authorizes(tech) then Panic(Unauthorized)
    else if id in st.orders then Panic(RecordExists)
    else Ok(st.(orders := st.orders[id := Order(equipment, tech, Open, None, env.now)]))
  }

  function Submit(st: Store, env: Env, id: Bytes32, evidence: Bytes32, caller: Address): Result<Store> {
    if !env.Authorizes(caller) then Panic(Unauthorized)
    else if id !in st.orders then Panic(RecordNotFound)
    else if caller != st.orders[id].technician then Panic(NotTechnician)
    else Ok(st.(orders := st.orders[id := st.orders[id].(evidence := Some(evidence), status := Submitted)]))
  }

  function Update(st: Store, id: Bytes32, status: Status): Result<Store> {
    if id !in st.orders then Panic(RecordNotFound)
    else Ok(st.(orders := st.orders[id := st.orders[id].(status := status)]))
  }

  function SetCompleter(st: Store, env: Env, authorized: Address, caller: Address): Result<Store> {
    if !env.Authorizes(caller) then Panic(Unauthorized)
    else if st.completer.Some? && caller != st.completer.value then Panic(NotCurrentCompleter)
    else Ok(st.(completer := Some(authorized)))
  }

  function Completed(st: Store, env: Env, id: Bytes32, attestation: Address): Result<Store> {
    if !env.Authorizes(attestation) then Panic(Unauthorized)
    else if st.completer.None? then Panic(CompleterNotConfigured)
    else if attestation != st.completer.value then Panic(WrongCompleter)
    else if id !in st.orders then Panic(RecordNotFound)
    else if st.orders[id].status != PendingApproval then Panic(NotPendingApproval)
    else Ok(st.(orders := st.orders[id := st.orders[id].(status := Compliant)]))
  }

  class MaintenanceRecords {
    var orders: map<Bytes32, Order>
    var completer: Option<Address>

    constructor ()
      ensures View() == Store(map[], None)
    {
      orders := map[];
      completer := None;
    }

    function View(): Store
      reads this
    {
      Store(orders, completer)
    }

    method CreateRecord(env: Env, id: Bytes32, equipment: Bytes32, tech: Address) returns (r: Result<()>)
      modifies this
      ensures Follows(Create(old(View()), env, id, equipment, tech), old(View()), View(), r)
    {
      if !env.Authorizes(tech) { return Panic(Unauthorized); }
      if id in orders { return Panic(RecordExists); }
      var order := Order(equipment, tech, Open, None, env.now);
      orders := orders[id := order];
      r := Ok(());
    }

    method SubmitEvidence(env: Env, id: Bytes32, evidence: Bytes32, caller: Address) returns (r: Result<()>)
      modifies this
      ensures Follows(Submit(old(View()), env, id, evidence, caller), old(View()), View(), r)
    {
      if !env.Authorizes(caller) { return Panic(Unauthorized); }
      if id !in orders { return Panic(RecordNotFound); }
      var order := orders[id];
      if caller != order.technician { return Panic(NotTechnician); }
      order := order.(evidence := Some(evidence));
      order := order.(status := Submitted);
      orders := orders[id := order];
      r := Ok(());
    }

    method UpdateStatus(id: Bytes32, status: Status) returns (r: Result<()>)
      modifies this
      ensures Follows(Update(old(View()), id, status), old(View()), View(), r)
    {
      if id !in orders { return Panic(RecordNotFound); }
      var order := orders[id];
      order := order.(status := status);
      orders := orders[id := order];
      r := Ok(());
    }

    method SetAuthorizedCompleter(env: Env, authorized: Address, caller: Address) returns (r: Result<()>)
      modifies this
      ensures Follows(SetCompleter(old(View()), env, authorized, caller), old(View()), View(), r)
    {
      if !env.Authorizes(caller) { return Panic(Unauthorized); }
      if completer.Some? {
        if caller != completer.value { return Panic(NotCurrentCompleter); }
      }
      completer := Some(authorized);
      r := Ok(());
    }

    method Complete(env: Env, id: Bytes32, attestation: Address) returns (r: Result<()>)
      modifies this
      ensures Follows(Completed(old(View()), env, id, attestation), old(View()), View(), r)
    {
      if !env.Authorizes(attestation) { return Panic(Unauthorized); }
      if completer.None? { return Panic(CompleterNotConfigured); }
      if attestation != completer.value { return Panic(WrongCompleter); }
      if id !in orders { return Panic(RecordNotFound); }
      var order := orders[id];
      if order.status != PendingApproval { return Panic(NotPendingApproval); }
      order := order.(status := Compliant);
      orders := orders[id := order];
      r := Ok(());
    }
  }
}

/** ComplianceAttestation: certificates, issued through the other two contracts. */
module AttestationContract {
  import opened Basics
  import opened Host
  import opened ApprovalContract
  import opened RecordsContract

  datatype Attestation = Attestation(issuedAt: U64, issuer: Address, certHash: Bytes32)

  /** The address of the deployed attestation contract. */
  const SELF: Address := Contract(2)

  /** The environment a contract called by the attestation contract sees. */
  function Nested(env: Env): Env {
    env.(invoker := Some(SELF))
  }

  class ComplianceAttestation {
    var attestations: map<Bytes32, Attestation>

    constructor ()
      ensures attestations == map[]
    {
      attestations := map[];
    }

    /** Writes the attestation before the nested `complete` call, so a trap there
        leaves the write behind for the host to undo. */
    method IssueCertificate(env: Env, approvals: MultiPartyApproval, records: MaintenanceRecords,
                            id: Bytes32, certHash: Bytes32) returns (r: Result<Bytes32>)
      modifies this, records
      ensures
        var eligible := Verify(old(approvals.storage), id);
        var stored := old(attestations)[id := Attestation(env.now, SELF, certHash)];
        match eligible
        case Panic(t) => r == Panic(t) && attestations == old(attestations) && records.View() == old(records.View())
        case Ok(false) => r == Panic(NotEligible) && attestations == old(attestations) && records.View() == old(records.View())
        case Ok(true) =>
          && attestations == stored
          && (match Completed(old(records.View()), Nested(env), id, SELF)
              case Ok(s) => r == Ok(certHash) && records.View() == s
              case Panic(t) => r == Panic(t) && records.View() == old(records.View()))
    {
      var eligible := approvals.VerifyApproval(id);
      if eligible.Panic? { return Panic(eligible.trap); }
      if !eligible.value { return Panic(NotEligible); }
      var attestation := Attestation(env.now, SELF, certHash);
      attestations := attestations[id := attestation];
      var completed := records.Complete(Nested(env), id, SELF);
      if completed.Panic? { return Panic(completed.trap); }
      r := Ok(certHash);
    }

    method GetAttestation(id: Bytes32) returns (r: Result<Attestation>)
      ensures r.Ok? <==> id in attestations
      ensures r.Ok? ==> r.value == attestations[id]
      ensures r.Panic? ==> r.trap == AttestationNotFound
    {
      if id !in attestations { return Panic(AttestationNotFound); }
      r := Ok(attestations[id]);
    }
  }
}
