/** The approval state of a record is three independent role machines. */
module Roles {
  import opened Basics
  import opened Host
  import opened ApprovalContract
  import opened Ledger
  import opened History

  datatype Role = Technician | Supervisor | Auditor

  function RoleOf(op: Op): Role {
    match op
    case SetAuditorRequired(_) => Technician
    case ApproveByTechnician => Technician
    case ApproveBySupervisor(_) => Supervisor
    case RejectBySupervisor => Supervisor
    case ApproveByAuditor => Auditor
  }

  predicate Plays(step: Step, id: Bytes32, role: Role) {
    step.call.Approval? && step.call.id == id && RoleOf(step.call.op) == role
  }

  /** The operations of one role on one record, in order. */
  function Project(h: Run, id: Bytes32, role: Role): (r: Run)
    ensures forall i | 0 <= i < |r| :: Plays(r[i], id, role)
  {
    if |h| == 0 then []
    else
      var p := Project(h[..|h| - 1], id, role);
      if Plays(h[|h| - 1], id, role) then p + [h[|h| - 1]] else p
  }

  /** What one role remembers, knowing nothing of the other two. */
  datatype RoleState = RoleState(holder: Option<Address>, approved: bool, auditorRequired: bool)

  const IDLE := RoleState(None, false, false)

  function Verdict(rs: RoleState, step: Step): Option<Trap>
    requires step.call.Approval?
  {
    if !step.Env().Authorizes(step.call.caller) then Some(Unauthorized)
    else if !MayAct(rs.holder, step.call.caller) then Some(WrongRoleHolder)
    else None
  }

  function RoleNext(rs: RoleState, step: Step): RoleState
    requires step.call.Approval?
  {
    if Verdict(rs, step).Some? then rs else
    var s := rs.(holder := Some(step.call.caller));
    match step.call.op
    case SetAuditorRequired(required) => s.(auditorRequired := required)
    case ApproveByTechnician => s.(approved := true)
    case ApproveBySupervisor(decision) => s.(approved := decision[0] == 1)
    case RejectBySupervisor => s.(approved := false)
    case ApproveByAuditor => s.(approved := true)
  }

  predicate AllApprovals(ops: Run) {
    forall i | 0 <= i < |ops| :: ops[i].call.Approval?
  }

  function Fold(ops: Run): RoleState
    requires AllApprovals(ops)
  {
    if |ops| == 0 then IDLE else RoleNext(Fold(ops[..|ops| - 1]), ops[|ops| - 1])
  }

  /** The outcome of each operation as its own role machine decides it. */
  function Verdicts(ops: Run): seq<Option<Trap>>
    requires AllApprovals(ops)
  {
    if |ops| == 0 then []
    else Verdicts(ops[..|ops| - 1]) + [Verdict(Fold(ops[..|ops| - 1]), ops[|ops| - 1])]
  }

  /** The outcomes the ledger gave to the operations of one role on one record. */
  function Outcomes(h: Run, id: Bytes32, role: Role): seq<Option<Trap>> {
    if |h| == 0 then []
    else
      var p, last := h[..|h| - 1], h[|h| - 1];
      if !Plays(last, id, role) then Outcomes(p, id, role)
      else
        Outcomes(p, id, role) + [match Effect(After(p), last) case Ok(_) => None case Panic(t) => Some(t)]
  }

  function RoleFold(h: Run, id: Bytes32, role: Role): RoleState {
    Fold(Project(h, id, role))
  }

  function Combine(t: RoleState, s: RoleState, a: RoleState): ApprovalState {
    ApprovalState(t.approved, s.approved, a.approved, t.auditorRequired, t.holder, s.holder, a.holder)
  }

  lemma RoleFoldStep(h: Run, id: Bytes32, role: Role)
    requires |h| > 0
    ensures
      var before, last := RoleFold(h[..|h| - 1], id, role), h[|h| - 1];
      RoleFold(h, id, role) == if Plays(last, id, role) then RoleNext(before, last) else before
  {
    var p, last := h[..|h| - 1], h[|h| - 1];
    if Plays(last, id, role) {
      var ops := Project(h, id, role);
      assert ops[..|ops| - 1] == Project(p, id, role);
    }
  }

  /** Product decomposition: the stored state of a record is the combination of three
      folds, each over the operations of one role only. */
  lemma {:induction false} ProductDecomposition(h: Run, id: Bytes32)
    ensures
      var st := After(h).approvals;
      var t, s, a := RoleFold(h, id, Technician), RoleFold(h, id, Supervisor), RoleFold(h, id, Auditor);
      && Lookup(st, id) == Combine(t, s, a)
      && (id in st <==> t.holder.Some? || s.holder.Some? || a.holder.Some?)
  {
    if |h| > 0 {
      var p, last := h[..|h| - 1], h[|h| - 1];
      ProductDecomposition(p, id);
      ApprovalStep(After(p), last, id);
      RoleFoldStep(h, id, Technician);
      RoleFoldStep(h, id, Supervisor);
      RoleFoldStep(h, id, Auditor);
      if last.call.Approval? && last.call.id == id {
        match last.call.op
        case SetAuditorRequired(_) =>
        case ApproveByTechnician =>
        case ApproveBySupervisor(_) =>
        case RejectBySupervisor =>
        case ApproveByAuditor =>
      }
    }
  }

  /** Whether an operation commits, and how it traps, depends on its own role only. */
  lemma OutcomeByOwnRole(h: Run, step: Step, id: Bytes32, role: Role)
    requires Plays(step, id, role)
    ensures
      match Verdict(RoleFold(h, id, role), step)
      case None => Commits(After(h), step)
      case Some(t) => Effect(After(h), step) == Panic(t)
  {
    ProductDecomposition(h, id);
  }

  lemma {:induction false} OutcomesFromProjection(h: Run, id: Bytes32, role: Role)
    ensures Outcomes(h, id, role) == Verdicts(Project(h, id, role))
  {
    if |h| > 0 {
      var p, last := h[..|h| - 1], h[|h| - 1];
      OutcomesFromProjection(p, id, role);
      if Plays(last, id, role) {
        OutcomeByOwnRole(p, last, id, role);
        var ops := Project(h, id, role);
        assert ops[..|ops| - 1] == Project(p, id, role);
      }
    }
  }

  /** Any reordering that keeps each role's own order gives the same approval storage,
      and every operation ends the same way, traps included. */
  lemma ReorderInvariance(h: Run, g: Run)
    requires forall id: Bytes32, role: Role :: Project(h, id, role) == Project(g, id, role)
    ensures After(h).approvals == After(g).approvals
    ensures forall id: Bytes32, role: Role :: Outcomes(h, id, role) == Outcomes(g, id, role)
  {
    forall id: Bytes32
      ensures id in After(h).approvals <==> id in After(g).approvals
      ensures Lookup(After(h).approvals, id) == Lookup(After(g).approvals, id)
    {
      ProductDecomposition(h, id);
      ProductDecomposition(g, id);
    }
    var x, y := After(h).approvals, After(g).approvals;
    forall id: Bytes32 | id in x ensures id in y && x[id] == y[id] {
      assert Lookup(x, id) == Lookup(y, id);
    }
    forall id: Bytes32, role: Role ensures Outcomes(h, id, role) == Outcomes(g, id, role) {
      OutcomesFromProjection(h, id, role);
      OutcomesFromProjection(g, id, role);
    }
  }

  /** The caller of the earliest signed operation of a role. */
  function FirstSigner(ops: Run): Option<Address>
    requires AllApprovals(ops)
  {
    if |ops| == 0 then None
    else
      var earlier, last := FirstSigner(ops[..|ops| - 1]), ops[|ops| - 1];
      if earlier.Some? then earlier
      else if last.Env().Authorizes(last.call.caller) then Some(last.call.caller) else None
  }

  lemma {:induction false} HolderIsFirstSigner(ops: Run)
    requires AllApprovals(ops)
    ensures Fold(ops).holder == FirstSigner(ops)
  {
    if |ops| > 0 {
      HolderIsFirstSigner(ops[..|ops| - 1]);
    }
  }

  /** Role binding: an operation commits exactly when its caller signed it and is the
      first address that ever signed for that role on that record (or is that first one). */
  lemma RoleBinding(h: Run, i: nat, id: Bytes32, role: Role)
    requires i < |h| && Plays(h[i], id, role)
    ensures
      var first := FirstSigner(Project(h[..i], id, role));
      var caller := h[i].call.caller;
      && (Committed(h, i) <==> caller in h[i].signers && (first.None? || first == Some(caller)))
      && (Effect(After(h[..i]), h[i]) == Panic(Unauthorized) <==> caller !in h[i].signers)
      && (Effect(After(h[..i]), h[i]) == Panic(WrongRoleHolder) <==> caller in h[i].signers && first.Some? && first != Some(caller))
  {
    OutcomeByOwnRole(h[..i], h[i], id, role);
    HolderIsFirstSigner(Project(h[..i], id, role));
  }

  /** The stored role holders are the first signers. */
  lemma StoredHolders(h: Run, id: Bytes32)
    ensures
      var s := Lookup(After(h).approvals, id);
      && s.technician == FirstSigner(Project(h, id, Technician))
      && s.supervisor == FirstSigner(Project(h, id, Supervisor))
      && s.auditor == FirstSigner(Project(h, id, Auditor))
  {
    ProductDecomposition(h, id);
    HolderIsFirstSigner(Project(h, id, Technician));
    HolderIsFirstSigner(Project(h, id, Supervisor));
    HolderIsFirstSigner(Project(h, id, Auditor));
  }
}
