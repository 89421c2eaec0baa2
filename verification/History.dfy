/** What the stored state says about the history that produced it. */
module History {
  import opened Basics
  import opened Host
  import opened ApprovalContract
  import opened RecordsContract
  import opened AttestationContract
  import opened Ledger

  type Run = seq<Step>

  function After(h: Run): State {
    RunFrom(GENESIS, h)
  }

  /** Step i of the run committed. */
  predicate Committed(h: Run, i: nat)
    requires i < |h|
  {
    Commits(After(h[..i]), h[i])
  }

  lemma PrefixCommitted(h: Run, i: nat)
    requires i < |h| - 1
    ensures Committed(h[..|h| - 1], i) == Committed(h, i)
    ensures h[..|h| - 1][i] == h[i]
  {
    assert h[..|h| - 1][..i] == h[..i];
  }

  /** Classes of calls that a stored field depends on. */
  datatype Kind =
    | TechnicianOp(id: Bytes32)
    | TechnicianApproval(id: Bytes32)
    | AuditorSetting(id: Bytes32)
    | SupervisorOp(id: Bytes32)
    | AuditorOp(id: Bytes32)
    | Creation(id: Bytes32)
    | EvidenceWrite(id: Bytes32)
    | StatusWrite(id: Bytes32)
    | PendingWrite(id: Bytes32)
    | DirectCompletion(id: Bytes32)
    | CompleterWrite
    | Certificate(id: Bytes32)

  predicate Is(c: Call, k: Kind) {
    match k
    case TechnicianOp(id) => c.Approval? && c.id == id && (c.op.SetAuditorRequired? || c.op.ApproveByTechnician?)
    case TechnicianApproval(id) => c.Approval? && c.id == id && c.op.ApproveByTechnician?
    case AuditorSetting(id) => c.Approval? && c.id == id && c.op.SetAuditorRequired?
    case SupervisorOp(id) => c.Approval? && c.id == id && (c.op.ApproveBySupervisor? || c.op.RejectBySupervisor?)
    case AuditorOp(id) => c.Approval? && c.id == id && c.op.ApproveByAuditor?
    case Creation(id) => c.CreateRecord? && c.id == id
    case EvidenceWrite(id) => c.SubmitEvidence? && c.id == id
    case StatusWrite(id) =>
      || ((c.CreateRecord? || c.SubmitEvidence? || c.UpdateStatus? || c.Complete? || c.IssueCertificate?) && c.id == id)
    case PendingWrite(id) => c == UpdateStatus(id, PendingApproval)
    case DirectCompletion(id) => c.Complete? && c.id == id
    case CompleterWrite => c.SetAuthorizedCompleter?
    case Certificate(id) => c.IssueCertificate? && c.id == id
  }

  /** The last committed step of kind k, if any. */
  function Latest(h: Run, k: Kind): (r: Option<nat>)
    ensures r.Some? ==> r.value < |h| && Is(h[r.value].call, k)
  {
    if |h| == 0 then None
    else if Committed(h, |h| - 1) && Is(h[|h| - 1].call, k) then Some(|h| - 1)
    else Latest(h[..|h| - 1], k)
  }

  predicate Hit(h: Run, i: nat, k: Kind)
    requires i < |h|
  {
    Committed(h, i) && Is(h[i].call, k)
  }

  lemma {:induction false} LatestHits(h: Run, k: Kind)
    requires Latest(h, k).Some?
    ensures Hit(h, Latest(h, k).value, k)
  {
    var p := h[..|h| - 1];
    if !Hit(h, |h| - 1, k) {
      LatestHits(p, k);
      PrefixCommitted(h, Latest(p, k).value);
    }
  }

  lemma {:induction false} NoHitAfterLatest(h: Run, k: Kind, j: nat)
    requires j < |h| && (Latest(h, k).None? || Latest(h, k).value < j)
    ensures !Hit(h, j, k)
  {
    if j < |h| - 1 {
      NoHitAfterLatest(h[..|h| - 1], k, j);
      PrefixCommitted(h, j);
    }
  }

  /** `Latest` is the maximum of the committed positions of kind k. */
  lemma LatestIsLast(h: Run, k: Kind)
    ensures Latest(h, k).None? <==> forall i: nat | i < |h| :: !Hit(h, i, k)
    ensures Latest(h, k).Some? ==>
              && Hit(h, Latest(h, k).value, k)
              && forall j: nat | Latest(h, k).value < j < |h| :: !Hit(h, j, k)
  {
    if Latest(h, k).Some? { LatestHits(h, k); }
    forall j: nat | j < |h| && (Latest(h, k).None? || Latest(h, k).value < j) ensures !Hit(h, j, k) {
      NoHitAfterLatest(h, k, j);
    }
  }

  lemma LatestIs(h: Run, i: nat, k: Kind)
    requires i < |h| && Hit(h, i, k)
    requires forall j: nat | i < j < |h| :: !Hit(h, j, k)
    ensures Latest(h, k) == Some(i)
  {
    LatestIsLast(h, k);
  }

  // ---- Approval flags ----

  predicate Approves(c: Call) {
    c.Approval? && c.op.ApproveBySupervisor? && c.op.decision[0] == 1
  }

  predicate SupervisorApproved(h: Run, id: Bytes32) {
    var l := Latest(h, SupervisorOp(id));
    l.Some? && Approves(h[l.value].call)
  }

  predicate AuditorRequired(h: Run, id: Bytes32) {
    var l := Latest(h, AuditorSetting(id));
    l.Some? && h[l.value].call.op.required
  }

  /** What one step does to the approval state of `id`. */
  lemma ApprovalStep(s: State, step: Step, id: Bytes32)
    ensures
      var n := Next(s, step).approvals;
      if Commits(s, step) && step.call.Approval? && step.call.id == id
      then id in n && n[id] == Updated(Lookup(s.approvals, id), step.call.op, step.call.caller)
      else (id in n <==> id in s.approvals) && Lookup(n, id) == Lookup(s.approvals, id)
  {
    match step.call
    case IssueCertificate(_, _) => IssueAllOrNothing(s, step);
    case _ =>
  }

  /** The technician flag: some technician approval committed. */
  lemma {:induction false} TechnicianFromHistory(h: Run, id: Bytes32)
    ensures
      var s := Lookup(After(h).approvals, id);
      s.techApproved <==> Latest(h, TechnicianApproval(id)).Some?
  {
    if |h| > 0 {
      TechnicianFromHistory(h[..|h| - 1], id);
      ApprovalStep(After(h[..|h| - 1]), h[|h| - 1], id);
    }
  }

  /** The supervisor flag: the latest committed decision was an approval. */
  lemma {:induction false} SupervisorFromHistory(h: Run, id: Bytes32)
    ensures
      var s := Lookup(After(h).approvals, id);
      s.supervisorApproved <==> SupervisorApproved(h, id)
  {
    if |h| > 0 {
      SupervisorFromHistory(h[..|h| - 1], id);
      ApprovalStep(After(h[..|h| - 1]), h[|h| - 1], id);
    }
  }

  /** The auditor requirement: as last set. */
  lemma {:induction false} SettingFromHistory(h: Run, id: Bytes32)
    ensures
      var s := Lookup(After(h).approvals, id);
      s.auditorRequired <==> AuditorRequired(h, id)
  {
    if |h| > 0 {
      SettingFromHistory(h[..|h| - 1], id);
      ApprovalStep(After(h[..|h| - 1]), h[|h| - 1], id);
    }
  }

  /** The auditor flag: some auditor approval committed. */
  lemma {:induction false} AuditorFromHistory(h: Run, id: Bytes32)
    ensures
      var s := Lookup(After(h).approvals, id);
      s.auditorApproved <==> Latest(h, AuditorOp(id)).Some?
  {
    if |h| > 0 {
      AuditorFromHistory(h[..|h| - 1], id);
      ApprovalStep(After(h[..|h| - 1]), h[|h| - 1], id);
    }
  }

  // ---- What `verify` answers ----

  /** Step i is a committed approval call of any kind on the record. */
  predicate ActsOn(h: Run, i: nat, id: Bytes32)
    requires i < |h|
  {
    Committed(h, i) && h[i].call.Approval? && h[i].call.id == id
  }

  lemma {:induction false} KnownFromHistory(h: Run, id: Bytes32)
    ensures id in After(h).approvals <==> exists i: nat :: i < |h| && ActsOn(h, i, id)
  {
    if |h| > 0 {
      var p, last := h[..|h| - 1], |h| - 1;
      KnownFromHistory(p, id);
      ApprovalStep(After(p), h[last], id);
      if i: nat :| i < |p| && ActsOn(p, i, id) {
        PrefixCommitted(h, i);
        assert ActsOn(h, i, id);
      }
      if i: nat :| i < |h| && ActsOn(h, i, id) {
        if i < last {
          PrefixCommitted(h, i);
          assert ActsOn(p, i, id);
        }
      }
      if Commits(After(p), h[last]) && h[last].call.Approval? && h[last].call.id == id {
        assert ActsOn(h, last, id);
      }
    }
  }

  /** The approvals a certificate needs are all in place. */
  predicate FullyApproved(h: Run, id: Bytes32) {
    && Latest(h, TechnicianApproval(id)).Some? && SupervisorApproved(h, id)
    && (AuditorRequired(h, id) ==> Latest(h, AuditorOp(id)).Some?)
  }

  /** No approval call was ever committed for the record. */
  predicate Unknown(h: Run, id: Bytes32) {
    forall i: nat | i < |h| :: !ActsOn(h, i, id)
  }

  /** `verify` traps exactly on records no approval call was ever committed for. On every
      other it answers whether a technician approved, the latest supervisor decision was an
      approval, and an auditor approved if the latest setting asks for one. */
  lemma VerifyFromHistory(h: Run, id: Bytes32)
    ensures
      Verify(After(h).approvals, id) == if Unknown(h, id) then Panic(ApprovalStateNotFound) else Ok(FullyApproved(h, id))
  {
    KnownFromHistory(h, id);
    TechnicianFromHistory(h, id);
    SupervisorFromHistory(h, id);
    SettingFromHistory(h, id);
    AuditorFromHistory(h, id);
  }

  // ---- Record status ----

  /** The status a committed status-writing call leaves behind. */
  function WrittenStatus(c: Call): Status {
    match c
    case CreateRecord(_, _, _) => Open
    case SubmitEvidence(_, _, _) => Submitted
    case UpdateStatus(_, status) => status
    case _ => Compliant
  }

  /** What one step does to the order stored for `id`. */
  lemma OrderStep(s: State, step: Step, id: Bytes32)
    ensures
      var o, n := s.records.orders, Next(s, step).records.orders;
      if Commits(s, step) && Is(step.call, StatusWrite(id))
      then
        && id in n && n[id].status == WrittenStatus(step.call)
        && (id in o <==> !step.call.CreateRecord?)
        && (id in o ==> n[id].technician == o[id].technician && n[id].equipment == o[id].equipment && n[id].createdAt == o[id].createdAt)
      else (id in n <==> id in o) && (id in o ==> n[id] == o[id])
  {
    match step.call
    case IssueCertificate(_, _) => IssueAllOrNothing(s, step);
    case _ =>
  }

  /** A record exists once created, and its status is the last one written. */
  lemma {:induction false} StatusFromHistory(h: Run, id: Bytes32)
    ensures
      var o := After(h).records.orders;
      var l := Latest(h, StatusWrite(id));
      && (id in o <==> Latest(h, Creation(id)).Some?)
      && (id in o <==> l.Some?)
      && (id in o ==> o[id].status == WrittenStatus(h[l.value].call))
  {
    if |h| > 0 {
      var p, last := h[..|h| - 1], h[|h| - 1];
      StatusFromHistory(p, id);
      OrderStep(After(p), last, id);
      assert Is(last.call, Creation(id)) ==> Is(last.call, StatusWrite(id));
    }
  }

  /** The fixed part of an order is that of the one creation that committed, and its
      evidence is the last submitted. */
  lemma {:induction false} OrderFromHistory(h: Run, id: Bytes32)
    ensures
      var o := After(h).records.orders;
      var c, e := Latest(h, Creation(id)), Latest(h, EvidenceWrite(id));
      && (id in o <==> c.Some?)
      && (id in o ==>
        && o[id].equipment == h[c.value].call.equipment && o[id].technician == h[c.value].call.tech
        && o[id].createdAt == h[c.value].now
        && o[id].evidence == if e.Some? then Some(h[e.value].call.evidence) else None)
      && (e.Some? ==> c.Some?)
  {
    if |h| > 0 {
      OrderFromHistory(h[..|h| - 1], id);
      OrderFieldsStep(After(h[..|h| - 1]), h[|h| - 1], id);
    }
  }

  lemma OrderFieldsStep(s: State, step: Step, id: Bytes32)
    ensures
      var o, n := s.records.orders, Next(s, step).records.orders;
      if Commits(s, step) && Is(step.call, Creation(id)) then
        && id !in o && id in n && n[id].equipment == step.call.equipment && n[id].technician == step.call.tech
        && n[id].createdAt == step.now && n[id].evidence.None?
      else
        && (id in n <==> id in o)
        && (Commits(s, step) && Is(step.call, EvidenceWrite(id)) ==> id in o)
        && (id in o ==> n[id] == o[id].(status := n[id].status, evidence :=
          if Commits(s, step) && Is(step.call, EvidenceWrite(id)) then Some(step.call.evidence) else o[id].evidence))
  {
    match step.call
    case IssueCertificate(_, _) => IssueAllOrNothing(s, step);
    case _ =>
  }

  predicate Pending(h: Run, id: Bytes32) {
    var l := Latest(h, StatusWrite(id));
    l.Some? && h[l.value].call == UpdateStatus(id, PendingApproval)
  }

  lemma PendingFromHistory(h: Run, id: Bytes32)
    ensures
      var o := After(h).records.orders;
      (id in o && o[id].status == PendingApproval) <==> Pending(h, id)
  {
    StatusFromHistory(h, id);
  }

  // ---- Completer ----

  lemma CompleterStep(s: State, step: Step)
    ensures Next(s, step).records.completer ==
            if Commits(s, step) && Is(step.call, CompleterWrite) then Some(step.call.authorized) else s.records.completer
  {
    match step.call
    case IssueCertificate(_, _) => IssueAllOrNothing(s, step);
    case _ =>
  }

  /** The completer is the address last set, if one was. */
  lemma {:induction false} CompleterFromHistory(h: Run)
    ensures
      var l := Latest(h, CompleterWrite);
      After(h).records.completer == if l.Some? then Some(h[l.value].call.authorized) else None
  {
    if |h| > 0 {
      CompleterFromHistory(h[..|h| - 1]);
      CompleterStep(After(h[..|h| - 1]), h[|h| - 1]);
    }
  }

  predicate CompleterIs(h: Run, a: Address) {
    var l := Latest(h, CompleterWrite);
    l.Some? && h[l.value].call.authorized == a
  }

  /** When each record call commits, in terms of the history before it. */
  predicate RecordCallAllowed(h: Run, step: Step) {
    match step.call
    case CreateRecord(id, _, tech) => tech in step.signers && Latest(h, Creation(id)).None?
    case SubmitEvidence(id, _, caller) =>
      var c := Latest(h, Creation(id));
      caller in step.signers && c.Some? && h[c.value].call.tech == caller
    case UpdateStatus(id, _) => Latest(h, Creation(id)).Some?
    case SetAuthorizedCompleter(_, caller) =>
      caller in step.signers && (Latest(h, CompleterWrite).None? || CompleterIs(h, caller))
    case Complete(id, a) => a in step.signers && CompleterIs(h, a) && Pending(h, id)
    case _ => true
  }

  /** A record call commits exactly when the history allows it. */
  lemma RecordCallExactlyWhen(h: Run, i: nat)
    requires i < |h| && !h[i].call.Approval? && !h[i].call.IssueCertificate?
    ensures Committed(h, i) <==> RecordCallAllowed(h[..i], h[i])
  {
    CompleterFromHistory(h[..i]);
    if !h[i].call.SetAuthorizedCompleter? {
      OrderFromHistory(h[..i], h[i].call.id);
      PendingFromHistory(h[..i], h[i].call.id);
    }
  }

  // ---- Certificates ----

  /** The declarative condition for a certificate, read off the history alone. */
  predicate Certifiable(h: Run, id: Bytes32) {
    FullyApproved(h, id) && Pending(h, id) && CompleterIs(h, SELF)
  }

  /** A certificate call commits exactly when the history before it is certifiable. */
  lemma CertificateExactlyWhen(h: Run, i: nat)
    requires i < |h| && h[i].call.IssueCertificate?
    ensures Committed(h, i) <==> Certifiable(h[..i], h[i].call.id)
  {
    var id := h[i].call.id;
    TechnicianFromHistory(h[..i], id);
    SupervisorFromHistory(h[..i], id);
    SettingFromHistory(h[..i], id);
    AuditorFromHistory(h[..i], id);
    PendingFromHistory(h[..i], id);
    CompleterFromHistory(h[..i]);
    IssueAllOrNothing(After(h[..i]), h[i]);
  }

  // ---- Why a call traps ----

  /** The reason a record call is refused for, in terms of the history before it. */
  predicate RefusedFor(h: Run, step: Step, t: Trap) {
    var created := !step.call.SetAuthorizedCompleter? && Latest(h, Creation(step.call.id)).Some?;
    match step.call
    case CreateRecord(_, _, tech) =>
      || (t == Unauthorized && tech !in step.signers)
      || (t == RecordExists && tech in step.signers && created)
    case SubmitEvidence(id, _, caller) =>
      || (t == Unauthorized && caller !in step.signers)
      || (t == RecordNotFound && caller in step.signers && !created)
      || (t == NotTechnician && caller in step.signers && created && h[Latest(h, Creation(id)).value].call.tech != caller)
    case UpdateStatus(_, _) => t == RecordNotFound && !created
    case SetAuthorizedCompleter(_, caller) =>
      || (t == Unauthorized && caller !in step.signers)
      || (t == NotCurrentCompleter && caller in step.signers && Latest(h, CompleterWrite).Some? && !CompleterIs(h, caller))
    case Complete(_, a) => if a !in step.signers then t == Unauthorized else CompletionRefusedFor(h, step.call.id, a, t)
    case _ => false
  }

  /** Why an authorized completion by a is refused. */
  predicate CompletionRefusedFor(h: Run, id: Bytes32, a: Address, t: Trap) {
    || (t == CompleterNotConfigured && Latest(h, CompleterWrite).None?)
    || (t == WrongCompleter && Latest(h, CompleterWrite).Some? && !CompleterIs(h, a))
    || (t == RecordNotFound && CompleterIs(h, a) && Latest(h, Creation(id)).None?)
    || (t == NotPendingApproval && CompleterIs(h, a) && Latest(h, Creation(id)).Some? && !Pending(h, id))
  }

  lemma CompletionTrap(h: Run, env: Env, id: Bytes32, a: Address, t: Trap)
    requires env.Authorizes(a)
    ensures Completed(After(h).records, env, id, a) == Panic(t) <==> CompletionRefusedFor(h, id, a, t)
  {
    CompleterFromHistory(h);
    StatusFromHistory(h, id);
    PendingFromHistory(h, id);
  }

  lemma CreateTrap(h: Run, step: Step, t: Trap)
    requires step.call.CreateRecord?
    ensures Effect(After(h), step) == Panic(t) <==> RefusedFor(h, step, t)
  {
    StatusFromHistory(h, step.call.id);
  }

  lemma SubmitTrap(h: Run, step: Step, t: Trap)
    requires step.call.SubmitEvidence?
    ensures Effect(After(h), step) == Panic(t) <==> RefusedFor(h, step, t)
  {
    OrderFromHistory(h, step.call.id);
  }

  lemma UpdateTrap(h: Run, step: Step, t: Trap)
    requires step.call.UpdateStatus?
    ensures Effect(After(h), step) == Panic(t) <==> RefusedFor(h, step, t)
  {
    StatusFromHistory(h, step.call.id);
  }

  lemma CompleterTrap(h: Run, step: Step, t: Trap)
    requires step.call.SetAuthorizedCompleter?
    ensures Effect(After(h), step) == Panic(t) <==> RefusedFor(h, step, t)
  {
    CompleterFromHistory(h);
  }

  lemma CompleteTrap(h: Run, step: Step, t: Trap)
    requires step.call.Complete?
    ensures Effect(After(h), step) == Panic(t) <==> RefusedFor(h, step, t)
  {
    if step.Env().Authorizes(step.call.attestation) {
      CompletionTrap(h, step.Env(), step.call.id, step.call.attestation, t);
    }
  }

  /** A record call traps for exactly that reason. */
  lemma RecordTrapFromHistory(h: Run, step: Step, t: Trap)
    requires !step.call.Approval? && !step.call.IssueCertificate?
    ensures Effect(After(h), step) == Panic(t) <==> RefusedFor(h, step, t)
  {
    match step.call
    case CreateRecord(_, _, _) => CreateTrap(h, step, t);
    case SubmitEvidence(_, _, _) => SubmitTrap(h, step, t);
    case UpdateStatus(_, _) => UpdateTrap(h, step, t);
    case SetAuthorizedCompleter(_, _) => CompleterTrap(h, step, t);
    case Complete(_, _) => CompleteTrap(h, step, t);
  }

  /** A certificate call traps because nothing is known of the record, because the
      approvals are not complete, or for the reason its completion does. */
  lemma CertificateTrapFromHistory(h: Run, step: Step, t: Trap)
    requires step.call.IssueCertificate?
    ensures
      Effect(After(h), step) == Panic(t) <==>
      if Unknown(h, step.call.id) then t == ApprovalStateNotFound
      else if !FullyApproved(h, step.call.id) then t == NotEligible
      else CompletionRefusedFor(h, step.call.id, SELF, t)
  {
    VerifyFromHistory(h, step.call.id);
    CompletionTrap(h, Nested(step.Env()), step.call.id, SELF, t);
  }

  // ---- Attestations ----

  lemma AttestationStep(s: State, step: Step, id: Bytes32)
    ensures
      var a, n := s.attestations, Next(s, step).attestations;
      if Commits(s, step) && Is(step.call, Certificate(id))
      then id in n && n[id] == Attestation(step.now, SELF, step.call.certHash)
      else (id in n <==> id in a) && (id in n ==> n[id] == a[id])
  {
    match step.call
    case IssueCertificate(_, _) => IssueAllOrNothing(s, step);
    case _ =>
  }

  /** The stored attestation is the one of the latest committed certificate. */
  lemma {:induction false} AttestationFromHistory(h: Run, id: Bytes32)
    ensures
      var a := After(h).attestations;
      var l := Latest(h, Certificate(id));
      && (id in a <==> l.Some?)
      && (id in a ==> a[id] == Attestation(h[l.value].now, SELF, h[l.value].call.certHash))
  {
    if |h| > 0 {
      AttestationFromHistory(h[..|h| - 1], id);
      AttestationStep(After(h[..|h| - 1]), h[|h| - 1], id);
    }
  }

  predicate CertificateStep(h: Run, i: nat, id: Bytes32)
    requires i < |h|
  {
    Is(h[i].call, Certificate(id)) && Certifiable(h[..i], id)
  }

  lemma CertificateStepIsHit(h: Run, i: nat, id: Bytes32)
    requires i < |h|
    ensures CertificateStep(h, i, id) <==> Hit(h, i, Certificate(id))
  {
    if Is(h[i].call, Certificate(id)) {
      CertificateExactlyWhen(h, i);
    }
  }

  /** An attestation is stored for `id` exactly when some step asked for a certificate
      on a certifiable history. */
  lemma AttestationProvenance(h: Run, id: Bytes32)
    ensures id in After(h).attestations <==> exists i: nat :: i < |h| && CertificateStep(h, i, id)
  {
    AttestationFromHistory(h, id);
    LatestIsLast(h, Certificate(id));
    forall i: nat | i < |h| ensures CertificateStep(h, i, id) <==> Hit(h, i, Certificate(id)) {
      CertificateStepIsHit(h, i, id);
    }
    var l := Latest(h, Certificate(id));
    if l.Some? {
      assert CertificateStep(h, l.value, id);
    }
  }

  /** The stored attestation is that of the last such step. */
  lemma AttestationIsLast(h: Run, i: nat, id: Bytes32)
    requires i < |h| && CertificateStep(h, i, id)
    requires forall j: nat | i < j < |h| :: !CertificateStep(h, j, id)
    ensures id in After(h).attestations
    ensures After(h).attestations[id] == Attestation(h[i].now, SELF, h[i].call.certHash)
  {
    CertificateStepIsHit(h, i, id);
    forall j: nat | i < j < |h| ensures !Hit(h, j, Certificate(id)) {
      CertificateStepIsHit(h, j, id);
    }
    LatestIs(h, i, Certificate(id));
    AttestationFromHistory(h, id);
  }
}
