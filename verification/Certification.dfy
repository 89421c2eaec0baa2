/** Records do not interfere, and certificates are bounded and backed. */
module Isolation {
  import opened Basics
  import opened ApprovalContract
  import opened RecordsContract
  import opened AttestationContract
  import opened Ledger
  import opened History

  /** All the ledger stores about one record, with the shared completer setting. */
  datatype Slice = Slice(approval: Option<ApprovalState>, order: Option<Order>, attestation: Option<Attestation>, completer: Option<Address>)

  function Get<V>(m: map<Bytes32, V>, id: Bytes32): Option<V> {
    if id in m then Some(m[id]) else None
  }

  function SliceOf(s: State, id: Bytes32): Slice {
    Slice(Get(s.approvals, id), Get(s.records.orders, id), Get(s.attestations, id), s.records.completer)
  }

  predicate Concerns(c: Call, id: Bytes32) {
    c.SetAuthorizedCompleter? || c.id == id
  }

  function Restrict(h: Run, id: Bytes32): Run {
    if |h| == 0 then []
    else
      var r := Restrict(h[..|h| - 1], id);
      if Concerns(h[|h| - 1].call, id) then r + [h[|h| - 1]] else r
  }

  lemma OtherStepKeepsSlice(s: State, step: Step, id: Bytes32)
    requires !Concerns(step.call, id)
    ensures SliceOf(Next(s, step), id) == SliceOf(s, id)
  {
    match step.call
    case IssueCertificate(_, _) => IssueAllOrNothing(s, step);
    case _ =>
  }

  /** A step ends the same way from both states and leaves the same about the record. */
  predicate StepsAlike(s: State, t: State, step: Step, id: Bytes32) {
    && SliceOf(Next(s, step), id) == SliceOf(Next(t, step), id)
    && Commits(s, step) == Commits(t, step)
    && (!Commits(s, step) ==> Effect(s, step) == Effect(t, step))
  }

  lemma IssueBySlice(s: State, t: State, step: Step, id: Bytes32)
    requires step.call.IssueCertificate? && step.call.id == id && SliceOf(s, id) == SliceOf(t, id)
    ensures StepsAlike(s, t, step, id)
  {
    assert Verify(s.approvals, id) == Verify(t.approvals, id);
    IssueAllOrNothing(s, step);
    IssueAllOrNothing(t, step);
  }

  lemma ApprovalBySlice(s: State, t: State, step: Step, id: Bytes32)
    requires step.call.Approval? && step.call.id == id && SliceOf(s, id) == SliceOf(t, id)
    ensures StepsAlike(s, t, step, id)
  {
    assert Lookup(s.approvals, id) == Lookup(t.approvals, id);
  }

  lemma CreateBySlice(s: State, t: State, step: Step, id: Bytes32)
    requires step.call.CreateRecord? && step.call.id == id && SliceOf(s, id) == SliceOf(t, id)
    ensures StepsAlike(s, t, step, id)
  {
  }

  lemma SubmitBySlice(s: State, t: State, step: Step, id: Bytes32)
    requires step.call.SubmitEvidence? && step.call.id == id && SliceOf(s, id) == SliceOf(t, id)
    ensures StepsAlike(s, t, step, id)
  {
  }

  lemma UpdateBySlice(s: State, t: State, step: Step, id: Bytes32)
    requires step.call.UpdateStatus? && step.call.id == id && SliceOf(s, id) == SliceOf(t, id)
    ensures StepsAlike(s, t, step, id)
  {
  }

  lemma CompleteBySlice(s: State, t: State, step: Step, id: Bytes32)
    requires step.call.Complete? && step.call.id == id && SliceOf(s, id) == SliceOf(t, id)
    ensures StepsAlike(s, t, step, id)
  {
  }

  lemma CompleterBySlice(s: State, t: State, step: Step, id: Bytes32)
    requires step.call.SetAuthorizedCompleter? && SliceOf(s, id) == SliceOf(t, id)
    ensures StepsAlike(s, t, step, id)
  {
  }

  lemma OwnStepBySlice(s: State, t: State, step: Step, id: Bytes32)
    requires Concerns(step.call, id) && SliceOf(s, id) == SliceOf(t, id)
    ensures StepsAlike(s, t, step, id)
  {
    match step.call
    case Approval(_, _, _) => ApprovalBySlice(s, t, step, id);
    case CreateRecord(_, _, _) => CreateBySlice(s, t, step, id);
    case SubmitEvidence(_, _, _) => SubmitBySlice(s, t, step, id);
    case UpdateStatus(_, _) => UpdateBySlice(s, t, step, id);
    case SetAuthorizedCompleter(_, _) => CompleterBySlice(s, t, step, id);
    case Complete(_, _) => CompleteBySlice(s, t, step, id);
    case IssueCertificate(_, _) => IssueBySlice(s, t, step, id);
  }

  /** Non-interference: what the ledger stores about a record after a run is what it
      would store after only the steps naming that record and the completer settings. */
  lemma {:induction false} NonInterference(h: Run, id: Bytes32)
    ensures SliceOf(After(h), id) == SliceOf(After(Restrict(h, id)), id)
  {
    if |h| > 0 {
      var p, last := h[..|h| - 1], h[|h| - 1];
      NonInterference(p, id);
      if Concerns(last.call, id) {
        var r := Restrict(h, id);
        assert r[..|r| - 1] == Restrict(p, id) && r[|r| - 1] == last;
        OwnStepBySlice(After(p), After(Restrict(p, id)), last, id);
      } else {
        OtherStepKeepsSlice(After(p), last, id);
      }
    }
  }

  /** ... and each such step ends the same way in both runs. */
  lemma SameOutcome(h: Run, i: nat, id: Bytes32)
    requires i < |h| && Concerns(h[i].call, id)
    ensures Committed(h, i) == Commits(After(Restrict(h[..i], id)), h[i])
    ensures !Committed(h, i) ==> Effect(After(h[..i]), h[i]) == Effect(After(Restrict(h[..i], id)), h[i])
  {
    NonInterference(h[..i], id);
    OwnStepBySlice(After(h[..i]), After(Restrict(h[..i], id)), h[i], id);
  }

  /** The slices are all of the state. */
  lemma SlicesDetermine(s: State, t: State)
    requires forall id: Bytes32 :: SliceOf(s, id) == SliceOf(t, id)
    ensures s == t
  {
    forall id: Bytes32
      ensures Get(s.approvals, id) == Get(t.approvals, id)
      ensures Get(s.records.orders, id) == Get(t.records.orders, id)
      ensures Get(s.attestations, id) == Get(t.attestations, id)
    {
      assert SliceOf(s, id) == SliceOf(t, id);
    }
    MapsAgree(s.approvals, t.approvals);
    MapsAgree(s.records.orders, t.records.orders);
    MapsAgree(s.attestations, t.attestations);
    var anyId: Bytes32 := seq(32, _ => 0);
    assert SliceOf(s, anyId) == SliceOf(t, anyId);
  }

  lemma MapsAgree<V>(m: map<Bytes32, V>, n: map<Bytes32, V>)
    requires forall id: Bytes32 :: Get(m, id) == Get(n, id)
    ensures m == n
  {
    forall id: Bytes32 ensures id in m <==> id in n {
      assert Get(m, id) == Get(n, id);
    }
    forall id: Bytes32 | id in m ensures m[id] == n[id] {
      assert Get(m, id) == Get(n, id);
    }
  }

  /** Hence the whole ledger depends only on the order of the steps within each record
      (with the completer settings), not on how the records interleave. */
  lemma InterleavingIrrelevant(h: Run, g: Run)
    requires forall id: Bytes32 :: Restrict(h, id) == Restrict(g, id)
    ensures After(h) == After(g)
  {
    forall id: Bytes32 ensures SliceOf(After(h), id) == SliceOf(After(g), id) {
      NonInterference(h, id);
      NonInterference(g, id);
      assert Restrict(h, id) == Restrict(g, id);
    }
    SlicesDetermine(After(h), After(g));
  }

  lemma RestrictSnoc(p: Run, a: Step, id: Bytes32)
    ensures Restrict(p + [a], id) == if Concerns(a.call, id) then Restrict(p, id) + [a] else Restrict(p, id)
  {
    assert (p + [a])[..|p|] == p;
  }

  /** In particular, adjacent steps on different records commute. */
  lemma StepsCommute(p: Run, a: Step, b: Step)
    requires !a.call.SetAuthorizedCompleter? && !b.call.SetAuthorizedCompleter? && a.call.id != b.call.id
    ensures After(p + [a] + [b]) == After(p + [b] + [a])
  {
    forall id: Bytes32 ensures Restrict(p + [a] + [b], id) == Restrict(p + [b] + [a], id) {
      RestrictSnoc(p, a, id);
      RestrictSnoc(p, b, id);
      RestrictSnoc(p + [a], b, id);
      RestrictSnoc(p + [b], a, id);
    }
    InterleavingIrrelevant(p + [a] + [b], p + [b] + [a]);
  }
}

module Certification {
  import opened Basics
  import opened RecordsContract
  import opened AttestationContract
  import opened Ledger
  import opened History

  /** How many committed steps of kind k a run has. */
  function Count(h: Run, k: Kind): nat {
    if |h| == 0 then 0
    else Count(h[..|h| - 1], k) + if Hit(h, |h| - 1, k) then 1 else 0
  }

  function IsPending(s: State, id: Bytes32): nat {
    if id in s.records.orders && s.records.orders[id].status == PendingApproval then 1 else 0
  }

  lemma IssueSpendsPending(s: State, step: Step, id: Bytes32)
    requires Is(step.call, Certificate(id)) && Commits(s, step)
    ensures IsPending(s, id) == 1 && IsPending(Next(s, step), id) == 0
  {
    IssueAllOrNothing(s, step);
  }

  lemma CompleteSpendsPending(s: State, step: Step, id: Bytes32)
    requires Is(step.call, DirectCompletion(id)) && Commits(s, step)
    ensures IsPending(s, id) == 1 && IsPending(Next(s, step), id) == 0
  {
  }

  lemma OnlyWritesPend(s: State, step: Step, id: Bytes32)
    requires !(Is(step.call, PendingWrite(id)) && Commits(s, step))
    ensures IsPending(Next(s, step), id) <= IsPending(s, id)
  {
    OrderStep(s, step, id);
  }

  /** Each completion, by certificate or directly, uses up one move to PendingApproval. */
  lemma {:induction false} CompletionsBounded(h: Run, id: Bytes32)
    ensures Count(h, Certificate(id)) + Count(h, DirectCompletion(id)) + IsPending(After(h), id) <= Count(h, PendingWrite(id))
  {
    if |h| > 0 {
      var p, last := h[..|h| - 1], h[|h| - 1];
      var s := After(p);
      CompletionsBounded(p, id);
      if !(Is(last.call, PendingWrite(id)) && Commits(s, last)) { OnlyWritesPend(s, last, id); }
      if Is(last.call, Certificate(id)) && Commits(s, last) { IssueSpendsPending(s, last, id); }
      if Is(last.call, DirectCompletion(id)) && Commits(s, last) { CompleteSpendsPending(s, last, id); }
    }
  }

  lemma LatestInPrefix(h: Run, i: nat, k: Kind)
    requires i <= |h|
    ensures
      match Latest(h[..i], k)
      case None => forall m: nat | m < i :: !Hit(h, m, k)
      case Some(l) => l < i && Hit(h, l, k) && forall m: nat | l < m < i :: !Hit(h, m, k)
  {
    var p := h[..i];
    LatestIsLast(p, k);
    forall m: nat | m < i ensures Hit(p, m, k) == Hit(h, m, k) {
      assert p[..m] == h[..m];
    }
  }

  lemma PendingBeforeCertificate(h: Run, i: nat, id: Bytes32) returns (k: nat)
    requires i < |h| && Is(h[i].call, Certificate(id)) && Committed(h, i)
    ensures k < i && Hit(h, k, PendingWrite(id)) && forall m: nat | k < m < i :: !Hit(h, m, StatusWrite(id))
  {
    CertificateExactlyWhen(h, i);
    LatestInPrefix(h, i, StatusWrite(id));
    k := Latest(h[..i], StatusWrite(id)).value;
  }

  /** The last status write before a committed certificate is `update_status` to
      PendingApproval, so submitting evidence blocks certification until it is repeated. */
  lemma EvidenceBlocksCertificate(h: Run, j: nat, i: nat, id: Bytes32)
    requires j < i < |h|
    requires h[j].call.SubmitEvidence? && h[j].call.id == id && Committed(h, j)
    requires Is(h[i].call, Certificate(id)) && Committed(h, i)
    ensures exists k: nat :: j < k < i && Hit(h, k, PendingWrite(id)) &&
              forall m: nat | k < m < i :: !Hit(h, m, StatusWrite(id))
  {
    var k := PendingBeforeCertificate(h, i, id);
    assert Hit(h, j, StatusWrite(id));
    assert j < k;
  }

  /** A contract address authorizes only the calls that contract makes itself. */
  predicate SelfNeverSigns(h: Run) {
    forall i | 0 <= i < |h| :: SELF !in h[i].signers
  }

  /** Once the completer is the attestation contract it stays so. */
  lemma {:induction false} CompleterLocks(h: Run, i: nat)
    requires i <= |h| && SelfNeverSigns(h)
    requires After(h[..i]).records.completer == Some(SELF)
    ensures After(h).records.completer == Some(SELF)
  {
    if i < |h| {
      var p := h[..|h| - 1];
      assert p[..i] == h[..i];
      CompleterLocks(p, i);
      CompleterStep(After(p), h[|h| - 1]);
    } else {
      assert h[..i] == h;
    }
  }

  /** Where a Compliant status comes from. */
  lemma CompliantOrigin(h: Run, id: Bytes32)
    ensures
      var o := After(h).records.orders;
      var l := Latest(h, StatusWrite(id));
      (id in o && o[id].status == Compliant) <==>
      l.Some? && (var c := h[l.value].call; c.IssueCertificate? || c.Complete? || c == UpdateStatus(id, Compliant))
  {
    StatusFromHistory(h, id);
  }

  /** Exactly when a Compliant record has no attestation: its status was last written by a
      direct completion or by hand, and no certificate was ever committed for it. */
  lemma UnattestedExactlyWhen(h: Run, id: Bytes32)
    ensures
      var o := After(h).records.orders;
      var l := Latest(h, StatusWrite(id));
      (id in o && o[id].status == Compliant && id !in After(h).attestations) <==>
      && l.Some? && (h[l.value].call.Complete? || h[l.value].call == UpdateStatus(id, Compliant))
      && Latest(h, Certificate(id)).None?
  {
    CompliantOrigin(h, id);
    AttestationFromHistory(h, id);
    LatestIsLast(h, StatusWrite(id));
    LatestIsLast(h, Certificate(id));
    var l := Latest(h, StatusWrite(id));
    if l.Some? && h[l.value].call.IssueCertificate? {
      assert Hit(h, l.value, Certificate(id));
    }
  }

  lemma AfterSnoc(p: Run, step: Step)
    ensures After(p + [step]) == Next(After(p), step)
  {
    assert (p + [step])[..|p|] == p;
  }

  /** And that happens: anyone can write the status of a fresh record by hand. */
  lemma HandWrittenCompliance(id: Bytes32, equipment: Bytes32, tech: Address, now: U64)
    ensures
      var s := After([Step(CreateRecord(id, equipment, tech), {tech}, now), Step(UpdateStatus(id, Compliant), {}, now)]);
      id in s.records.orders && s.records.orders[id].status == Compliant && id !in s.attestations
  {
    var create, write := Step(CreateRecord(id, equipment, tech), {tech}, now), Step(UpdateStatus(id, Compliant), {}, now);
    AfterSnoc([], create);
    AfterSnoc([create], write);
    assert [] + [create] == [create] && [create] + [write] == [create, write];
  }

  /** Only the attestation contract was ever authorized, and no step writes Compliant by hand. */
  predicate Disciplined(h: Run, id: Bytes32) {
    && SelfNeverSigns(h)
    && (forall i: nat | i < |h| :: Hit(h, i, CompleterWrite) ==> h[i].call.authorized == SELF)
    && (forall i | 0 <= i < |h| :: h[i].call != UpdateStatus(id, Compliant))
  }

  lemma NoDirectCompletion(h: Run, i: nat, id: Bytes32)
    requires i < |h| && Disciplined(h, id) && h[i].call.Complete?
    ensures !Committed(h, i)
  {
    CompleterFromHistory(h[..i]);
    LatestInPrefix(h, i, CompleterWrite);
  }

  /** In a disciplined run every Compliant record has an attestation. */
  lemma CompliantIsAttested(h: Run, id: Bytes32)
    requires Disciplined(h, id)
    ensures id in After(h).records.orders && After(h).records.orders[id].status == Compliant ==> id in After(h).attestations
  {
    UnattestedExactlyWhen(h, id);
    LatestIsLast(h, StatusWrite(id));
    var l := Latest(h, StatusWrite(id));
    if l.Some? && h[l.value].call.Complete? {
      NoDirectCompletion(h, l.value, id);
    }
  }
}
