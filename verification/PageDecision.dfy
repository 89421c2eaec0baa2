/** What the approve page's decision word does on the ledger. */
module PageDecision {
  import opened Basics
  import opened Host
  import opened ApprovalContract
  import opened History
  import IdCodec

  /** The decision is what the browser sends for the page's literal. */
  predicate IsPageWord(decision: Bytes32) {
    decision == IdCodec.Bytes32ScVal(IdCodec.DecisionHex())
  }

  /** An accepted approval differs from a rejection exactly when its first byte is one. */
  lemma ApprovalByFirstByte(st: Storage, env: Env, id: Bytes32, decision: Bytes32, caller: Address)
    requires Perform(st, env, id, RejectBySupervisor, caller).Ok?
    ensures Perform(st, env, id, ApproveBySupervisor(decision), caller) == Perform(st, env, id, RejectBySupervisor, caller)
            <==> decision[0] != 1
  {
    var s := Lookup(st, id);
    var yes, no := Updated(s, ApproveBySupervisor(decision), caller), Updated(s, RejectBySupervisor, caller);
    assert st[id := yes][id] == yes && st[id := no][id] == no;
    assert yes == no <==> decision[0] != 1;
  }

  lemma OtherByteIsRejection(st: Storage, env: Env, id: Bytes32, decision: Bytes32, caller: Address)
    requires decision[0] != 1
    ensures Perform(st, env, id, ApproveBySupervisor(decision), caller) == Perform(st, env, id, RejectBySupervisor, caller)
  {
    var s := Lookup(st, id);
    assert Updated(s, ApproveBySupervisor(decision), caller) == Updated(s, RejectBySupervisor, caller);
  }

  /** The page's approval, whose set byte is the last, is a rejection for every caller and state. */
  lemma PageApprovalIsRejection(st: Storage, env: Env, id: Bytes32, decision: Bytes32, caller: Address)
    requires IsPageWord(decision)
    ensures Perform(st, env, id, ApproveBySupervisor(decision), caller) == Perform(st, env, id, RejectBySupervisor, caller)
  {
    FirstByteIsZero(decision);
    OtherByteIsRejection(st, env, id, decision, caller);
  }

  lemma FirstByteIsZero(decision: Bytes32)
    requires IsPageWord(decision)
    ensures decision[0] == 0
  {
    IdCodec.DecisionWordBytes();
  }

  predicate DecidesThroughPage(h: Run) {
    forall i | 0 <= i < |h| && h[i].call.Approval? && h[i].call.op.ApproveBySupervisor? :: IsPageWord(h[i].call.op.decision)
  }

  /** If every supervisor approval of a run comes from the page, the run never
      certifies anything. */
  lemma PageNeverCertifies(h: Run)
    requires DecidesThroughPage(h)
    ensures After(h).attestations == map[]
  {
    forall id: Bytes32 ensures id !in After(h).attestations {
      forall i: nat | i < |h| ensures !CertificateStep(h, i, id) {
        var p := h[..i];
        var l := Latest(p, SupervisorOp(id));
        if l.Some? && Approves(p[l.value].call) {
          assert p[l.value] == h[l.value];
          FirstByteIsZero(p[l.value].call.op.decision);
        }
      }
      AttestationProvenance(h, id);
    }
  }
}
