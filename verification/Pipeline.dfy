/** `invokeContract`: simulate, sign, submit and poll, against arbitrary RPC and wallet replies. */
module Pipeline {
  import opened Basics

  const MAX_POLL_ATTEMPTS: nat := 15

  /** The `status` field of an RPC reply; anything unrecognised is `Other`. */
  datatype RpcStatus = PENDING | SUCCESS | FAILED | Other(text: string)

  datatype Simulation = SimulationThrows | SimulationError | NoTransactionData | UnreadableData | Simulated

  datatype Signature = SigningThrows | SigningError | NoSignedXdr | Signed

  datatype Submission = SubmissionThrows | Submitted(hash: Option<string>, status: RpcStatus)

  datatype Poll = PollThrows | Polled(status: RpcStatus)

  /** Everything the outside world answers during one invocation. */
  datatype Oracle = Oracle(
    buildable: bool,
    sequenceFound: bool,
    simulation: Simulation,
    signature: Signature,
    submission: Submission,
    polls: nat -> Poll)

  datatype TxStatus =
    | Simulating
    | AwaitingSignature
    | Submitting
    | Pending(attempt: nat, maxAttempts: nat)
    | Success(hash: string)
    | Timeout(hash: string)
    | Failed

  datatype Outcome = Returned(hash: string) | TimedOut(hash: string) | Threw

  /** An empty or absent hash becomes 'unknown'. */
  function TxHash(hash: Option<string>): string {
    if hash.None? || hash.value == "" then "unknown" else hash.value
  }

  method InvokeContract(o: Oracle) returns (trace: seq<TxStatus>, outcome: Outcome)
    ensures trace == Trace(o)
    ensures outcome == Decided(o)
  {
    var submitted;
    trace, submitted := SimulateSignSubmit(o);
    if !submitted {
      assert FORWARD[..Reached(o)] + PendingRun(0) == FORWARD[..Reached(o)];
      return trace, Threw;
    }
    var txHash := TxHash(o.submission.hash);
    var txStatus, pending := o.submission.status, [];
    if txStatus == PENDING {
      pending, txStatus := PollForCompletion(o.polls);
    }
    assert pending == PendingRun(PollCount(o)) && txStatus == FinalStatus(o);
    var last;
    if txStatus == PENDING {
      last, outcome := Timeout(txHash), TimedOut(txHash);
    } else if txStatus == FAILED {
      last, outcome := Failed, Threw;
    } else {
      last, outcome := Success(txHash), Returned(txHash);
    }
    assert outcome == Decided(o) && [last] == Ending(o);
    trace := trace + pending + [last];
  }

  /** `invokeContract` up to the network's answer to the submission. */
  method SimulateSignSubmit(o: Oracle) returns (trace: seq<TxStatus>, submitted: bool)
    ensures submitted <==> ReachesNetwork(o)
    ensures submitted ==> trace == FORWARD[..Reached(o)]
    ensures !submitted ==> trace == FORWARD[..Reached(o)] + Ending(o)
  {
    trace, submitted := [], false;
    if !o.buildable { return; }
    trace := trace + [Simulating];
    if !o.sequenceFound { return; }
    trace := trace + [Simulating];
    assert trace == FORWARD[..2];
    if o.simulation.SimulationThrows? || o.simulation.UnreadableData? { return; }
    if o.simulation.SimulationError? || o.simulation.NoTransactionData? {
      trace := trace + [Failed];
      return;
    }
    trace := trace + [AwaitingSignature];
    assert trace == FORWARD[..3];
    if o.signature.SigningThrows? { return; }
    if o.signature.SigningError? || o.signature.NoSignedXdr? {
      trace := trace + [Failed];
      return;
    }
    trace := trace + [Submitting];
    assert trace == FORWARD[..4];
    submitted := o.submission.Submitted?;
  }

  /** The poll loop of `invokeContract`; a reply that throws leaves the status as it was. */
  method PollForCompletion(polls: nat -> Poll) returns (trace: seq<TxStatus>, txStatus: RpcStatus)
    ensures trace == PendingRun(Attempts(polls, 0))
    ensures txStatus == LastReply(polls, Attempts(polls, 0), PENDING)
  {
    trace, txStatus := [], PENDING;
    var i := 0;
    while i < MAX_POLL_ATTEMPTS
      invariant i <= MAX_POLL_ATTEMPTS
      invariant trace == PendingRun(i)
      invariant txStatus == LastReply(polls, i, PENDING)
      invariant forall k | 0 <= k < i :: !Conclusive(polls(k))
    {
      trace := trace + [Pending(i + 1, MAX_POLL_ATTEMPTS)];
      var reply := polls(i);
      LastReplyStep(polls, i, PENDING);
      i := i + 1;
      if reply.Polled? {
        txStatus := reply.status;
        if txStatus == SUCCESS || txStatus == FAILED { break; }
      }
    }
    AttemptsAre(polls, i);
  }

  // ---- What it computes ----

  const FORWARD: seq<TxStatus> := [Simulating, Simulating, AwaitingSignature, Submitting]

  function PendingRun(n: nat): seq<TxStatus> {
    if n == 0 then [] else PendingRun(n - 1) + [Pending(n, MAX_POLL_ATTEMPTS)]
  }

  predicate Conclusive(p: Poll) {
    p.Polled? && (p.status == SUCCESS || p.status == FAILED)
  }

  /** The status in the last of the first n replies that did not throw. */
  function LastReply(polls: nat -> Poll, n: nat, initial: RpcStatus): RpcStatus {
    if n == 0 then initial
    else match polls(n - 1)
      case Polled(s) => s
      case PollThrows => LastReply(polls, n - 1, initial)
  }

  lemma LastReplyStep(polls: nat -> Poll, n: nat, initial: RpcStatus)
    ensures LastReply(polls, n + 1, initial) == if polls(n).Polled? then polls(n).status else LastReply(polls, n, initial)
  {
  }

  /** Polls made: up to and including the first conclusive one, at most the limit. */
  function Attempts(polls: nat -> Poll, from: nat): (n: nat)
    requires from <= MAX_POLL_ATTEMPTS
    ensures from <= n <= MAX_POLL_ATTEMPTS
    ensures forall k | from <= k < n - 1 :: !Conclusive(polls(k))
    ensures n < MAX_POLL_ATTEMPTS ==> n > from && Conclusive(polls(n - 1))
    decreases MAX_POLL_ATTEMPTS - from
  {
    if from == MAX_POLL_ATTEMPTS then from
    else if Conclusive(polls(from)) then from + 1
    else Attempts(polls, from + 1)
  }

  lemma AttemptsAre(polls: nat -> Poll, n: nat)
    requires 0 < n <= MAX_POLL_ATTEMPTS
    requires forall k | 0 <= k < n - 1 :: !Conclusive(polls(k))
    requires n < MAX_POLL_ATTEMPTS ==> Conclusive(polls(n - 1))
    ensures Attempts(polls, 0) == n
  {
  }

  /** How many forward statuses are reported before the attempt ends. */
  function Reached(o: Oracle): nat {
    if !o.buildable then 0
    else if !o.sequenceFound then 1
    else if !o.simulation.Simulated? then 2
    else if !o.signature.Signed? then 3
    else 4
  }

  predicate ReachesNetwork(o: Oracle) {
    Reached(o) == 4 && o.submission.Submitted?
  }

  /** Early failures that are reported before being thrown. */
  predicate ReportsFailure(o: Oracle) {
    || (Reached(o) == 2 && (o.simulation.SimulationError? || o.simulation.NoTransactionData?))
    || (Reached(o) == 3 && (o.signature.SigningError? || o.signature.NoSignedXdr?))
  }

  function PollCount(o: Oracle): nat
    requires ReachesNetwork(o)
  {
    if o.submission.status == PENDING then Attempts(o.polls, 0) else 0
  }

  function FinalStatus(o: Oracle): RpcStatus
    requires ReachesNetwork(o)
  {
    LastReply(o.polls, PollCount(o), o.submission.status)
  }

  /** Only the final status decides: pending times out, failed throws, anything else returns. */
  function Decided(o: Oracle): Outcome {
    if !ReachesNetwork(o) then Threw
    else match FinalStatus(o)
      case PENDING => TimedOut(TxHash(o.submission.hash))
      case FAILED => Threw
      case _ => Returned(TxHash(o.submission.hash))
  }

  function Ending(o: Oracle): seq<TxStatus> {
    if !ReachesNetwork(o) then (if ReportsFailure(o) then [Failed] else [])
    else match Decided(o)
      case Returned(h) => [Success(h)]
      case TimedOut(h) => [Timeout(h)]
      case Threw => [Failed]
  }

  function Trace(o: Oracle): seq<TxStatus> {
    FORWARD[..Reached(o)] + PendingRun(if ReachesNetwork(o) then PollCount(o) else 0) + Ending(o)
  }

  // ---- Properties of every trace ----

  predicate Terminal(s: TxStatus) {
    s.Success? || s.Timeout? || s.Failed?
  }

  lemma {:induction false} PendingRunAt(n: nat)
    ensures |PendingRun(n)| == n
    ensures forall i | 0 <= i < n :: PendingRun(n)[i] == Pending(i + 1, MAX_POLL_ATTEMPTS)
  {
    if n > 0 { PendingRunAt(n - 1); }
  }

  /** The grammar: k forward statuses, then pending attempts numbered from one, then the
      ending; only the ending is terminal. */
  predicate Grammatical(t: seq<TxStatus>, k: nat, e: nat) {
    && k + e <= |t|
    && (forall i | 0 <= i < k :: k <= 4 && t[i] == FORWARD[i])
    && (forall i | k <= i < |t| - e :: t[i] == Pending(i - k + 1, MAX_POLL_ATTEMPTS))
    && (forall i | |t| - e <= i < |t| :: Terminal(t[i]))
  }

  lemma Assembled(k: nat, n: nat, ending: seq<TxStatus>)
    requires k <= 4 && forall i | 0 <= i < |ending| :: Terminal(ending[i])
    ensures
      var t := FORWARD[..k] + PendingRun(n) + ending;
      |t| == k + n + |ending| && Grammatical(t, k, |ending|)
  {
    PendingRunAt(n);
  }

  lemma EndingTerminal(o: Oracle)
    ensures |Ending(o)| <= 1 && forall i | 0 <= i < |Ending(o)| :: Terminal(Ending(o)[i])
  {
  }

  /** Every trace follows the grammar, with at most fifteen pending attempts (and none before
      all four forward statuses) and at most one terminal status. */
  lemma TraceGrammar(o: Oracle)
    ensures
      var t, k, e := Trace(o), Reached(o), |Ending(o)|;
      && Grammatical(t, k, e) && e <= 1
      && |t| - k - e <= MAX_POLL_ATTEMPTS && (|t| - k - e > 0 ==> k == 4)
  {
    var n := if ReachesNetwork(o) then PollCount(o) else 0;
    EndingTerminal(o);
    Assembled(Reached(o), n, Ending(o));
  }

  /** So the statuses before the last are never terminal. */
  lemma OnlyLastIsTerminal(o: Oracle)
    ensures forall i | 0 <= i < |Trace(o)| - 1 :: !Terminal(Trace(o)[i])
  {
    TraceGrammar(o);
  }

  /** How a call ends is what its trace last says. */
  lemma OutcomeMatchesTrace(o: Oracle)
    ensures forall h :: Decided(o) == Returned(h) <==> Trace(o) != [] && Trace(o)[|Trace(o)| - 1] == Success(h)
    ensures forall h :: Decided(o) == TimedOut(h) <==> Trace(o) != [] && Trace(o)[|Trace(o)| - 1] == Timeout(h)
    // A throw is announced as a failure, except where the code throws without a callback.
    ensures Decided(o).Threw? && (ReachesNetwork(o) || ReportsFailure(o)) <==> Trace(o) != [] && Trace(o)[|Trace(o)| - 1] == Failed
  {
    PendingRunAt(if ReachesNetwork(o) then PollCount(o) else 0);
    var t := Trace(o);
    if Ending(o) == [] {
      assert t == FORWARD[..Reached(o)];
    } else {
      assert t[|t| - 1] == Ending(o)[0];
    }
  }

  // ---- On the raw replies ----

  /** The transaction reaches the network and is answered. */
  predicate AllGood(o: Oracle) {
    o.buildable && o.sequenceFound && o.simulation == Simulated && o.signature == Signed && o.submission.Submitted?
  }

  /** Exactly then, with everything before it in order. */
  lemma ReachesNetworkExactlyWhen(o: Oracle)
    ensures ReachesNetwork(o) <==> AllGood(o)
  {
  }

  /** An attempt that does not get there throws after exactly these statuses. */
  lemma EarlyEnd(o: Oracle)
    requires !AllGood(o)
    ensures Decided(o) == Threw
    ensures Trace(o) ==
            if !o.buildable then []
            else if !o.sequenceFound then [Simulating]
            else match o.simulation
              case SimulationThrows => [Simulating, Simulating]
              case UnreadableData => [Simulating, Simulating]
              case SimulationError => [Simulating, Simulating, Failed]
              case NoTransactionData => [Simulating, Simulating, Failed]
              case Simulated =>
                match o.signature
                case SigningThrows => [Simulating, Simulating, AwaitingSignature]
                case SigningError => [Simulating, Simulating, AwaitingSignature, Failed]
                case NoSignedXdr => [Simulating, Simulating, AwaitingSignature, Failed]
                case Signed => [Simulating, Simulating, AwaitingSignature, Submitting]
  {
    assert FORWARD[..0] == [] && FORWARD[..1] == [Simulating];
    assert FORWARD[..2] == [Simulating, Simulating] && FORWARD[..3] == [Simulating, Simulating, AwaitingSignature];
    assert FORWARD[..4] == FORWARD;
  }

  /** Any other reports the four forward statuses, then one pending attempt per poll made,
      then its ending. */
  lemma NetworkTrace(o: Oracle)
    requires AllGood(o)
    ensures
      var t, n := Trace(o), PollCount(o);
      && |t| == 4 + n + 1
      && t[..4] == [Simulating, Simulating, AwaitingSignature, Submitting]
      && (forall i | 4 <= i < 4 + n :: t[i] == Pending(i - 3, 15))
      && t[4 + n] == match Decided(o) case Returned(h) => Success(h) case TimedOut(h) => Timeout(h) case Threw => Failed
  {
    PendingRunAt(PollCount(o));
    assert FORWARD[..4] == FORWARD;
    assert Trace(o) == FORWARD + PendingRun(PollCount(o)) + Ending(o);
  }

  /** A poll is made exactly when the submission was pending, the limit of fifteen is not
      reached and no earlier poll was conclusive. */
  lemma PollMadeExactlyWhen(o: Oracle, k: nat)
    requires AllGood(o)
    ensures k < PollCount(o) <==> o.submission.status == PENDING && k < 15 && forall j: nat | j < k :: !Conclusive(o.polls(j))
  {
  }

  predicate WasSimulated(o: Oracle) {
    o.buildable && o.sequenceFound && o.simulation == Simulated
  }

  lemma EarlyOrder(o: Oracle)
    requires !AllGood(o)
    ensures WasSimulated(o) <==> AwaitingSignature in Trace(o)
    ensures WasSimulated(o) && o.signature == Signed <==> Submitting in Trace(o)
    ensures WasSimulated(o) ==> Trace(o)[..3] == [Simulating, Simulating, AwaitingSignature]
    ensures WasSimulated(o) && o.signature == Signed ==> Trace(o)[..4] == [Simulating, Simulating, AwaitingSignature, Submitting]
  {
    EarlyEnd(o);
  }

  /** The user is asked to sign exactly what was simulated, and only what was signed is
      submitted, in that order. */
  lemma SignedAfterSimulation(o: Oracle)
    ensures AwaitingSignature in Trace(o) <==> WasSimulated(o)
    ensures Submitting in Trace(o) <==> WasSimulated(o) && o.signature == Signed
    ensures WasSimulated(o) ==> Trace(o)[..3] == [Simulating, Simulating, AwaitingSignature]
    ensures WasSimulated(o) && o.signature == Signed ==> Trace(o)[..4] == [Simulating, Simulating, AwaitingSignature, Submitting]
  {
    if AllGood(o) {
      NetworkTrace(o);
      var t := Trace(o);
      assert t[..3] == t[..4][..3];
      assert t[2] == t[..4][2] && t[3] == t[..4][3];
    } else {
      EarlyOrder(o);
    }
  }

  /** A submission answered with anything but PENDING is decided at once. */
  lemma SubmissionDecides(o: Oracle)
    requires AllGood(o) && o.submission.status != PENDING
    ensures PollCount(o) == 0
    ensures Decided(o) == if o.submission.status == FAILED then Threw else Returned(TxHash(o.submission.hash))
  {
  }

  /** The hash of every outcome is the one submitted, or 'unknown' for none. */
  lemma OutcomeHash(o: Oracle, h: string)
    requires Decided(o) == Returned(h) || Decided(o) == TimedOut(h)
    ensures o.submission.Submitted?
    ensures h == if o.submission.hash.Some? && |o.submission.hash.value| > 0 then o.submission.hash.value else "unknown"
  {
  }

  /** Poll k is the last of the first n that answered. */
  predicate LastAnswer(polls: nat -> Poll, n: nat, k: nat) {
    k < n && polls(k).Polled? && forall j: nat | k < j < n :: polls(j).PollThrows?
  }

  /** The status kept after n polls is that of the last one that answered, if one did. */
  lemma {:induction false} LastReplyIsLast(polls: nat -> Poll, n: nat, initial: RpcStatus)
    ensures (exists k: nat :: LastAnswer(polls, n, k) && LastReply(polls, n, initial) == polls(k).status)
            || ((forall k: nat | k < n :: polls(k).PollThrows?) && LastReply(polls, n, initial) == initial)
  {
    if n > 0 {
      if polls(n - 1).Polled? {
        assert LastAnswer(polls, n, n - 1);
      } else {
        LastReplyIsLast(polls, n - 1, initial);
        if exists k: nat :: LastAnswer(polls, n - 1, k) && LastReply(polls, n - 1, initial) == polls(k).status {
          var k: nat :| LastAnswer(polls, n - 1, k) && LastReply(polls, n - 1, initial) == polls(k).status;
          assert LastAnswer(polls, n, k);
        }
      }
    }
  }

  lemma LastAnswerUnique(polls: nat -> Poll, n: nat, k: nat, l: nat)
    requires LastAnswer(polls, n, k) && LastAnswer(polls, n, l)
    ensures k == l
  {
  }

  /** A pending submission is decided by the first SUCCESS or FAILED among fifteen polls. */
  lemma FirstConclusivePollDecides(o: Oracle, k: nat)
    requires ReachesNetwork(o) && o.submission.status == PENDING
    requires k < MAX_POLL_ATTEMPTS && Conclusive(o.polls(k)) && forall j: nat | j < k :: !Conclusive(o.polls(j))
    ensures PollCount(o) == k + 1
    ensures Decided(o) == if o.polls(k).status == SUCCESS then Returned(TxHash(o.submission.hash)) else Threw
  {
    AttemptsAre(o.polls, k + 1);
  }

  /** With no such poll all fifteen are made, and the call times out exactly when the last
      one that answered, if any, said PENDING. */
  lemma TimesOutExactlyWhen(o: Oracle)
    requires ReachesNetwork(o) && o.submission.status == PENDING
    requires forall j: nat | j < MAX_POLL_ATTEMPTS :: !Conclusive(o.polls(j))
    ensures PollCount(o) == MAX_POLL_ATTEMPTS
    ensures Decided(o).TimedOut? <==> forall k: nat | LastAnswer(o.polls, MAX_POLL_ATTEMPTS, k) :: o.polls(k).status == PENDING
  {
    AttemptsAre(o.polls, MAX_POLL_ATTEMPTS);
    LastReplyIsLast(o.polls, MAX_POLL_ATTEMPTS, PENDING);
    assert Decided(o).TimedOut? <==> LastReply(o.polls, MAX_POLL_ATTEMPTS, PENDING) == PENDING;
    forall k: nat, l: nat | LastAnswer(o.polls, MAX_POLL_ATTEMPTS, k) && LastAnswer(o.polls, MAX_POLL_ATTEMPTS, l) ensures k == l {
      LastAnswerUnique(o.polls, MAX_POLL_ATTEMPTS, k, l);
    }
  }

  lemma ReturnedHashNonEmpty(o: Oracle)
    ensures Decided(o).Returned? ==> Decided(o).hash != ""
    ensures Decided(o).TimedOut? ==> Decided(o).hash != ""
  {
  }

  /** Some reply the call read said SUCCESS. */
  predicate SawSuccess(o: Oracle)
    requires ReachesNetwork(o)
  {
    o.submission.status == SUCCESS || exists k: nat :: k < PollCount(o) && o.polls(k) == Polled(SUCCESS)
  }

  /** All fifteen polls are made and the last one that answers is unknown to the code. */
  predicate EndsUnknown(polls: nat -> Poll) {
    && (forall j: nat | j < MAX_POLL_ATTEMPTS :: !Conclusive(polls(j)))
    && exists k: nat :: k < MAX_POLL_ATTEMPTS && LastAnswer(polls, MAX_POLL_ATTEMPTS, k) && polls(k).status.Other?
  }

  lemma SuccessIsFinal(o: Oracle)
    requires ReachesNetwork(o)
    ensures SawSuccess(o) <==> FinalStatus(o) == SUCCESS
  {
    var n := PollCount(o);
    LastReplyIsLast(o.polls, n, o.submission.status);
    if SawSuccess(o) && o.submission.status != SUCCESS {
      var k: nat :| k < n && o.polls(k) == Polled(SUCCESS);
      assert Conclusive(o.polls(k));
      assert k == n - 1;
    }
  }

  /** If poll k is the last of n that answered, its status is the one kept. */
  lemma LastReplyAt(polls: nat -> Poll, n: nat, k: nat, initial: RpcStatus)
    requires LastAnswer(polls, n, k)
    ensures LastReply(polls, n, initial) == polls(k).status
  {
    LastReplyIsLast(polls, n, initial);
    if exists l: nat :: LastAnswer(polls, n, l) && LastReply(polls, n, initial) == polls(l).status {
      var l: nat :| LastAnswer(polls, n, l) && LastReply(polls, n, initial) == polls(l).status;
      LastAnswerUnique(polls, n, k, l);
    }
  }

  lemma EndsUnknownIsFinal(o: Oracle)
    requires ReachesNetwork(o) && o.submission.status == PENDING && EndsUnknown(o.polls)
    ensures FinalStatus(o).Other?
  {
    AttemptsAre(o.polls, MAX_POLL_ATTEMPTS);
    var k: nat :| k < MAX_POLL_ATTEMPTS && LastAnswer(o.polls, MAX_POLL_ATTEMPTS, k) && o.polls(k).status.Other?;
    LastReplyAt(o.polls, MAX_POLL_ATTEMPTS, k, PENDING);
  }

  lemma UnknownReply(polls: nat -> Poll, n: nat) returns (k: nat)
    requires LastReply(polls, n, PENDING).Other?
    ensures LastAnswer(polls, n, k) && polls(k).status.Other?
    ensures !Conclusive(polls(n - 1))
  {
    LastReplyIsLast(polls, n, PENDING);
    k :| LastAnswer(polls, n, k) && LastReply(polls, n, PENDING) == polls(k).status;
  }

  lemma UnknownEnds(o: Oracle)
    requires ReachesNetwork(o) && o.submission.status == PENDING && FinalStatus(o).Other?
    ensures EndsUnknown(o.polls)
  {
    var k := UnknownReply(o.polls, PollCount(o));
    assert PollCount(o) == MAX_POLL_ATTEMPTS;
  }

  /** A call returns normally without any SUCCESS from the network exactly when the
      submission is answered with a status the code does not know, or it is pending, no
      poll is conclusive, and the last poll that answers gives such a status. */
  lemma ReturnWithoutSuccess(o: Oracle)
    ensures Decided(o).Returned? && !SawSuccess(o) <==>
            ReachesNetwork(o) && (o.submission.status.Other? || (o.submission.status == PENDING && EndsUnknown(o.polls)))
  {
    if ReachesNetwork(o) {
      SuccessIsFinal(o);
      if o.submission.status == PENDING {
        if EndsUnknown(o.polls) { EndsUnknownIsFinal(o); }
        if FinalStatus(o).Other? { UnknownEnds(o); }
      }
    }
  }

  /** ... and that happens: a transaction the network never finds is reported as a success. */
  lemma NeverFoundReturns(hash: string)
    requires hash != ""
    ensures
      var o := Oracle(true, true, Simulated, Signed, Submitted(Some(hash), PENDING), _ => Polled(Other("NOT_FOUND")));
      Decided(o) == Returned(hash) && PollCount(o) == MAX_POLL_ATTEMPTS
  {
    var o := Oracle(true, true, Simulated, Signed, Submitted(Some(hash), PENDING), _ => Polled(Other("NOT_FOUND")));
    AttemptsAre(o.polls, MAX_POLL_ATTEMPTS);
  }

  /** `pollTransactionStatus`: one poll, with everything inconclusive read as pending. */
  function PollOnce(p: Poll): (r: RpcStatus)
    ensures r == SUCCESS || r == FAILED || r == PENDING
    ensures r != PENDING <==> Conclusive(p)
    ensures r != PENDING ==> p.status == r
  {
    if p.Polled? && (p.status == SUCCESS || p.status == FAILED) then p.status else PENDING
  }
}
