/** The transaction state machine shown to the user. */
module TransactionState {
  import opened Basics

  datatype TxState =
    | IDLE
    | PREPARING | SIMULATING | WAITING_FOR_SIGNATURE | SUBMITTING | PENDING | CONFIRMED | DATABASE_SYNC | COMPLETE
    | SIMULATION_FAILED | SIGNATURE_REJECTED | RPC_ERROR | INSUFFICIENT_BALANCE | CONTRACT_REVERT | TIMEOUT | DATABASE_SYNC_FAILED

  predicate IsFailure(s: TxState) {
    || s.SIMULATION_FAILED? || s.SIGNATURE_REJECTED? || s.RPC_ERROR? || s.INSUFFICIENT_BALANCE?
    || s.CONTRACT_REVERT? || s.TIMEOUT? || s.DATABASE_SYNC_FAILED?
  }

  /** Every other state is idle, in progress or done. */
  lemma FailuresAreTheRest(s: TxState)
    ensures !IsFailure(s) <==>
            || s == IDLE || s == PREPARING || s == SIMULATING || s == WAITING_FOR_SIGNATURE || s == SUBMITTING
            || s == PENDING || s == CONFIRMED || s == DATABASE_SYNC || s == COMPLETE
  {
  }

  predicate CarriesHash(s: TxState) {
    s.COMPLETE? || s.CONFIRMED? || s.TIMEOUT? || s.DATABASE_SYNC_FAILED?
  }

  /** The error texts the page shows. */
  datatype Message = NoMessage | UnknownError | NotConfigured | NotYetConfirmed(hash: string) | CallFailed | MirrorRefused | FailedOnChain | StillPending

  datatype Progress = Progress(attempt: nat, limit: nat)

  datatype Meta = Meta(hash: Option<string>, error: Option<Message>, poll: Option<Progress>, recheck: bool)

  const NO_META := Meta(None, None, None, false)

  /** An empty string counts as absent, as `||` does. */
  function Chosen(given: Option<string>, kept: Option<string>): Option<string> {
    if given.Some? && given.value != "" then given else kept
  }

  /** Every move counts failures, keeps the hash except in the states that carry one, and
      keeps the poll progress unless new progress is given. */
  class TxStateMachine {
    var state: TxState
    var previousState: TxState
    var retryCount: nat
    var lastError: Message
    var transactionHash: Option<string>
    var poll: Option<Progress>
    var isRechecking: bool

    constructor ()
      ensures state == previousState == IDLE && retryCount == 0 && lastError == NoMessage
      ensures transactionHash.None? && poll.None? && !isRechecking
    {
      state, previousState, retryCount, lastError := IDLE, IDLE, 0, NoMessage;
      transactionHash, poll, isRechecking := None, None, false;
    }

    method Transition(newState: TxState, meta: Meta)
      modifies this
      ensures state == newState && previousState == old(state)
      ensures retryCount == if IsFailure(newState) then old(retryCount) + 1 else old(retryCount)
      ensures lastError == if IsFailure(newState) then (if meta.error.Some? then meta.error.value else UnknownError) else old(lastError)
      ensures transactionHash == if CarriesHash(newState) then Chosen(meta.hash, old(transactionHash)) else old(transactionHash)
      ensures poll == if meta.poll.Some? then meta.poll else old(poll)
      ensures isRechecking == meta.recheck
    {
      previousState := state;
      state := newState;
      if newState == COMPLETE || newState == CONFIRMED || newState == TIMEOUT || newState == DATABASE_SYNC_FAILED {
        transactionHash := Chosen(meta.hash, transactionHash);
      }
      if meta.poll.Some? {
        poll := meta.poll;
      }
      isRechecking := meta.recheck;
      if IsFailure(newState) {
        retryCount := retryCount + 1;
        lastError := if meta.error.Some? then meta.error.value else UnknownError;
      }
    }

    method SetError(newState: TxState, error: Message, meta: Meta)
      modifies this
      ensures state == newState && previousState == old(state)
      ensures retryCount == if IsFailure(newState) then old(retryCount) + 1 else old(retryCount)
      ensures lastError == if IsFailure(newState) then (if meta.error.Some? then meta.error.value else error) else old(lastError)
      ensures transactionHash == if CarriesHash(newState) then Chosen(meta.hash, old(transactionHash)) else old(transactionHash)
      ensures poll == if meta.poll.Some? then meta.poll else old(poll)
      ensures isRechecking == meta.recheck
    {
      Transition(newState, if meta.error.Some? then meta else meta.(error := Some(error)));
    }

    method Reset()
      modifies this
      ensures state == previousState == IDLE && retryCount == 0 && lastError == NoMessage
      ensures transactionHash.None? && poll.None? && !isRechecking
    {
      state, previousState, retryCount, lastError := IDLE, IDLE, 0, NoMessage;
      transactionHash, poll, isRechecking := None, None, false;
    }
  }
}

/** The approve page: approve, reject, and "Check again" after a timeout. */
module ApprovePage {
  import opened Basics
  import opened TransactionState
  import P = Pipeline

  datatype Action = Approve | Reject

  /** A supervisor operation on a record. */
  datatype Operation = Operation(record: string, action: Action)

  /** A backend call that records an operation whose transaction `hash` is confirmed. */
  datatype Mirror = Mirror(op: Operation, hash: string)

  /** What the user did, with every outside answer it met. */
  datatype Event =
    | Decide(op: Operation, configured: bool, connected: bool, oracle: P.Oracle, mirrorAccepts: bool)
    | CheckAgain(poll: P.Poll, mirrorAccepts: bool)
    | Dismiss

  /** What matters of the page: the machine's state, failure count and hash, the remembered
      context, the mirror calls made, and the operations handed to the network. */
  datatype Page = Page(
    state: TxState, retries: nat, hash: Option<string>, context: Option<Operation>,
    mirrors: seq<Mirror>, submitted: seq<Mirror>)

  const FRESH := Page(IDLE, 0, None, None, [], [])

  /** Whether the button behind an event is there. */
  predicate Enabled(p: Page, e: Event) {
    match e
    case Decide(_, _, _, _, _) => true
    case CheckAgain(_, _) => p.state == TIMEOUT && p.hash.Some?
    case Dismiss => p.state == COMPLETE || IsFailure(p.state)
  }

  function WithSubmission(p: Page, op: Operation, o: P.Oracle): Page {
    if P.ReachesNetwork(o) then p.(submitted := p.submitted + [Mirror(op, P.TxHash(o.submission.hash))]) else p
  }

  /** A connected decision, from a reset machine to rest. */
  function AfterCall(q: Page, op: Operation, oracle: P.Oracle, mirrorAccepts: bool): Page {
    var s := WithSubmission(q, op, oracle);
    match P.Decided(oracle)
    case Threw => s.(state := RPC_ERROR, retries := 1)
    case TimedOut(h) => s.(state := TIMEOUT, retries := 1, hash := Some(h), context := Some(op))
    case Returned(h) =>
      var m := s.(hash := Some(h), mirrors := s.mirrors + [Mirror(op, h)]);
      if mirrorAccepts then m.(state := COMPLETE) else m.(state := RPC_ERROR, retries := 1)
  }

  /** One whole approve or reject, from click to rest. */
  function AfterDecide(p: Page, e: Event): Page
    requires e.Decide?
  {
    if !e.configured then p.(state := RPC_ERROR, retries := p.retries + 1, context := None)
    else
      var q := p.(state := SIMULATING, retries := 0, hash := None, context := None);
      if e.connected then AfterCall(q, e.op, e.oracle, e.mirrorAccepts) else q
  }

  function AfterCheck(p: Page, e: Event): Page
    requires e.CheckAgain? && p.hash.Some?
  {
    match P.PollOnce(e.poll)
    case SUCCESS =>
      if p.context.None? then p.(state := COMPLETE)
      else
        var m := p.(context := None, mirrors := p.mirrors + [Mirror(p.context.value, p.hash.value)]);
        if e.mirrorAccepts then m.(state := COMPLETE) else m.(state := DATABASE_SYNC_FAILED, retries := p.retries + 1)
    case FAILED => p.(state := RPC_ERROR, retries := p.retries + 1)
    case _ => p.(state := TIMEOUT, retries := p.retries + 1)
  }

  function PageNext(p: Page, e: Event): Page {
    if !Enabled(p, e) then p
    else match e
      case Decide(_, _, _, _, _) => AfterDecide(p, e)
      case CheckAgain(_, _) => AfterCheck(p, e)
      case Dismiss => p.(state := IDLE, retries := 0, hash := None)
  }

  function PageAfter(es: seq<Event>): Page {
    if |es| == 0 then FRESH else PageNext(PageAfter(es[..|es| - 1]), es[|es| - 1])
  }

  // ---- The handlers ----

  class ApprovalCenter {
    const machine: TxStateMachine
    var timeoutContext: Option<Operation>
    var mirrors: seq<Mirror>
    ghost var submitted: seq<Mirror>
    var processingId: Option<string>

    constructor ()
      ensures fresh(machine)
      ensures View() == FRESH
    {
      machine := new TxStateMachine();
      timeoutContext, mirrors, submitted, processingId := None, [], [], None;
    }

    ghost function View(): Page
      reads this, machine
    {
      Page(machine.state, machine.retryCount, machine.transactionHash, timeoutContext, mirrors, submitted)
    }

    /** One status callback; 'failed' and 'success' do nothing here. */
    method HandleContractStatus(status: P.TxStatus, op: Operation)
      modifies this`timeoutContext, machine
      ensures timeoutContext == if status.Timeout? then Some(op) else old(timeoutContext)
      ensures machine.retryCount == if status.Timeout? then old(machine.retryCount) + 1 else old(machine.retryCount)
      ensures machine.lastError == if status.Timeout? then NotYetConfirmed(status.hash) else old(machine.lastError)
      ensures machine.transactionHash == if status.Timeout? then Chosen(Some(status.hash), old(machine.transactionHash)) else old(machine.transactionHash)
      ensures match status
              case Simulating => machine.state == SIMULATING
              case AwaitingSignature => machine.state == WAITING_FOR_SIGNATURE
              case Submitting => machine.state == SUBMITTING
              case Pending(a, m) => machine.state == PENDING && machine.poll == Some(Progress(a, m)) && !machine.isRechecking
              case Timeout(_) => machine.state == TIMEOUT
              case _ => machine.state == old(machine.state)
    {
      match status
      case Simulating => machine.Transition(SIMULATING, NO_META);
      case AwaitingSignature => machine.Transition(WAITING_FOR_SIGNATURE, NO_META);
      case Submitting => machine.Transition(SUBMITTING, NO_META);
      case Pending(attempt, maxAttempts) => machine.Transition(PENDING, NO_META.(poll := Some(Progress(attempt, maxAttempts))));
      case Timeout(hash) =>
        timeoutContext := Some(op);
        machine.SetError(TIMEOUT, NotYetConfirmed(hash), NO_META.(hash := Some(hash)));
      case Failed =>
      case Success(_) =>
    }

    /** `callContract`: the statuses of one invocation, delivered in order. */
    method CallContract(op: Operation, o: P.Oracle) returns (outcome: P.Outcome)
      requires machine.retryCount == 0 && timeoutContext.None?
      modifies this`timeoutContext, this`submitted, machine
      ensures outcome == P.Decided(o)
      ensures submitted == WithSubmission(old(View()), op, o).submitted
      ensures match outcome
              case TimedOut(h) =>
                machine.state == TIMEOUT && machine.retryCount == 1 && machine.transactionHash == Some(h) && timeoutContext == Some(op)
                && machine.lastError == NotYetConfirmed(h)
              case _ => machine.retryCount == 0 && timeoutContext.None? && machine.transactionHash == old(machine.transactionHash)
    {
      var trace;
      trace, outcome := P.InvokeContract(o);
      if P.ReachesNetwork(o) {
        submitted := submitted + [Mirror(op, P.TxHash(o.submission.hash))];
      }
      P.OutcomeMatchesTrace(o);
      P.OnlyLastIsTerminal(o);
      ghost var handed := submitted;
      for i := 0 to |trace|
        invariant submitted == handed
        invariant i == |trace| && outcome.TimedOut? ==>
          && machine.state == TIMEOUT && machine.retryCount == 1
          && machine.transactionHash == Some(outcome.hash) && timeoutContext == Some(op)
          && machine.lastError == NotYetConfirmed(outcome.hash)
        invariant !(i == |trace| && outcome.TimedOut?) ==>
          machine.retryCount == 0 && timeoutContext.None? && machine.transactionHash == old(machine.transactionHash)
      {
        HandleContractStatus(trace[i], op);
      }
    }

    /** Mirrors a confirmed operation; a refusal ends in `onRefusal`. */
    method RunMirror(op: Operation, hash: string, accepts: bool, onRefusal: TxState)
      requires IsFailure(onRefusal) && machine.transactionHash == Some(hash)
      modifies this`mirrors, machine
      ensures mirrors == old(mirrors) + [Mirror(op, hash)]
      ensures machine.transactionHash == Some(hash)
      ensures accepts ==> machine.state == COMPLETE && machine.retryCount == old(machine.retryCount)
      ensures !accepts ==> machine.state == onRefusal && machine.retryCount == old(machine.retryCount) + 1
      ensures !accepts ==> machine.lastError == MirrorRefused
    {
      machine.Transition(DATABASE_SYNC, NO_META);
      mirrors := mirrors + [Mirror(op, hash)];
      if accepts {
        machine.Transition(COMPLETE, NO_META.(hash := Some(hash)));
      } else {
        machine.SetError(onRefusal, MirrorRefused, NO_META.(hash := Some(hash)));
      }
    }

    /** The connected part of a decision: on-chain first, then the backend mirror. */
    method DecideOnChain(op: Operation, oracle: P.Oracle, mirrorAccepts: bool)
      requires machine.retryCount == 0 && machine.transactionHash.None? && timeoutContext.None?
      modifies this`timeoutContext, this`submitted, this`mirrors, machine
      ensures View() == AfterCall(old(View()), op, oracle, mirrorAccepts)
      ensures machine.state == TIMEOUT ==> machine.lastError == NotYetConfirmed(machine.transactionHash.value)
      ensures machine.state == RPC_ERROR ==> machine.lastError == if P.Decided(oracle).Threw? then CallFailed else MirrorRefused
    {
      machine.Transition(WAITING_FOR_SIGNATURE, NO_META);
      var outcome := CallContract(op, oracle);
      match outcome
      case Returned(onChainTx) =>
        machine.Transition(CONFIRMED, NO_META.(hash := Some(onChainTx)));
        P.ReturnedHashNonEmpty(oracle);
        RunMirror(op, onChainTx, mirrorAccepts, RPC_ERROR);
      case TimedOut(_) =>
      case Threw => machine.SetError(RPC_ERROR, CallFailed, NO_META);
    }

    /** `handleApprove` and `handleReject`. */
    method HandleDecision(op: Operation, configured: bool, connected: bool, oracle: P.Oracle, mirrorAccepts: bool)
      modifies this, machine
      ensures View() == PageNext(old(View()), Decide(op, configured, connected, oracle, mirrorAccepts))
      ensures processingId.None?
      // What the user is told.
      ensures !configured ==> machine.lastError == NotConfigured
      ensures configured && connected && machine.state == TIMEOUT ==> machine.lastError == NotYetConfirmed(machine.transactionHash.value)
      ensures configured && connected && machine.state == RPC_ERROR ==>
                machine.lastError == if P.Decided(oracle).Threw? then CallFailed else MirrorRefused
    {
      processingId := Some(op.record);
      timeoutContext := None;
      if configured {
        machine.Reset();
        machine.Transition(SIMULATING, NO_META);
        if connected {
          DecideOnChain(op, oracle, mirrorAccepts);
        }
      } else {
        machine.SetError(RPC_ERROR, NotConfigured, NO_META);
      }
      processingId := None;
    }

    /** `handleCheckAgain`, called by the button with the displayed hash. */
    method HandleCheckAgain(hash: string, poll: P.Poll, mirrorAccepts: bool)
      requires machine.state == TIMEOUT && machine.transactionHash == Some(hash) && hash != ""
      modifies this, machine
      ensures View() == PageNext(old(View()), CheckAgain(poll, mirrorAccepts))
      ensures machine.state == RPC_ERROR ==> machine.lastError == FailedOnChain
      ensures machine.state == TIMEOUT ==> machine.lastError == StillPending
      ensures machine.state == DATABASE_SYNC_FAILED ==> machine.lastError == MirrorRefused
    {
      var limit := if machine.poll.Some? then machine.poll.value.limit else 15;
      machine.Transition(PENDING, Meta(None, None, Some(Progress(limit, limit)), true));
      var status := P.PollOnce(poll);
      if status == P.SUCCESS {
        ResumeMirror(hash, mirrorAccepts);
      } else if status == P.FAILED {
        machine.SetError(RPC_ERROR, FailedOnChain, NO_META.(hash := Some(hash)));
      } else {
        machine.SetError(TIMEOUT, StillPending, NO_META.(hash := Some(hash)));
      }
    }

    /** The success branch of a re-check: the remembered operation is mirrored and forgotten. */
    method ResumeMirror(hash: string, mirrorAccepts: bool)
      requires machine.transactionHash == Some(hash)
      modifies this`timeoutContext, this`mirrors, machine
      ensures timeoutContext.None? && machine.transactionHash == Some(hash)
      ensures mirrors == if old(timeoutContext).Some? then old(mirrors) + [Mirror(old(timeoutContext).value, hash)] else old(mirrors)
      ensures machine.state == if old(timeoutContext).None? || mirrorAccepts then COMPLETE else DATABASE_SYNC_FAILED
      ensures machine.state == DATABASE_SYNC_FAILED ==> machine.lastError == MirrorRefused
      ensures machine.retryCount == old(machine.retryCount) + if old(timeoutContext).None? || mirrorAccepts then 0 else 1
    {
      machine.Transition(CONFIRMED, NO_META.(hash := Some(hash)));
      var ctx := timeoutContext;
      timeoutContext := None;
      if ctx.Some? {
        RunMirror(ctx.value, hash, mirrorAccepts, DATABASE_SYNC_FAILED);
      } else {
        machine.Transition(COMPLETE, NO_META.(hash := Some(hash)));
      }
    }

    method HandleDismiss()
      requires Enabled(View(), Dismiss)
      modifies machine
      ensures View() == PageNext(old(View()), Dismiss)
    {
      machine.Reset();
    }
  }

  // ---- Properties ----

  /** With a configured contract and a connected wallet every decision ends in exactly one
      of three ways; the operation counts as submitted exactly when the network answered,
      and the mirror is called exactly when the contract call returned. */
  lemma ThreeEndings(p: Page, e: Event)
    requires e.Decide? && e.configured && e.connected
    ensures
      var q := PageNext(p, e);
      var complete := q.state == COMPLETE && q.retries == 0;
      var timeout := q.state == TIMEOUT && q.retries == 1 && q.hash.Some? && q.context == Some(e.op);
      var failed := q.state == RPC_ERROR && q.retries == 1 && q.context.None?;
      && (complete || timeout || failed)
      && (timeout <==> P.Decided(e.oracle).TimedOut?)
      && (complete <==> P.Decided(e.oracle).Returned? && e.mirrorAccepts)
      && (P.AllGood(e.oracle) ==> |q.submitted| == |p.submitted| + 1 && q.submitted[..|p.submitted|] == p.submitted && q.submitted[|p.submitted|].op == e.op)
      && (!P.AllGood(e.oracle) ==> q.submitted == p.submitted && q.mirrors == p.mirrors)
      && q.hash == (match P.Decided(e.oracle) case Returned(h) => Some(h) case TimedOut(h) => Some(h) case Threw => None)
      && q.mirrors == (if P.Decided(e.oracle).Returned? then p.mirrors + [Mirror(e.op, P.Decided(e.oracle).hash)] else p.mirrors)
  {
  }

  predicate ContextMatches(p: Page) {
    && (p.context.Some? ==> p.submitted != [] && p.submitted[|p.submitted| - 1].op == p.context.value)
    && (p.state == TIMEOUT ==> p.context.Some? && p.hash == Some(p.submitted[|p.submitted| - 1].hash))
    && (forall m | m in p.mirrors :: m in p.submitted)
  }

  lemma StepKeepsContext(p: Page, e: Event)
    requires ContextMatches(p)
    ensures ContextMatches(PageNext(p, e))
  {
    var q := PageNext(p, e);
    if e.Decide? && e.configured && e.connected && P.ReachesNetwork(e.oracle) {
      assert q.submitted[|q.submitted| - 1] == Mirror(e.op, P.TxHash(e.oracle.submission.hash));
      forall m | m in q.mirrors ensures m in q.submitted {
        if m in p.mirrors { assert m in p.submitted; }
      }
    } else if Enabled(p, e) && e.CheckAgain? {
      assert p.submitted[|p.submitted| - 1] == Mirror(p.context.value, p.hash.value);
    }
  }

  /** In every serial run: while the machine shows TIMEOUT, the remembered context is the
      operation whose transaction is displayed, and every mirror ever made records an
      operation together with the hash its own transaction got. */
  lemma {:induction false} SerialRunsMirrorTheRightOperation(es: seq<Event>)
    ensures ContextMatches(PageAfter(es))
  {
    if |es| > 0 {
      SerialRunsMirrorTheRightOperation(es[..|es| - 1]);
      StepKeepsContext(PageAfter(es[..|es| - 1]), es[|es| - 1]);
    }
  }

  /** In a serial run "Check again" resumes the interrupted operation: a confirmed check
      mirrors the operation submitted last, under its own hash, and forgets it; any other
      check mirrors nothing, and only an inconclusive one can be repeated. */
  lemma CheckResumesTheInterruptedOperation(es: seq<Event>, e: Event)
    requires e.CheckAgain? && Enabled(PageAfter(es), e)
    ensures
      var p, q := PageAfter(es), PageNext(PageAfter(es), e);
      var confirmed := P.Conclusive(e.poll) && e.poll.status == P.SUCCESS;
      && p.submitted != []
      && q.mirrors == (if confirmed then p.mirrors + [p.submitted[|p.submitted| - 1]] else p.mirrors)
      && (confirmed ==> q.context.None? && q.state == if e.mirrorAccepts then COMPLETE else DATABASE_SYNC_FAILED)
      && (!confirmed ==> q.context == p.context && q.hash == p.hash && q.retries == p.retries + 1)
      && (!confirmed ==> q.state == if P.Conclusive(e.poll) then RPC_ERROR else TIMEOUT)
      && (confirmed ==> q.hash == p.hash && q.retries == if e.mirrorAccepts then p.retries else p.retries + 1)
      && q.submitted == p.submitted
      && (Enabled(q, e) <==> !P.Conclusive(e.poll))
  {
    SerialRunsMirrorTheRightOperation(es);
  }

  /** The button is there exactly in TIMEOUT: the hash is always known. */
  lemma CheckOfferedExactlyWhen(es: seq<Event>, e: Event)
    requires e.CheckAgain?
    ensures Enabled(PageAfter(es), e) <==> PageAfter(es).state == TIMEOUT
  {
    SerialRunsMirrorTheRightOperation(es);
  }

  /** An operation can be dismissed exactly when it is not idle and nothing is in progress. */
  lemma DismissOfferedExactlyWhen(p: Page)
    ensures Enabled(p, Dismiss) <==>
            !(p.state == IDLE || p.state == PREPARING || p.state == SIMULATING || p.state == WAITING_FOR_SIGNATURE
              || p.state == SUBMITTING || p.state == PENDING || p.state == CONFIRMED || p.state == DATABASE_SYNC)
  {
    FailuresAreTheRest(p.state);
  }

  /** Without a configured contract, or without a wallet, nothing is submitted or mirrored
      and nothing is remembered; only the first is shown as an error. */
  lemma NothingToCall(p: Page, e: Event)
    requires e.Decide? && !(e.configured && e.connected)
    ensures
      var q := PageNext(p, e);
      && q.submitted == p.submitted && q.mirrors == p.mirrors && q.context.None?
      && (!e.configured ==> q.state == RPC_ERROR && q.retries == p.retries + 1)
      && (e.configured ==> q.state == SIMULATING && q.retries == 0 && q.hash.None?)
  {
  }

  function PageFrom(p: Page, es: seq<Event>): Page {
    if |es| == 0 then p else PageNext(PageFrom(p, es[..|es| - 1]), es[|es| - 1])
  }

  /** m is in s at position n or later. */
  predicate AddedSince(s: seq<Mirror>, n: nat, m: Mirror) {
    exists j :: n <= j < |s| && s[j] == m
  }

  /** A check in this state resumes the last submission. */
  predicate Resumes(p: Page) {
    p.submitted != [] && p.context.Some? && p.hash.Some? && p.submitted[|p.submitted| - 1] == Mirror(p.context.value, p.hash.value)
  }

  /** What holds ever after the machine has left TIMEOUT at p: submissions and mirrors are
      only added, a check can resume only a later submission, and the mirrors added are of
      later submissions. */
  predicate MovedOn(p: Page, q: Page) {
    && p.submitted <= q.submitted && p.mirrors <= q.mirrors
    && (q.state == TIMEOUT ==> |q.submitted| > |p.submitted| && Resumes(q))
    && (forall i | |p.mirrors| <= i < |q.mirrors| :: AddedSince(q.submitted, |p.submitted|, q.mirrors[i]))
  }

  /** One event adds at most one submission and at most one mirror, that of the submission
      which is then the last. */
  lemma EventAdds(q: Page, e: Event)
    requires q.state == TIMEOUT ==> Resumes(q)
    ensures
      var r := PageNext(q, e);
      && q.submitted <= r.submitted
      && (r.mirrors == q.mirrors || (r.submitted != [] && r.mirrors == q.mirrors + [r.submitted[|r.submitted| - 1]]))
      && (e.Decide? && |r.mirrors| > |q.mirrors| ==> |r.submitted| > |q.submitted|)
      && (e.Decide? && r.state == TIMEOUT ==> |r.submitted| > |q.submitted|)
      && (r.state == TIMEOUT ==> Resumes(r))
  {
  }

  lemma MovedOnStep(p: Page, q: Page, e: Event)
    requires MovedOn(p, q)
    ensures MovedOn(p, PageNext(q, e))
  {
    var r := PageNext(q, e);
    EventAdds(q, e);
    forall i | |p.mirrors| <= i < |r.mirrors| ensures AddedSince(r.submitted, |p.submitted|, r.mirrors[i]) {
      if i < |q.mirrors| {
        assert AddedSince(q.submitted, |p.submitted|, q.mirrors[i]);
        var j :| |p.submitted| <= j < |q.submitted| && q.submitted[j] == q.mirrors[i];
        assert r.submitted[j] == r.mirrors[i];
      } else {
        assert r.submitted[|r.submitted| - 1] == r.mirrors[i];
      }
    }
  }

  /** Dismissing gives up an interrupted operation: whatever follows, every mirror made from
      then on is of an operation submitted after the dismissal. */
  lemma {:induction false} DismissalAbandons(p: Page, es: seq<Event>)
    requires Enabled(p, Dismiss)
    ensures
      var d := PageNext(p, Dismiss);
      && d.state == IDLE && d.retries == 0 && d.hash.None?
      && d.mirrors == p.mirrors && d.submitted == p.submitted && d.context == p.context
      && MovedOn(d, PageFrom(d, es))
  {
    var d := PageNext(p, Dismiss);
    if |es| > 0 {
      DismissalAbandons(p, es[..|es| - 1]);
      MovedOnStep(d, PageFrom(d, es[..|es| - 1]), es[|es| - 1]);
    }
  }

  /** At most one mirror per submitted operation, in every serial run. */
  lemma {:induction false} SerialMirrorsBounded(es: seq<Event>)
    ensures
      var p := PageAfter(es);
      |p.mirrors| + (if p.context.Some? then 1 else 0) <= |p.submitted|
  {
    if |es| > 0 {
      SerialMirrorsBounded(es[..|es| - 1]);
    }
  }
}

/** The same handlers cut at every `await`, in any interleaving. */
module PageInterleaving {
  import opened Basics
  import opened ApprovePage
  import T = TransactionState

  /** Where an operation is: waiting for the contract call, or finished in one of three ways. */
  datatype Phase = Running | Failed | Expired | Confirmed

  /** The hash is known once the call has returned or timed out. */
  datatype Attempt = Attempt(op: Operation, phase: Phase, hash: string)

  /** A mirror call made: the attempt it records, and the attempt whose hash was found confirmed. */
  datatype Entry = Entry(recorded: nat, confirmed: nat)

  /** Attempts and checks are numbered by their start; a check in flight knows the attempt
      whose hash it polls. The context remembers the attempt that timed out last. */
  datatype State = State(attempts: seq<Attempt>, checks: seq<Option<nat>>, context: Option<nat>, mirrors: seq<Entry>)

  const START := State([], [], None, [])

  datatype Step =
    | Click(op: Operation)       // approve or reject, up to its first await
    | CallReturns(attempt: nat, hash: string)  // then the mirror call starts
    | CallExpires(attempt: nat, hash: string)  // the timeout callback
    | CallFails(attempt: nat)    // also when there is nothing to call
    | CheckClick(attempt: nat)   // "Check again" on the hash of an attempt that timed out
    | CheckConfirms(check: nat)
    | CheckEnds(check: nat)      // failed or still pending

  predicate Waiting(s: State, k: nat) {
    k < |s.attempts| && s.attempts[k].phase == Running
  }

  predicate TimedOut(s: State, k: nat) {
    k < |s.attempts| && s.attempts[k].phase == Expired
  }

  predicate Polling(s: State, check: nat) {
    check < |s.checks| && s.checks[check].Some?
  }

  function Finished(s: State, k: nat, phase: Phase, hash: string): State
    requires k < |s.attempts|
  {
    s.(attempts := s.attempts[k := s.attempts[k].(phase := phase, hash := hash)])
  }

  function Next(s: State, step: Step): State {
    match step
    case Click(op) => s.(attempts := s.attempts + [Attempt(op, Running, "")], context := None)
    case CallReturns(k, hash) =>
      if Waiting(s, k) then Finished(s, k, Confirmed, hash).(mirrors := s.mirrors + [Entry(k, k)]) else s
    case CallExpires(k, hash) =>
      if Waiting(s, k) then Finished(s, k, Expired, hash).(context := Some(k)) else s
    case CallFails(k) =>
      if Waiting(s, k) then Finished(s, k, Failed, "") else s
    case CheckClick(k) =>
      if TimedOut(s, k) then s.(checks := s.checks + [Some(k)]) else s
    case CheckConfirms(c) =>
      if !Polling(s, c) then s
      else
        var t := s.(checks := s.checks[c := None], context := None);
        if s.context.None? then t else t.(mirrors := s.mirrors + [Entry(s.context.value, s.checks[c].value)])
    case CheckEnds(c) =>
      if Polling(s, c) then s.(checks := s.checks[c := None]) else s
  }

  function From(s: State, h: seq<Step>): State {
    if |h| == 0 then s else Next(From(s, h[..|h| - 1]), h[|h| - 1])
  }

  function After(h: seq<Step>): State {
    From(START, h)
  }

  predicate Settled(s: State, k: nat) {
    k < |s.attempts| && s.attempts[k].phase != Running
  }

  /** No attempt is mirrored twice, and neither a running one nor the remembered one yet. */
  predicate MirroredOnce(s: State) {
    && (forall i, j | 0 <= i < j < |s.mirrors| :: s.mirrors[i].recorded != s.mirrors[j].recorded)
    && (forall i | 0 <= i < |s.mirrors| :: Settled(s, s.mirrors[i].recorded) && s.context != Some(s.mirrors[i].recorded))
  }

  /** Only attempts that timed out are remembered or checked, and only finished ones confirmed. */
  predicate OnlyTimedOut(s: State) {
    && (forall i | 0 <= i < |s.mirrors| :: Settled(s, s.mirrors[i].confirmed))
    && (forall c | 0 <= c < |s.checks| && s.checks[c].Some? :: TimedOut(s, s.checks[c].value))
    && (s.context.Some? ==> TimedOut(s, s.context.value))
  }

  predicate Good(s: State) {
    MirroredOnce(s) && OnlyTimedOut(s)
  }

  lemma StepKeepsOnlyTimedOut(s: State, step: Step)
    requires OnlyTimedOut(s)
    ensures OnlyTimedOut(Next(s, step))
  {
  }

  lemma StepKeepsGood(s: State, step: Step)
    requires Good(s)
    ensures Good(Next(s, step))
  {
    StepKeepsOnlyTimedOut(s, step);
  }

  /** Under every interleaving each attempt is mirrored at most once. */
  lemma {:induction false} AtMostOneMirror(h: seq<Step>)
    ensures Good(After(h))
    ensures forall i, j | 0 <= i < j < |After(h).mirrors| :: After(h).mirrors[i].recorded != After(h).mirrors[j].recorded
  {
    if |h| > 0 {
      AtMostOneMirror(h[..|h| - 1]);
      StepKeepsGood(After(h[..|h| - 1]), h[|h| - 1]);
    }
  }

  // ---- Which operation a check mirrors ----

  /** Steps that change the remembered context: a click, a timeout, the success of a check. */
  predicate Disturbs(s: State, step: Step) {
    step.Click? || (step.CallExpires? && Waiting(s, step.attempt)) || (step.CheckConfirms? && Polling(s, step.check))
  }

  predicate DisturbedAt(s: State, h: seq<Step>, i: nat)
    requires i < |h|
  {
    Disturbs(From(s, h[..i]), h[i])
  }

  predicate Undisturbed(s: State, h: seq<Step>) {
    forall i: nat | i < |h| :: !DisturbedAt(s, h, i)
  }

  lemma DisturbedPrefix(s: State, h: seq<Step>, i: nat)
    requires i < |h| - 1
    ensures DisturbedAt(s, h[..|h| - 1], i) == DisturbedAt(s, h, i)
  {
    assert h[..|h| - 1][..i] == h[..i];
  }

  lemma UndisturbedPrefix(s: State, h: seq<Step>)
    requires |h| > 0
    ensures Undisturbed(s, h) <==> Undisturbed(s, h[..|h| - 1]) && !DisturbedAt(s, h, |h| - 1)
  {
    var p := h[..|h| - 1];
    if Undisturbed(s, h) {
      forall i: nat | i < |p| ensures !DisturbedAt(s, p, i) { DisturbedPrefix(s, h, i); }
    }
    if Undisturbed(s, p) && !DisturbedAt(s, h, |h| - 1) {
      forall i: nat | i < |h| ensures !DisturbedAt(s, h, i) {
        if i < |p| { DisturbedPrefix(s, h, i); }
      }
    }
  }

  lemma RememberedStep(s: State, step: Step, k: nat)
    requires TimedOut(s, k)
    ensures TimedOut(Next(s, step), k)
    ensures Next(s, step).context == Some(k) <==> s.context == Some(k) && !Disturbs(s, step)
  {
  }

  /** An attempt that timed out is still remembered after any steps exactly when it was and
      none of them touched the context. */
  lemma {:induction false} RememberedExactlyWhen(s: State, h: seq<Step>, k: nat)
    requires TimedOut(s, k)
    ensures TimedOut(From(s, h), k)
    ensures From(s, h).context == Some(k) <==> s.context == Some(k) && Undisturbed(s, h)
  {
    if |h| > 0 {
      RememberedExactlyWhen(s, h[..|h| - 1], k);
      RememberedStep(From(s, h[..|h| - 1]), h[|h| - 1], k);
      UndisturbedPrefix(s, h);
    }
  }

  lemma {:induction false} CheckKeepsItsAttempt(s: State, h: seq<Step>, check: nat)
    requires check < |s.checks| && Polling(From(s, h), check)
    ensures From(s, h).checks[check] == s.checks[check]
  {
    if |h| > 0 {
      ChecksOnlyEnd(From(s, h[..|h| - 1]), h[|h| - 1]);
      ChecksPersist(s, h[..|h| - 1]);
      CheckKeepsItsAttempt(s, h[..|h| - 1], check);
    }
  }

  lemma ChecksOnlyEnd(s: State, step: Step)
    ensures |s.checks| <= |Next(s, step).checks|
    ensures forall c | 0 <= c < |s.checks| && Next(s, step).checks[c].Some? :: Next(s, step).checks[c] == s.checks[c]
  {
  }

  lemma {:induction false} ChecksPersist(s: State, h: seq<Step>)
    ensures |s.checks| <= |From(s, h).checks|
  {
    if |h| > 0 {
      ChecksPersist(s, h[..|h| - 1]);
      ChecksOnlyEnd(From(s, h[..|h| - 1]), h[|h| - 1]);
    }
  }

  /** The exact condition, over the run: a check in flight in a reachable state mirrors, when
      it confirms, the attempt it asks about exactly when that attempt is remembered now and
      nobody clicks, times out or confirms a check before the answer. */
  lemma ConfirmingCheckIsRightWhen(s: State, h: seq<Step>, check: nat)
    requires Good(s) && check < |s.checks| && Polling(From(s, h), check)
    ensures s.checks[check].Some?
    ensures
      var t, k := From(s, h), s.checks[check].value;
      Next(t, CheckConfirms(check)).mirrors == t.mirrors + [Entry(k, k)] <==> s.context == Some(k) && Undisturbed(s, h)
  {
    CheckKeepsItsAttempt(s, h, check);
    RememberedExactlyWhen(s, h, s.checks[check].value);
    ConfirmingRecordsContext(From(s, h), check);
  }

  /** A confirming check records the remembered attempt. */
  lemma ConfirmingRecordsContext(s: State, check: nat)
    requires Polling(s, check)
    ensures
      var k := s.checks[check].value;
      Next(s, CheckConfirms(check)).mirrors == s.mirrors + [Entry(k, k)] <==> s.context == Some(k)
  {
    var t := Next(s, CheckConfirms(check)).mirrors;
    if s.context.Some? {
      assert t[|s.mirrors|] == Entry(s.context.value, s.checks[check].value);
    } else {
      assert t == s.mirrors;
    }
  }

  /** So from the press of "Check again" on attempt k: right exactly when k is remembered at
      the press and nothing touches the context until the answer. */
  lemma PressedCheckIsRightWhen(g: seq<Step>, k: nat, h: seq<Step>)
    requires TimedOut(After(g), k)
    requires Polling(From(Next(After(g), CheckClick(k)), h), |After(g).checks|)
    ensures
      var check := |After(g).checks|;
      var t := From(Next(After(g), CheckClick(k)), h);
      Next(t, CheckConfirms(check)).mirrors == t.mirrors + [Entry(k, k)] <==>
      After(g).context == Some(k) && Undisturbed(Next(After(g), CheckClick(k)), h)
  {
    AtMostOneMirror(g);
    StepKeepsGood(After(g), CheckClick(k));
    ConfirmingCheckIsRightWhen(Next(After(g), CheckClick(k)), h, |After(g).checks|);
  }

  /** With overlap it can be wrong: a check on the first attempt mirrors the second. */
  lemma OverlapMirrorsAnother(a: Operation, b: Operation, x: string, y: string)
    ensures After([Click(a), CallExpires(0, x), CheckClick(0), Click(b), CallExpires(1, y), CheckConfirms(0)]).mirrors == [Entry(1, 0)]
  {
    var h1 := [Click(a)];
    var h2 := h1 + [CallExpires(0, x)];
    var h3 := h2 + [CheckClick(0)];
    var h4 := h3 + [Click(b)];
    var h5 := h4 + [CallExpires(1, y)];
    var first, second := Attempt(a, Expired, x), Attempt(b, Expired, y);
    assert h1[..0] == [] && From(START, h1[..0]) == START;
    assert After(h1) == State([Attempt(a, Running, "")], [], None, []);
    assert h2[..1] == h1 && After(h2) == State([first], [], Some(0), []);
    assert h3[..2] == h2 && After(h3) == State([first], [Some(0)], Some(0), []);
    assert h4[..3] == h3 && After(h4) == State([first, Attempt(b, Running, "")], [Some(0)], None, []);
    assert h5[..4] == h4 && After(h5) == State([first, second], [Some(0)], Some(1), []);
    assert [Click(a), CallExpires(0, x), CheckClick(0), Click(b), CallExpires(1, y), CheckConfirms(0)][..5] == h5;
  }

  // ---- Serial runs are interleavings ----

  /** The mirror call an entry stands for: the recorded operation, with the confirmed hash. */
  function MirrorOf(s: State, e: Entry): Mirror
    requires e.recorded < |s.attempts| && e.confirmed < |s.attempts|
  {
    Mirror(s.attempts[e.recorded].op, s.attempts[e.confirmed].hash)
  }

  predicate MirrorsAgree(mirrors: seq<Mirror>, s: State) {
    && |mirrors| == |s.mirrors|
    && forall i | 0 <= i < |mirrors| ::
         && s.mirrors[i].recorded < |s.attempts| && s.mirrors[i].confirmed < |s.attempts|
         && mirrors[i] == MirrorOf(s, s.mirrors[i])
  }

  /** The remembered operation is that of the remembered attempt, whose hash is displayed
      while the machine shows TIMEOUT. */
  predicate ContextAgrees(p: Page, s: State) {
    if s.context.None? then p.context.None? && p.state != T.TIMEOUT
    else
      && TimedOut(s, s.context.value)
      && p.context == Some(s.attempts[s.context.value].op)
      && (p.state == T.TIMEOUT ==> p.hash == Some(s.attempts[s.context.value].hash))
  }

  /** The same mirror calls with the same hashes, and the same operation remembered. */
  predicate Agrees(p: Page, s: State) {
    Good(s) && MirrorsAgree(p.mirrors, s) && ContextAgrees(p, s)
  }

  /** A step moves no attempt that is not waiting. */
  lemma SettledStays(s: State, step: Step, k: nat)
    requires Settled(s, k)
    ensures Settled(Next(s, step), k) && Next(s, step).attempts[k] == s.attempts[k]
  {
  }

  lemma StepKeepsMirrors(mirrors: seq<Mirror>, s: State, step: Step)
    requires Good(s) && MirrorsAgree(mirrors, s) && Next(s, step).mirrors == s.mirrors
    ensures Good(Next(s, step)) && MirrorsAgree(mirrors, Next(s, step))
  {
    StepKeepsGood(s, step);
    forall i | 0 <= i < |mirrors| ensures MirrorOf(Next(s, step), s.mirrors[i]) == mirrors[i] {
      SettledStays(s, step, s.mirrors[i].recorded);
      SettledStays(s, step, s.mirrors[i].confirmed);
    }
  }

  lemma StepAddsMirror(mirrors: seq<Mirror>, s: State, step: Step, e: Entry)
    requires Good(s) && MirrorsAgree(mirrors, s) && Next(s, step).mirrors == s.mirrors + [e]
    ensures Good(Next(s, step)) && Settled(Next(s, step), e.recorded) && Settled(Next(s, step), e.confirmed)
    ensures MirrorsAgree(mirrors + [MirrorOf(Next(s, step), e)], Next(s, step))
  {
    StepKeepsGood(s, step);
    var t := Next(s, step);
    assert t.mirrors[|mirrors|] == e;
    forall i | 0 <= i < |mirrors| ensures t.mirrors[i] == s.mirrors[i] && MirrorOf(t, s.mirrors[i]) == mirrors[i] {
      SettledStays(s, step, s.mirrors[i].recorded);
      SettledStays(s, step, s.mirrors[i].confirmed);
    }
  }

  /** The uncontended steps of one serial event. */
  function StepsOf(s: State, e: Event): seq<Step> {
    match e
    case Decide(op, configured, connected, oracle, _) =>
      var k := |s.attempts|;
      var finish :=
        if !configured || !connected then CallFails(k)
        else match P.Decided(oracle)
          case Returned(h) => CallReturns(k, h)
          case TimedOut(h) => CallExpires(k, h)
          case Threw => CallFails(k);
      [Click(op), finish]
    case CheckAgain(poll, _) =>
      if s.context.None? then []
      else
        var c := |s.checks|;
        [CheckClick(s.context.value), if P.PollOnce(poll) == P.SUCCESS then CheckConfirms(c) else CheckEnds(c)]
    case Dismiss => []
  }

  lemma FromTwo(s: State, a: Step, b: Step)
    ensures From(s, [a, b]) == Next(Next(s, a), b)
  {
    assert [a, b][..1] == [a] && [a][..0] == [];
    assert From(s, [a]) == Next(s, a);
  }

  lemma DecideAgrees(p: Page, s: State, e: Event)
    requires Agrees(p, s) && e.Decide?
    ensures Agrees(PageNext(p, e), From(s, StepsOf(s, e)))
  {
    var steps := StepsOf(s, e);
    FromTwo(s, steps[0], steps[1]);
    StepKeepsMirrors(p.mirrors, s, steps[0]);
    var t, k := Next(s, steps[0]), |s.attempts|;
    assert Waiting(t, k);
    if steps[1].CallReturns? {
      StepAddsMirror(p.mirrors, t, steps[1], Entry(k, k));
    } else {
      StepKeepsMirrors(p.mirrors, t, steps[1]);
    }
  }

  lemma CheckAgrees(p: Page, s: State, e: Event)
    requires Agrees(p, s) && e.CheckAgain? && Enabled(p, e)
    ensures Agrees(PageNext(p, e), From(s, StepsOf(s, e)))
  {
    var steps := StepsOf(s, e);
    FromTwo(s, steps[0], steps[1]);
    StepKeepsMirrors(p.mirrors, s, steps[0]);
    var t, k := Next(s, steps[0]), s.context.value;
    if steps[1].CheckConfirms? {
      StepAddsMirror(p.mirrors, t, steps[1], Entry(k, k));
    } else {
      StepKeepsMirrors(p.mirrors, t, steps[1]);
    }
  }

  lemma {:induction false} FromConcat(s: State, g: seq<Step>, h: seq<Step>)
    ensures From(s, g + h) == From(From(s, g), h)
  {
    if |h| == 0 {
      assert g + h == g;
    } else {
      var gh := g + h;
      assert gh[..|gh| - 1] == g + h[..|h| - 1];
      FromConcat(s, g, h[..|h| - 1]);
    }
  }

  /** Every serial run of the page handlers is one of these interleavings, with the same
      mirror calls, hashes included, and the same remembered operation. */
  lemma {:induction false} SerialRunsEmbed(es: seq<Event>) returns (h: seq<Step>)
    ensures Agrees(PageAfter(es), After(h))
  {
    h := [];
    if |es| > 0 {
      var before := es[..|es| - 1];
      h := SerialRunsEmbed(before);
      var p, e := PageAfter(before), es[|es| - 1];
      if Enabled(p, e) {
        if e.Decide? { DecideAgrees(p, After(h), e); }
        if e.CheckAgain? { CheckAgrees(p, After(h), e); }
        FromConcat(START, h, StepsOf(After(h), e));
        h := h + StepsOf(After(h), e);
      }
    }
  }
}
