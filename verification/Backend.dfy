/** The two tables the handlers share, one method per SQL statement. */
module Database {
  import opened Basics

  type Uuid = nat

  datatype Status = OPEN | SUBMITTED | PENDING_APPROVAL | COMPLIANT

  datatype Role = SUPERVISOR | AUDITOR

  datatype Decision = APPROVED | REJECTED

  datatype Row = Row(record: Uuid, role: Role, decision: Decision)

  datatype Tables = Tables(records: map<Uuid, Status>, approvals: seq<Row>)

  predicate Has(db: Tables, id: Uuid, role: Role, decision: Decision) {
    Row(id, role, decision) in db.approvals
  }

  function CountApproved(rows: seq<Row>, id: Uuid, role: Role): nat {
    if |rows| == 0 then 0
    else (if rows[0] == Row(id, role, APPROVED) then 1 else 0) + CountApproved(rows[1..], id, role)
  }

  /** A positive count means there is an approved row. */
  lemma {:induction false} CountPositive(rows: seq<Row>, id: Uuid, role: Role)
    ensures CountApproved(rows, id, role) > 0 <==> Row(id, role, APPROVED) in rows
  {
    if |rows| > 0 {
      CountPositive(rows[1..], id, role);
      assert rows == [rows[0]] + rows[1..];
    }
  }

  /** A primary-key clash refuses the insert. */
  function InsertedRecord(db: Tables, id: Uuid): Option<Tables> {
    if id in db.records then None else Some(db.(records := db.records[id := OPEN]))
  }

  /** An update that matches no row changes nothing and is no error. */
  function WithStatus(db: Tables, id: Uuid, status: Status): Tables {
    if id in db.records then db.(records := db.records[id := status]) else db
  }

  /** The foreign key to `maintenance_records` refuses rows for unknown records. */
  function InsertedRow(db: Tables, row: Row): Option<Tables> {
    if row.record in db.records then Some(db.(approvals := db.approvals + [row])) else None
  }

  class Connection {
    var records: map<Uuid, Status>
    var approvals: seq<Row>

    constructor ()
      ensures View() == Tables(map[], [])
    {
      records, approvals := map[], [];
    }

    function View(): Tables
      reads this
    {
      Tables(records, approvals)
    }

    method InsertRecord(id: Uuid) returns (ok: bool)
      modifies this
      ensures ok <==> InsertedRecord(old(View()), id).Some?
      ensures View() == if ok then InsertedRecord(old(View()), id).value else old(View())
    {
      ok := id !in records;
      if ok { records := records[id := OPEN]; }
    }

    method UpdateStatus(id: Uuid, status: Status)
      modifies this
      ensures View() == WithStatus(old(View()), id, status)
    {
      if id in records { records := records[id := status]; }
    }

    method InsertApproval(row: Row) returns (ok: bool)
      modifies this
      ensures ok <==> InsertedRow(old(View()), row).Some?
      ensures View() == if ok then InsertedRow(old(View()), row).value else old(View())
    {
      ok := row.record in records;
      if ok { approvals := approvals + [row]; }
    }

    method SelectCount(id: Uuid, role: Role) returns (n: nat)
      ensures n == CountApproved(approvals, id, role)
      ensures n > 0 <==> Has(View(), id, role, APPROVED)
    {
      CountPositive(approvals, id, role);
      n := CountApproved(approvals, id, role);
    }
  }
}

/** Handlers as programs of statements, run in any interleaving and cut off anywhere. */
module Backend {
  import opened Basics
  import opened Database

  datatype Job =
    | CreateOrder(id: Uuid)
    | SubmitEvidence(id: Uuid)                        // and the file upload's update
    | SupervisorDecision(id: Uuid, decision: Decision)
    | ApproveByAuditor(id: Uuid)
    | CheckEligibility(id: Uuid)

  /** A handler in progress: the next statement, whether it still runs, and what the
      eligibility check has seen and answered. */
  datatype Thread = Thread(job: Job, pc: nat, live: bool, supervisorSeen: bool, answer: Option<bool>)

  function Begin(job: Job): Thread {
    Thread(job, 0, true, false, None)
  }

  function Advanced(t: Thread): Thread {
    t.(pc := t.pc + 1)
  }

  function Stopped(t: Thread): Thread {
    t.(live := false)
  }

  /** The next statement of a handler. Statements that only read, or that consult the
      users table or the network, just advance; any of them may instead be cut off. */
  function Statement(db: Tables, t: Thread): (Tables, Thread) {
    match t.job
    case CreateOrder(id) =>
      if t.pc == 0 then
        match InsertedRecord(db, id)
        case Some(n) => (n, Advanced(t))
        case None => (db, Stopped(t))
      else (db, Stopped(t))
    case SubmitEvidence(id) =>
      if t.pc == 0 then (WithStatus(db, id, SUBMITTED), Advanced(t)) else (db, Stopped(t))
    case SupervisorDecision(id, decision) =>
      if t.pc == 0 then (WithStatus(db, id, if decision == APPROVED then PENDING_APPROVAL else SUBMITTED), Advanced(t))
      else if t.pc == 1 then (db, Advanced(t))
      else if t.pc == 2 then
        match InsertedRow(db, Row(id, SUPERVISOR, decision))
        case Some(n) => (n, Advanced(t))
        case None => (db, Stopped(t))
      else (db, Stopped(t))
    case ApproveByAuditor(id) =>
      if t.pc == 0 then
        if CountApproved(db.approvals, id, SUPERVISOR) == 0 then (db, Stopped(t)) else (db, Advanced(t))
      else if t.pc == 1 || t.pc == 2 then (db, Advanced(t))
      else if t.pc == 3 then
        match InsertedRow(db, Row(id, AUDITOR, APPROVED))
        case Some(n) => (n, Advanced(t))
        case None => (db, Stopped(t))
      else if t.pc == 4 then (WithStatus(db, id, COMPLIANT), Advanced(t))
      else (db, Stopped(t))
    case CheckEligibility(id) =>
      if t.pc == 0 then (db, Advanced(t).(supervisorSeen := CountApproved(db.approvals, id, SUPERVISOR) > 0))
      else (db, Stopped(t).(pc := 2, answer := Some(t.supervisorSeen && CountApproved(db.approvals, id, AUDITOR) > 0)))
  }

  datatype System = System(db: Tables, threads: seq<Thread>)

  datatype Step =
    | Request(job: Job)
    | Run(thread: nat)    // one statement of a thread
    | Abort(thread: nat)  // it fails or its connection drops

  function Next(s: System, step: Step): System {
    match step
    case Request(job) => s.(threads := s.threads + [Begin(job)])
    case Run(i) =>
      if i < |s.threads| && s.threads[i].live then
        var (db, t) := Statement(s.db, s.threads[i]);
        System(db, s.threads[i := t])
      else s
    case Abort(i) =>
      if i < |s.threads| then s.(threads := s.threads[i := Stopped(s.threads[i])]) else s
  }

  function After(start: Tables, h: seq<Step>): System {
    if |h| == 0 then System(start, []) else Next(After(start, h[..|h| - 1]), h[|h| - 1])
  }

  // ---- Approvals are append-only ----

  lemma StatementAppends(db: Tables, t: Thread)
    ensures db.approvals <= Statement(db, t).0.approvals
  {
  }

  lemma {:induction false} ApprovalsOnlyGrow(start: Tables, h: seq<Step>, i: nat)
    requires i <= |h|
    ensures After(start, h[..i]).db.approvals <= After(start, h).db.approvals
  {
    if i < |h| {
      var p := h[..|h| - 1];
      assert p[..i] == h[..i];
      ApprovalsOnlyGrow(start, p, i);
      var s, last := After(start, p), h[|h| - 1];
      if last.Run? && last.thread < |s.threads| {
        StatementAppends(s.db, s.threads[last.thread]);
      }
    } else {
      assert h[..i] == h;
    }
  }

  predicate Eligible(db: Tables, id: Uuid) {
    Has(db, id, SUPERVISOR, APPROVED) && Has(db, id, AUDITOR, APPROVED)
  }

  lemma EligibilityIsStable(start: Tables, h: seq<Step>, i: nat, id: Uuid)
    requires i <= |h| && Eligible(After(start, h[..i]).db, id)
    ensures Eligible(After(start, h).db, id)
  {
    ApprovalsOnlyGrow(start, h, i);
  }

  // ---- Compliance ----

  /** What a handler knows at its current statement. */
  predicate Knows(db: Tables, t: Thread) {
    match t.job
    case ApproveByAuditor(id) =>
      && (t.pc >= 1 ==> Has(db, id, SUPERVISOR, APPROVED))
      && (t.pc >= 4 ==> Has(db, id, AUDITOR, APPROVED))
    case CheckEligibility(id) =>
      && (t.supervisorSeen ==> Has(db, id, SUPERVISOR, APPROVED))
      && (t.answer == Some(true) ==> Eligible(db, id))
    case _ => true
  }

  predicate CompliantApproved(db: Tables) {
    forall id | id in db.records && db.records[id] == COMPLIANT :: Eligible(db, id)
  }

  predicate Sound(s: System) {
    && CompliantApproved(s.db)
    && forall i | 0 <= i < |s.threads| :: Knows(s.db, s.threads[i])
  }

  lemma StatementKeepsSound(db: Tables, t: Thread)
    requires CompliantApproved(db) && Knows(db, t)
    ensures CompliantApproved(Statement(db, t).0) && Knows(Statement(db, t).0, Statement(db, t).1)
  {
    CountPositive(db.approvals, t.job.id, SUPERVISOR);
    CountPositive(db.approvals, t.job.id, AUDITOR);
    StatementAppends(db, t);
  }

  lemma StepKeepsSound(s: System, step: Step)
    requires Sound(s)
    ensures Sound(Next(s, step))
  {
    if step.Run? && step.thread < |s.threads| && s.threads[step.thread].live {
      var t := s.threads[step.thread];
      StatementKeepsSound(s.db, t);
      StatementAppends(s.db, t);
      var n := Next(s, step);
      forall i | 0 <= i < |n.threads| ensures Knows(n.db, n.threads[i]) {
        if i != step.thread { assert Knows(s.db, s.threads[i]); }
      }
    }
  }

  /** Starting without COMPLIANT records, under every interleaving and with handlers cut
      off anywhere, a COMPLIANT record has an approved supervisor row and an approved
      auditor row, and an eligibility check that answers yes is right. */
  lemma {:induction false} CompliantIsEligible(start: Tables, h: seq<Step>)
    requires forall id | id in start.records :: start.records[id] != COMPLIANT
    ensures Sound(After(start, h))
    ensures
      var s := After(start, h);
      && (forall id | id in s.db.records && s.db.records[id] == COMPLIANT :: Eligible(s.db, id))
      && (forall i | 0 <= i < |s.threads| && s.threads[i].job.CheckEligibility? && s.threads[i].answer == Some(true) :: Eligible(s.db, s.threads[i].job.id))
  {
    if |h| > 0 {
      var p := h[..|h| - 1];
      CompliantIsEligible(start, p);
      StepKeepsSound(After(start, p), h[|h| - 1]);
    }
  }

  /** The two counts of an eligibility check are separate statements, yet a check that
      starts once the record is eligible answers yes once both have run. */
  lemma {:induction false} LateChecksSayYes(start: Tables, h: seq<Step>, i: nat, k: nat, id: Uuid)
    requires i <= |h| && Eligible(After(start, h[..i]).db, id)
    requires |After(start, h[..i]).threads| <= k < |After(start, h).threads|
    requires After(start, h).threads[k].job == CheckEligibility(id)
    ensures
      var t := After(start, h).threads[k];
      (t.pc >= 1 ==> t.supervisorSeen) && (t.pc <= 1 ==> t.answer.None?) && (t.pc > 1 ==> t.answer == Some(true))
  {
    assert h[..|h|] == h;
    var p, last := h[..|h| - 1], h[|h| - 1];
    assert p[..i] == h[..i];
    var s := After(start, p);
    StepKeepsJobs(s, last);
    if k < |s.threads| {
      LateChecksSayYes(start, p, i, k, id);
      EligibilityIsStable(start, p, i, id);
      CheckSeesEligible(s.db, s.threads[k], id);
    }
  }

  lemma StepKeepsJobs(s: System, step: Step)
    ensures |s.threads| <= |Next(s, step).threads|
    ensures forall i | 0 <= i < |s.threads| :: Next(s, step).threads[i].job == s.threads[i].job
  {
  }

  lemma CheckSeesEligible(db: Tables, t: Thread, id: Uuid)
    requires t.job == CheckEligibility(id) && Eligible(db, id)
    requires (t.pc >= 1 ==> t.supervisorSeen) && (t.pc <= 1 ==> t.answer.None?) && (t.pc > 1 ==> t.answer == Some(true))
    ensures
      var u := Statement(db, t).1;
      (u.pc >= 1 ==> u.supervisorSeen) && (u.pc <= 1 ==> u.answer.None?) && (u.pc > 1 ==> u.answer == Some(true))
  {
    CountPositive(db.approvals, id, SUPERVISOR);
    CountPositive(db.approvals, id, AUDITOR);
  }

  // ---- Where rows come from ----

  predicate Inserted(t: Thread, row: Row) {
    match row.role
    case SUPERVISOR => t.job == SupervisorDecision(row.record, row.decision) && t.pc >= 3
    case AUDITOR => row.decision == APPROVED && t.job == ApproveByAuditor(row.record) && t.pc >= 4
  }

  predicate SomeInserted(s: System, row: Row) {
    exists i :: 0 <= i < |s.threads| && Inserted(s.threads[i], row)
  }

  lemma StatementInserts(db: Tables, t: Thread, row: Row)
    ensures
      var (n, u) := Statement(db, t);
      && (row in n.approvals <==> row in db.approvals || (Inserted(u, row) && !Inserted(t, row)))
      && (Inserted(t, row) ==> Inserted(u, row))
  {
  }

  lemma StepInserts(s: System, step: Step, row: Row)
    requires row in s.db.approvals <==> SomeInserted(s, row)
    ensures row in Next(s, step).db.approvals <==> SomeInserted(Next(s, step), row)
  {
    var n := Next(s, step);
    match step
    case Request(job) =>
      forall i | 0 <= i < |s.threads| ensures n.threads[i] == s.threads[i] {}
      assert SomeInserted(s, row) ==> SomeInserted(n, row) by {
        if SomeInserted(s, row) {
          var i :| 0 <= i < |s.threads| && Inserted(s.threads[i], row);
          assert Inserted(n.threads[i], row);
        }
      }
    case Run(k) =>
      if k < |s.threads| && s.threads[k].live {
        StatementInserts(s.db, s.threads[k], row);
        ReplacedInserts(s, n, k, row);
      }
    case Abort(k) =>
      if k < |s.threads| {
        ReplacedInserts(s, n, k, row);
      }
  }

  lemma ReplacedInserts(s: System, n: System, k: nat, row: Row)
    requires k < |s.threads| == |n.threads| && n.threads == s.threads[k := n.threads[k]]
    requires Inserted(s.threads[k], row) ==> Inserted(n.threads[k], row)
    ensures SomeInserted(n, row) <==> SomeInserted(s, row) || Inserted(n.threads[k], row)
  {
    if SomeInserted(s, row) {
      var i :| 0 <= i < |s.threads| && Inserted(s.threads[i], row);
      assert Inserted(n.threads[i], row);
    }
    if SomeInserted(n, row) {
      var i :| 0 <= i < |n.threads| && Inserted(n.threads[i], row);
      assert i == k || Inserted(s.threads[i], row);
    }
  }

  /** Provenance: from empty tables, a row is in the approvals table exactly when some
      handler for that record, role and decision got past its insert statement. */
  lemma {:induction false} RowsComeFromHandlers(h: seq<Step>, row: Row)
    ensures
      var s := After(Tables(map[], []), h);
      row in s.db.approvals <==> SomeInserted(s, row)
  {
    if |h| > 0 {
      RowsComeFromHandlers(h[..|h| - 1], row);
      StepInserts(After(Tables(map[], []), h[..|h| - 1]), h[|h| - 1], row);
    }
  }

  // ---- Where a pending status comes from ----

  /** A supervisor approval of the record that got past its status update. */
  predicate Approving(t: Thread, id: Uuid) {
    t.job == SupervisorDecision(id, APPROVED) && t.pc >= 1
  }

  predicate SomeApproving(s: System, id: Uuid) {
    exists i :: 0 <= i < |s.threads| && Approving(s.threads[i], id)
  }

  /** ... but not past its insert: it is still running there, or was cut off there. */
  predicate BetweenUpdateAndInsert(t: Thread) {
    1 <= t.pc < 3
  }

  predicate IsPending(db: Tables, id: Uuid) {
    id in db.records && db.records[id] == PENDING_APPROVAL
  }

  lemma StatementPends(db: Tables, t: Thread, id: Uuid)
    ensures IsPending(Statement(db, t).0, id) ==> IsPending(db, id) || Approving(Statement(db, t).1, id)
    ensures Approving(t, id) ==> Approving(Statement(db, t).1, id)
  {
  }

  lemma StepPends(s: System, step: Step, id: Uuid)
    requires IsPending(s.db, id) ==> SomeApproving(s, id)
    ensures IsPending(Next(s, step).db, id) ==> SomeApproving(Next(s, step), id)
  {
    var n := Next(s, step);
    if step.Run? && step.thread < |s.threads| && s.threads[step.thread].live {
      StatementPends(s.db, s.threads[step.thread], id);
      assert n.threads[step.thread] == Statement(s.db, s.threads[step.thread]).1;
    }
    if IsPending(n.db, id) && SomeApproving(s, id) {
      var i :| 0 <= i < |s.threads| && Approving(s.threads[i], id);
      assert Approving(n.threads[i], id);
    }
  }

  /** From empty tables, a PENDING_APPROVAL status was written by a supervisor approval of
      that record. */
  lemma {:induction false} PendingComesFromSupervisor(h: seq<Step>, id: Uuid)
    requires IsPending(After(Tables(map[], []), h).db, id)
    ensures SomeApproving(After(Tables(map[], []), h), id)
  {
    var p := After(Tables(map[], []), h[..|h| - 1]);
    if IsPending(p.db, id) {
      PendingComesFromSupervisor(h[..|h| - 1], id);
    }
    StepPends(p, h[|h| - 1], id);
  }

  /** From empty tables, a PENDING_APPROVAL record lacks its approval row exactly when every
      supervisor approval of it is between its update and its insert; there is at least one. */
  lemma PendingLacksRowExactlyWhen(h: seq<Step>, id: Uuid)
    requires IsPending(After(Tables(map[], []), h).db, id)
    ensures
      var s := After(Tables(map[], []), h);
      && SomeApproving(s, id)
      && (!Has(s.db, id, SUPERVISOR, APPROVED) <==>
          forall i | 0 <= i < |s.threads| && Approving(s.threads[i], id) :: BetweenUpdateAndInsert(s.threads[i]))
  {
    var s, row := After(Tables(map[], []), h), Row(id, SUPERVISOR, APPROVED);
    PendingComesFromSupervisor(h, id);
    RowsComeFromHandlers(h, row);
    if row in s.db.approvals {
      var i :| 0 <= i < |s.threads| && Inserted(s.threads[i], row);
      assert Approving(s.threads[i], id);
    } else {
      forall i | 0 <= i < |s.threads| && Approving(s.threads[i], id) ensures BetweenUpdateAndInsert(s.threads[i]) {
        assert !Inserted(s.threads[i], row);
      }
    }
  }

  /** The status is written before the row, so that does happen. */
  lemma PendingWithoutRow()
    ensures
      var s := After(Tables(map[], []), [Request(CreateOrder(7)), Run(0), Request(SupervisorDecision(7, APPROVED)), Run(1), Abort(1)]);
      s.db == Tables(map[7 := PENDING_APPROVAL], [])
  {
    var start := Tables(map[], []);
    var h1 := [Request(CreateOrder(7))];
    var h2 := h1 + [Run(0)];
    var h3 := h2 + [Request(SupervisorDecision(7, APPROVED))];
    var h4 := h3 + [Run(1)];
    var created := Begin(CreateOrder(7));
    var deciding := Begin(SupervisorDecision(7, APPROVED));
    assert h1[..0] == [] && After(start, h1) == System(start, [created]);
    assert h2[..1] == h1 && After(start, h2) == System(Tables(map[7 := OPEN], []), [Advanced(created)]);
    assert h3[..2] == h2 && After(start, h3) == System(Tables(map[7 := OPEN], []), [Advanced(created), deciding]);
    assert h4[..3] == h3 && After(start, h4).db == Tables(map[7 := PENDING_APPROVAL], []);
    assert [Request(CreateOrder(7)), Run(0), Request(SupervisorDecision(7, APPROVED)), Run(1), Abort(1)][..4] == h4;
  }
}

/** The handlers themselves, each running alone on a connection until statement number
    `cut` fails. */
module Handlers {
  import opened Basics
  import opened Database
  import opened Backend

  datatype Response = Ok200 | Conflict409 | Error

  /** n statements of one thread with nobody else running. */
  function Alone(db: Tables, t: Thread, n: nat): (Tables, Thread) {
    if n == 0 then (db, t)
    else
      var (d, u) := Alone(db, t, n - 1);
      if u.live then Statement(d, u) else (d, u)
  }

  /** Once a thread has stopped, nothing more happens. */
  lemma {:induction false} StoppedStays(db: Tables, t: Thread, k: nat, n: nat)
    requires k <= n && !Alone(db, t, k).1.live
    ensures Alone(db, t, n) == Alone(db, t, k)
  {
    if k < n { StoppedStays(db, t, k, n - 1); }
  }

  method CreateMaintenanceOrder(db: Connection, id: Uuid, cut: nat) returns (r: Response)
    modifies db
    ensures db.View() == Alone(old(db.View()), Begin(CreateOrder(id)), cut).0
    ensures r != Conflict409 && (r == Ok200 <==> cut >= 2 && id !in old(db.records))
    ensures r == Ok200 ==> db.View() == Tables(old(db.records)[id := OPEN], old(db.approvals))
  {
    ghost var start, t := db.View(), Begin(CreateOrder(id));
    if cut == 0 { return Error; }
    assert Alone(start, t, 1) == Statement(start, t);
    var inserted := db.InsertRecord(id);
    if !inserted {
      StoppedStays(start, t, 1, cut);
      return Error;
    }
    if cut == 1 { return Error; }
    assert Alone(start, t, 2) == (db.View(), Stopped(Advanced(t)));
    StoppedStays(start, t, 2, cut);
    r := Ok200;
  }

  method SubmitEvidenceHandler(db: Connection, id: Uuid, cut: nat) returns (r: Response)
    modifies db
    ensures db.View() == Alone(old(db.View()), Begin(SubmitEvidence(id)), cut).0
    ensures r != Conflict409 && (r == Ok200 <==> cut >= 2 && id in old(db.records))
    ensures r == Ok200 ==> db.View() == Tables(old(db.records)[id := SUBMITTED], old(db.approvals))
    // An unknown record is an error even with nothing cut off.
    ensures id !in old(db.records) ==> db.View() == old(db.View())
  {
    ghost var start, t := db.View(), Begin(SubmitEvidence(id));
    if cut == 0 { return Error; }
    assert Alone(start, t, 1) == Statement(start, t);
    db.UpdateStatus(id, SUBMITTED);
    if cut == 1 { return Error; }
    assert Alone(start, t, 2) == (db.View(), Stopped(Advanced(t)));
    StoppedStays(start, t, 2, cut);
    r := if id in db.records then Ok200 else Error;
  }

  method SupervisorDecisionHandler(db: Connection, id: Uuid, decision: Decision, cut: nat) returns (r: Response)
    modifies db
    ensures db.View() == Alone(old(db.View()), Begin(SupervisorDecision(id, decision)), cut).0
    ensures r != Conflict409 && (r == Ok200 <==> cut >= 4 && id in old(db.records))
    ensures r == Ok200 ==>
              db.View() == Tables(old(db.records)[id := if decision == APPROVED then PENDING_APPROVAL else SUBMITTED],
                                  old(db.approvals) + [Row(id, SUPERVISOR, decision)])
  {
    ghost var start, t := db.View(), Begin(SupervisorDecision(id, decision));
    if cut == 0 { return Error; }
    var target := if decision == APPROVED then PENDING_APPROVAL else SUBMITTED;
    assert Alone(start, t, 1) == Statement(start, t);
    db.UpdateStatus(id, target);
    if cut == 1 { return Error; }
    ghost var t2 := Advanced(Advanced(t));
    assert Alone(start, t, 2) == (db.View(), t2);
    if cut == 2 { return Error; }
    ghost var before := db.View();
    assert Alone(start, t, 3) == Statement(before, t2);
    var inserted := db.InsertApproval(Row(id, SUPERVISOR, decision));
    if !inserted {
      StoppedStays(start, t, 3, cut);
      return Error;
    }
    if cut == 3 { return Error; }
    assert Alone(start, t, 4) == (db.View(), Stopped(Advanced(t2)));
    StoppedStays(start, t, 4, cut);
    r := Ok200;
  }

  method ApproveByAuditorHandler(db: Connection, id: Uuid, cut: nat) returns (r: Response)
    modifies db
    ensures db.View() == Alone(old(db.View()), Begin(ApproveByAuditor(id)), cut).0
    ensures r == Conflict409 <==> cut >= 1 && !Has(old(db.View()), id, SUPERVISOR, APPROVED)
    ensures r == Ok200 <==> cut >= 6 && Has(old(db.View()), id, SUPERVISOR, APPROVED) && id in old(db.records)
    ensures r == Conflict409 ==> db.View() == old(db.View())
    ensures r == Ok200 ==>
              && Eligible(db.View(), id)
              && db.View() == Tables(old(db.records)[id := COMPLIANT], old(db.approvals) + [Row(id, AUDITOR, APPROVED)])
  {
    ghost var start, t := db.View(), Begin(ApproveByAuditor(id));
    if cut == 0 { return Error; }
    CountPositive(start.approvals, id, SUPERVISOR);
    assert Alone(start, t, 1) == Statement(start, t);
    var approved := db.SelectCount(id, SUPERVISOR);
    if approved == 0 {
      StoppedStays(start, t, 1, cut);
      return Conflict409;
    }
    ghost var t3 := Advanced(Advanced(Advanced(t)));
    assert Alone(start, t, 2) == (start, Advanced(Advanced(t)));
    assert Alone(start, t, 3) == (start, t3);
    if cut <= 3 { return Error; }
    assert Alone(start, t, 4) == Statement(start, t3);
    var inserted := db.InsertApproval(Row(id, AUDITOR, APPROVED));
    if !inserted {
      StoppedStays(start, t, 4, cut);
      return Error;
    }
    if cut == 4 { return Error; }
    ghost var before := db.View();
    assert Alone(start, t, 5) == Statement(before, Advanced(t3));
    db.UpdateStatus(id, COMPLIANT);
    if cut == 5 { return Error; }
    assert Alone(start, t, 6) == (db.View(), Stopped(Advanced(Advanced(t3))));
    StoppedStays(start, t, 6, cut);
    r := Ok200;
  }

  /** The database half of the eligibility check: two counts. */
  method CheckEligibilityHandler(db: Connection, id: Uuid, cut: nat) returns (answer: Option<bool>)
    ensures answer == Alone(db.View(), Begin(CheckEligibility(id)), cut).1.answer
    ensures answer == if cut >= 2 then Some(Eligible(db.View(), id)) else None
  {
    ghost var start, t := db.View(), Begin(CheckEligibility(id));
    if cut == 0 { return None; }
    assert Alone(start, t, 1) == Statement(start, t);
    var supervisor := db.SelectCount(id, SUPERVISOR);
    if cut == 1 { return None; }
    CountPositive(start.approvals, id, AUDITOR);
    assert Alone(start, t, 2) == Statement(start, Statement(start, t).1);
    StoppedStays(start, t, 2, cut);
    var auditor := db.SelectCount(id, AUDITOR);
    answer := Some(supervisor > 0 && auditor > 0);
  }
}

/** Handlers run one after the other inside the system, and what the latest supervisor
    decision on a record is. */
module Decisions {
  import opened Basics
  import opened Database
  import opened Backend
  import opened Handlers

  // ---- A serial handler is the handler alone ----

  /** After the run p, one request of the job and then n of its statements. */
  function Serial(start: Tables, p: seq<Step>, job: Job, n: nat): seq<Step> {
    if n == 0 then p + [Request(job)]
    else Serial(start, p, job, n - 1) + [Run(|After(start, p).threads|)]
  }

  lemma AfterSnoc(start: Tables, p: seq<Step>, step: Step)
    ensures After(start, p + [step]) == Next(After(start, p), step)
  {
    assert (p + [step])[..|p|] == p;
  }

  /** A request served with nobody interfering leaves the tables as the handler alone does. */
  lemma {:induction false} SerialIsAlone(start: Tables, p: seq<Step>, job: Job, n: nat)
    ensures
      var s, alone := After(start, p), Alone(After(start, p).db, Begin(job), n);
      After(start, Serial(start, p, job, n)) == System(alone.0, s.threads + [alone.1])
  {
    if n == 0 {
      AfterSnoc(start, p, Request(job));
    } else {
      SerialIsAlone(start, p, job, n - 1);
      AfterSnoc(start, Serial(start, p, job, n - 1), Run(|After(start, p).threads|));
    }
  }

  // ---- The latest decision ----

  /** The decision in the newest supervisor row of a record. */
  function LatestDecision(rows: seq<Row>, id: Uuid): Option<Decision> {
    if |rows| == 0 then None
    else
      var last := rows[|rows| - 1];
      if last.record == id && last.role == SUPERVISOR then Some(last.decision) else LatestDecision(rows[..|rows| - 1], id)
  }

  lemma {:induction false} RowMeansDecided(rows: seq<Row>, id: Uuid, d: Decision)
    requires Row(id, SUPERVISOR, d) in rows
    ensures LatestDecision(rows, id).Some?
  {
    var last := rows[|rows| - 1];
    if !(last.record == id && last.role == SUPERVISOR) {
      RowMeansDecided(rows[..|rows| - 1], id, d);
    }
  }

  lemma LatestDecisionSnoc(rows: seq<Row>, row: Row, id: Uuid)
    ensures LatestDecision(rows + [row], id) ==
            if row.record == id && row.role == SUPERVISOR then Some(row.decision) else LatestDecision(rows, id)
  {
    assert (rows + [row])[..|rows|] == rows;
  }

  /** This step is the insert of a supervisor handler for the record and decision. */
  predicate Decides(s: System, step: Step, id: Uuid, d: Decision) {
    && step.Run? && step.thread < |s.threads| && s.threads[step.thread].live
    && s.threads[step.thread].job == SupervisorDecision(id, d) && s.threads[step.thread].pc == 2
    && id in s.db.records
  }

  lemma StatementDecides(s: System, k: nat, id: Uuid)
    requires k < |s.threads| && s.threads[k].live
    ensures
      var rows, n := s.db.approvals, Statement(s.db, s.threads[k]).0.approvals;
      LatestDecision(n, id) ==
      if Decides(s, Run(k), id, APPROVED) then Some(APPROVED)
      else if Decides(s, Run(k), id, REJECTED) then Some(REJECTED)
      else LatestDecision(rows, id)
  {
    match s.threads[k].job
    case SupervisorDecision(other, d) =>
      assert d == APPROVED || d == REJECTED;
      LatestDecisionSnoc(s.db.approvals, Row(other, SUPERVISOR, d), id);
    case ApproveByAuditor(other) => LatestDecisionSnoc(s.db.approvals, Row(other, AUDITOR, APPROVED), id);
    case _ =>
  }

  lemma StepDecides(s: System, step: Step, id: Uuid)
    ensures LatestDecision(Next(s, step).db.approvals, id) ==
            if Decides(s, step, id, APPROVED) then Some(APPROVED)
            else if Decides(s, step, id, REJECTED) then Some(REJECTED)
            else LatestDecision(s.db.approvals, id)
  {
    if step.Run? && step.thread < |s.threads| && s.threads[step.thread].live {
      StatementDecides(s, step.thread, id);
    }
  }

  /** Step i of a run from empty tables records a supervisor decision. */
  predicate DecidedAt(h: seq<Step>, i: nat, id: Uuid, d: Decision) {
    i < |h| && Decides(After(Tables(map[], []), h[..i]), h[i], id, d)
  }

  lemma DecidedPrefix(h: seq<Step>, i: nat, id: Uuid, d: Decision)
    requires i < |h| - 1
    ensures DecidedAt(h[..|h| - 1], i, id, d) == DecidedAt(h, i, id, d)
  {
    assert h[..|h| - 1][..i] == h[..i];
  }

  /** The latest decision is that of the last handler for the record to pass its insert. */
  lemma {:induction false} LatestDecidedAt(h: seq<Step>, id: Uuid) returns (i: nat)
    requires LatestDecision(After(Tables(map[], []), h).db.approvals, id).Some?
    ensures DecidedAt(h, i, id, LatestDecision(After(Tables(map[], []), h).db.approvals, id).value)
    ensures forall j: nat, d: Decision | i < j :: !DecidedAt(h, j, id, d)
  {
    var p, start := h[..|h| - 1], Tables(map[], []);
    StepDecides(After(start, p), h[|h| - 1], id);
    if DecidedAt(h, |h| - 1, id, APPROVED) || DecidedAt(h, |h| - 1, id, REJECTED) {
      i := |h| - 1;
    } else {
      i := LatestDecidedAt(p, id);
      DecidedPrefix(h, i, id, LatestDecision(After(start, h).db.approvals, id).value);
      forall j: nat, d: Decision | i < j ensures !DecidedAt(h, j, id, d) {
        assert d == APPROVED || d == REJECTED;
        if j < |h| - 1 { DecidedPrefix(h, j, id, d); }
      }
    }
  }

  // ---- What COMPLIANT says about it ----

  predicate IsCompliant(db: Tables, id: Uuid) {
    id in db.records && db.records[id] == COMPLIANT
  }

  /** The latest supervisor decision on a COMPLIANT record is an approval exactly when every
      recorded rejection of it was followed by a recorded approval. */
  lemma LatestApprovedExactlyWhen(h: seq<Step>, id: Uuid)
    requires IsCompliant(After(Tables(map[], []), h).db, id)
    ensures
      LatestDecision(After(Tables(map[], []), h).db.approvals, id) == Some(APPROVED) <==>
      forall j: nat | DecidedAt(h, j, id, REJECTED) :: exists i: nat :: j < i && DecidedAt(h, i, id, APPROVED)
  {
    var rows := After(Tables(map[], []), h).db.approvals;
    CompliantIsEligible(Tables(map[], []), h);
    RowMeansDecided(rows, id, APPROVED);
    var last := LatestDecidedAt(h, id);
    var d := LatestDecision(rows, id).value;
    assert d.APPROVED? || d.REJECTED?;
    if LatestDecision(rows, id) == Some(APPROVED) {
      forall j: nat | DecidedAt(h, j, id, REJECTED) ensures exists i: nat :: j < i && DecidedAt(h, i, id, APPROVED) {
        assert j < last;
      }
    } else {
      assert DecidedAt(h, last, id, REJECTED);
    }
  }

  lemma AloneDecision(db: Tables, id: Uuid, d: Decision)
    requires id in db.records
    ensures Alone(db, Begin(SupervisorDecision(id, d)), 3).0 ==
            Tables(db.records[id := if d == APPROVED then PENDING_APPROVAL else SUBMITTED], db.approvals + [Row(id, SUPERVISOR, d)])
  {
    var t := Begin(SupervisorDecision(id, d));
    assert Alone(db, t, 1) == Statement(db, t);
    assert Alone(db, t, 2) == (WithStatus(db, id, if d == APPROVED then PENDING_APPROVAL else SUBMITTED), Advanced(Advanced(t)));
  }

  /** The auditor's handler reads first ... */
  lemma AloneReads(db: Tables, id: Uuid)
    requires Has(db, id, SUPERVISOR, APPROVED)
    ensures Alone(db, Begin(ApproveByAuditor(id)), 3) == (db, Begin(ApproveByAuditor(id)).(pc := 3))
  {
    var t := Begin(ApproveByAuditor(id));
    CountPositive(db.approvals, id, SUPERVISOR);
    assert Alone(db, t, 1) == (db, t.(pc := 1));
    assert Alone(db, t, 2) == (db, t.(pc := 2));
  }

  /** ... and then writes twice. */
  lemma AloneAudit(db: Tables, id: Uuid)
    requires id in db.records && Has(db, id, SUPERVISOR, APPROVED)
    ensures Alone(db, Begin(ApproveByAuditor(id)), 5).0 ==
            Tables(db.records[id := COMPLIANT], db.approvals + [Row(id, AUDITOR, APPROVED)])
  {
    var t := Begin(ApproveByAuditor(id));
    AloneReads(db, id);
    var inserted := db.(approvals := db.approvals + [Row(id, AUDITOR, APPROVED)]);
    assert Alone(db, t, 4) == Statement(db, t.(pc := 3));
    assert Alone(db, t, 4) == (inserted, t.(pc := 4));
    assert Alone(db, t, 5) == Statement(inserted, t.(pc := 4));
  }

  /** After any run that left an approved row for a record, a rejection and then an auditor's
      approval, each served alone, make it COMPLIANT with the rejection still the latest. */
  lemma RejectedThenCompliant(p: seq<Step>, id: Uuid)
    requires
      var db := After(Tables(map[], []), p).db;
      id in db.records && Has(db, id, SUPERVISOR, APPROVED)
    ensures
      var start := Tables(map[], []);
      var q := Serial(start, p, SupervisorDecision(id, REJECTED), 3);
      var db := After(start, Serial(start, q, ApproveByAuditor(id), 5)).db;
      IsCompliant(db, id) && LatestDecision(db.approvals, id) == Some(REJECTED)
  {
    var start := Tables(map[], []);
    var s, q := After(start, p), Serial(start, p, SupervisorDecision(id, REJECTED), 3);
    SerialIsAlone(start, p, SupervisorDecision(id, REJECTED), 3);
    AloneDecision(s.db, id, REJECTED);
    var rejected := After(start, q).db;
    SerialIsAlone(start, q, ApproveByAuditor(id), 5);
    AloneAudit(rejected, id);
    LatestDecisionSnoc(s.db.approvals, Row(id, SUPERVISOR, REJECTED), id);
    LatestDecisionSnoc(rejected.approvals, Row(id, AUDITOR, APPROVED), id);
  }

  /** Such a run: create and approve a record, each request served alone. */
  lemma ApprovedRecordReachable(id: Uuid)
    ensures
      var start := Tables(map[], []);
      var p := Serial(start, Serial(start, [], CreateOrder(id), 1), SupervisorDecision(id, APPROVED), 3);
      id in After(start, p).db.records && Has(After(start, p).db, id, SUPERVISOR, APPROVED)
  {
    var start := Tables(map[], []);
    var c := Serial(start, [], CreateOrder(id), 1);
    SerialIsAlone(start, [], CreateOrder(id), 1);
    assert Alone(start, Begin(CreateOrder(id)), 1) == Statement(start, Begin(CreateOrder(id)));
    SerialIsAlone(start, c, SupervisorDecision(id, APPROVED), 3);
    AloneDecision(After(start, c).db, id, APPROVED);
  }
}
