/** Challenge nonces: created, verified once, and expired. Times are milliseconds. */
module Nonces {
  import opened Basics
  import Utf8

  const TTL_MS: nat := 5 * 60 * 1000

  datatype Row = Row(address: string, message: string, expiresAt: nat, used: bool)

  predicate Matches(row: Row, address: string, message: string) {
    row.address == address && row.message == message
  }

  /** Rows are kept in creation order; the query takes the newest match. */
  function Newest(rows: seq<Row>, address: string, message: string): (r: Option<Row>)
    ensures r.Some? ==> r.value in rows && Matches(r.value, address, message)
  {
    if |rows| == 0 then None
    else if Matches(rows[|rows| - 1], address, message) then Some(rows[|rows| - 1])
    else Newest(rows[..|rows| - 1], address, message)
  }

  /** ... the last one in the table. */
  lemma {:induction false} NewestIsLast(rows: seq<Row>, address: string, message: string) returns (i: nat)
    requires exists j :: 0 <= j < |rows| && Matches(rows[j], address, message)
    ensures i < |rows| && Matches(rows[i], address, message) && Newest(rows, address, message) == Some(rows[i])
    ensures forall j | i < j < |rows| :: !Matches(rows[j], address, message)
  {
    i := |rows| - 1;
    if !Matches(rows[i], address, message) {
      i := NewestIsLast(rows[..i], address, message);
    }
  }

  function Mark(row: Row, address: string, message: string): Row {
    if Matches(row, address, message) then row.(used := true) else row
  }

  /** Every matching row becomes used. */
  function Marked(rows: seq<Row>, address: string, message: string): (r: seq<Row>)
    ensures |r| == |rows|
    ensures forall i | 0 <= i < |rows| :: r[i] == Mark(rows[i], address, message)
  {
    if |rows| == 0 then [] else Marked(rows[..|rows| - 1], address, message) + [Mark(rows[|rows| - 1], address, message)]
  }

  /** The length is counted in UTF-8 bytes. */
  predicate ValidAddress(address: string) {
    address != "" && address[0] == 'G' && |Utf8.Encode(address)| == 56
  }

  function Created(rows: seq<Row>, address: string, message: string, now: nat): seq<Row> {
    if ValidAddress(address) then rows + [Row(address, message, now + TTL_MS, false)] else rows
  }

  datatype Refusal = InvalidAddress | InvalidNonce | AlreadyUsed | Expired | BadSignature

  /** The checks between the fetch and the update, on the fetched row. */
  function Checked(row: Option<Row>, now: nat, signatureOk: bool): Option<Refusal> {
    if row.None? then Some(InvalidNonce)
    else if row.value.used then Some(AlreadyUsed)
    else if now > row.value.expiresAt then Some(Expired)
    else if !signatureOk then Some(BadSignature)
    else None
  }

  class NonceTable {
    var rows: seq<Row>

    constructor ()
      ensures rows == []
    {
      rows := [];
    }

    method CreateChallenge(address: string, message: string, now: nat) returns (refused: Option<Refusal>)
      modifies this
      ensures rows == Created(old(rows), address, message, now)
      ensures refused == if ValidAddress(address) then None else Some(InvalidAddress)
    {
      if address == "" || address[0] != 'G' || |Utf8.Encode(address)| != 56 { return Some(InvalidAddress); }
      var expiresAt := now + TTL_MS;
      rows := rows + [Row(address, message, expiresAt, false)];
      refused := None;
    }

    /** A verification nobody interrupts: fetch, check, mark as used. */
    method VerifyChallenge(address: string, message: string, now: nat, signatureOk: bool) returns (refused: Option<Refusal>)
      modifies this
      ensures refused == Checked(Newest(old(rows), address, message), now, signatureOk)
      ensures refused.None? <==>
              && signatureOk && Newest(old(rows), address, message).Some?
              && !Newest(old(rows), address, message).value.used && now <= Newest(old(rows), address, message).value.expiresAt
      ensures rows == if refused.None? then Marked(old(rows), address, message) else old(rows)
      // An accepted message cannot be accepted again.
      ensures refused.None? ==> forall later: nat, ok: bool :: Checked(Newest(rows, address, message), later, ok).Some?
    {
      var row := Newest(rows, address, message);
      if row.None? { return Some(InvalidNonce); }
      if row.value.used { return Some(AlreadyUsed); }
      if now > row.value.expiresAt { return Some(Expired); }
      if !signatureOk { return Some(BadSignature); }
      rows := Marked(rows, address, message);
      refused := None;
    }
  }
}

/** Challenges and verifications as separate statements, in any interleaving. */
module NonceLifecycle {
  import opened Basics
  import opened Nonces
  import Utf8

  /** A verification: not yet fetched, fetched and checked (so it will mark), accepted, or refused. */
  datatype Phase = Waiting | Checked(expiresAt: nat) | Accepted | Refused

  datatype Request = Request(address: string, message: string, signatureOk: bool)

  datatype State = State(rows: seq<Row>, requests: seq<Request>, phases: seq<Phase>)

  datatype Step =
    | Challenge(address: string, message: string, now: nat)
    | Verify(request: Request)
    | Fetch(k: nat, now: nat)  // the select, and the checks on what it returned
    | MarkUsed(k: nat)         // the update, and success
    | MarkLost(k: nat)         // the update commits but its reply is lost: an error
    | Drop(k: nat)             // the connection or the database fails before that

  const START := State([], [], [])

  function Next(s: State, step: Step): State
    requires |s.phases| == |s.requests|
    ensures |Next(s, step).phases| == |Next(s, step).requests|
  {
    match step
    case Challenge(address, message, now) => s.(rows := Created(s.rows, address, message, now))
    case Verify(request) => s.(requests := s.requests + [request], phases := s.phases + [Waiting])
    case Fetch(k, now) =>
      if k < |s.phases| && s.phases[k].Waiting? then
        var row := Newest(s.rows, s.requests[k].address, s.requests[k].message);
        var refused := Nonces.Checked(row, now, s.requests[k].signatureOk);
        s.(phases := s.phases[k := if refused.None? then Checked(row.value.expiresAt) else Refused])
      else s
    case MarkUsed(k) =>
      if k < |s.phases| && s.phases[k].Checked? then
        s.(phases := s.phases[k := Accepted], rows := Marked(s.rows, s.requests[k].address, s.requests[k].message))
      else s
    case MarkLost(k) =>
      if k < |s.phases| && s.phases[k].Checked? then
        s.(phases := s.phases[k := Refused], rows := Marked(s.rows, s.requests[k].address, s.requests[k].message))
      else s
    case Drop(k) =>
      if k < |s.phases| && !s.phases[k].Accepted? then s.(phases := s.phases[k := Refused]) else s
  }

  type Run = seq<Step>

  /** The state before step i of a run (after the whole run for i == |h|). */
  function At(h: Run, i: nat): (s: State)
    requires i <= |h|
    ensures |s.phases| == |s.requests|
  {
    if i == 0 then START else Next(At(h, i - 1), h[i - 1])
  }

  /** Challenge messages are never repeated: each holds 32 random bytes. */
  predicate FreshMessages(h: Run) {
    forall i, j | 0 <= i < j < |h| && h[i].Challenge? && h[j].Challenge? :: h[i].message != h[j].message
  }

  predicate InPhase(s: State, k: nat) {
    k < |s.phases| && k < |s.requests|
  }

  /** Step i fetches for request k, which then passes every check. */
  predicate FetchesAt(h: Run, i: nat, k: nat) {
    && i < |h| && h[i].Fetch? && h[i].k == k
    && InPhase(At(h, i), k) && At(h, i).phases[k].Waiting?
    && InPhase(At(h, i + 1), k) && At(h, i + 1).phases[k].Checked?
  }

  /** Step i marks the nonce of request k as used ... */
  predicate MarksAt(h: Run, i: nat, k: nat) {
    i < |h| && (h[i] == MarkUsed(k) || h[i] == MarkLost(k)) && InPhase(At(h, i), k) && At(h, i).phases[k].Checked?
  }

  /** ... and answers with success. */
  predicate AcceptsAt(h: Run, i: nat, k: nat) {
    MarksAt(h, i, k) && h[i] == MarkUsed(k)
  }

  predicate SameNonce(a: Request, b: Request) {
    a.address == b.address && a.message == b.message
  }

  predicate HasRow(rows: seq<Row>, r: Request) {
    exists j :: 0 <= j < |rows| && Matches(rows[j], r.address, r.message)
  }

  predicate AllUsed(rows: seq<Row>, r: Request) {
    forall j | 0 <= j < |rows| && Matches(rows[j], r.address, r.message) :: rows[j].used
  }

  lemma {:induction false} NewestOfUsed(rows: seq<Row>, r: Request)
    requires AllUsed(rows, r)
    ensures Newest(rows, r.address, r.message).None? || Newest(rows, r.address, r.message).value.used
  {
    if |rows| > 0 { NewestOfUsed(rows[..|rows| - 1], r); }
  }

  lemma NextKeepsRow(s: State, step: Step, r: Request)
    requires |s.phases| == |s.requests| && HasRow(s.rows, r)
    ensures HasRow(Next(s, step).rows, r)
  {
    var j :| 0 <= j < |s.rows| && Matches(s.rows[j], r.address, r.message);
    assert Matches(Next(s, step).rows[j], r.address, r.message);
  }

  lemma {:induction false} RowsPersist(h: Run, i: nat, j: nat, r: Request)
    requires i <= j <= |h| && HasRow(At(h, i).rows, r)
    ensures HasRow(At(h, j).rows, r)
  {
    if i < j {
      RowsPersist(h, i, j - 1, r);
      NextKeepsRow(At(h, j - 1), h[j - 1], r);
    }
  }

  lemma StepKeepsRequests(s: State, step: Step)
    requires |s.phases| == |s.requests|
    ensures s.requests <= Next(s, step).requests
  {
  }

  lemma {:induction false} RequestsPersist(h: Run, i: nat, j: nat, k: nat)
    requires i <= j <= |h| && k < |At(h, i).requests|
    ensures k < |At(h, j).requests| && At(h, j).requests[k] == At(h, i).requests[k]
  {
    if i < j {
      RequestsPersist(h, i, j - 1, k);
      StepKeepsRequests(At(h, j - 1), h[j - 1]);
    }
  }

  predicate IssuedBy(row: Row, step: Step) {
    step.Challenge? && step.address == row.address && step.message == row.message && row.expiresAt == step.now + TTL_MS
  }

  /** Every stored row was put there by an earlier challenge of the run. */
  lemma {:induction false} RowIssued(h: Run, i: nat, j: nat) returns (c: nat)
    requires i <= |h| && j < |At(h, i).rows|
    ensures c < i && IssuedBy(At(h, i).rows[j], h[c]) && ValidAddress(h[c].address)
  {
    var s := At(h, i - 1);
    if j < |s.rows| {
      c := RowIssued(h, i - 1, j);
    } else {
      c := i - 1;
    }
  }

  lemma StepKeepsUsed(s: State, step: Step, r: Request)
    requires |s.phases| == |s.requests| && AllUsed(s.rows, r) && (step.Challenge? ==> step.message != r.message)
    ensures AllUsed(Next(s, step).rows, r)
  {
  }

  /** Once all rows of a nonce are used, they stay so: fresh messages add no new one. */
  lemma {:induction false} UsedStays(h: Run, i: nat, j: nat, r: Request)
    requires i <= j <= |h| && FreshMessages(h)
    requires HasRow(At(h, i).rows, r) && AllUsed(At(h, i).rows, r)
    ensures AllUsed(At(h, j).rows, r)
  {
    if i < j {
      UsedStays(h, i, j - 1, r);
      if h[j - 1].Challenge? {
        RowsPersist(h, i, j - 1, r);
        var s := At(h, j - 1);
        var x :| 0 <= x < |s.rows| && Matches(s.rows[x], r.address, r.message);
        var c := RowIssued(h, j - 1, x);
        assert h[c].message != h[j - 1].message;
      }
      StepKeepsUsed(At(h, j - 1), h[j - 1], r);
    }
  }

  /** A request becomes checked by its own fetch only, and accepted only when checked. */
  lemma PassesByFetch(s: State, step: Step, k: nat)
    requires |s.phases| == |s.requests| && k < |Next(s, step).phases|
    requires Next(s, step).phases[k].Checked? || Next(s, step).phases[k].Accepted?
    ensures k < |s.phases| && !s.phases[k].Refused?
    ensures s.phases[k].Waiting? ==> step.Fetch? && step.k == k && Next(s, step).phases[k].Checked?
  {
  }

  /** A request that is checked or accepted was fetched at some earlier step. */
  lemma {:induction false} WasFetched(h: Run, i: nat, k: nat) returns (f: nat)
    requires i <= |h| && InPhase(At(h, i), k) && (At(h, i).phases[k].Checked? || At(h, i).phases[k].Accepted?)
    ensures f < i && FetchesAt(h, f, k)
  {
    var s := At(h, i - 1);
    PassesByFetch(s, h[i - 1], k);
    if k < |s.phases| && !s.phases[k].Waiting? {
      f := WasFetched(h, i - 1, k);
    } else {
      f := i - 1;
    }
  }

  /** What a passing fetch saw: an unused row of its nonce that had not expired. */
  lemma FetchSaw(h: Run, f: nat, k: nat) returns (j: nat)
    requires FetchesAt(h, f, k)
    ensures
      var s := At(h, f);
      j < |s.rows| && Matches(s.rows[j], s.requests[k].address, s.requests[k].message) && h[f].now <= s.rows[j].expiresAt
    ensures !AllUsed(At(h, f).rows, At(h, f).requests[k])
  {
    var s := At(h, f);
    var r := s.requests[k];
    if AllUsed(s.rows, r) { NewestOfUsed(s.rows, r); }
    j :| 0 <= j < |s.rows| && s.rows[j] == Newest(s.rows, r.address, r.message).value;
  }

  lemma MarkedAllUsed(rows: seq<Row>, r: Request)
    ensures AllUsed(Marked(rows, r.address, r.message), r)
  {
  }

  /** The row that a passing fetch saw is still there at the mark. */
  lemma MarkHasRow(h: Run, m: nat, k: nat)
    requires MarksAt(h, m, k)
    ensures HasRow(At(h, m).rows, At(h, m).requests[k])
  {
    var f := WasFetched(h, m, k);
    var j := FetchSaw(h, f, k);
    RequestsPersist(h, f, m, k);
    RowsPersist(h, f, m, At(h, f).requests[k]);
  }

  lemma MarkSpends(h: Run, m: nat, k: nat)
    requires MarksAt(h, m, k)
    ensures HasRow(At(h, m + 1).rows, At(h, m).requests[k])
    ensures AllUsed(At(h, m + 1).rows, At(h, m).requests[k])
  {
    var s, r := At(h, m), At(h, m).requests[k];
    MarkHasRow(h, m, k);
    NextKeepsRow(s, h[m], r);
    MarkedAllUsed(s.rows, r);
    assert At(h, m + 1) == Next(s, h[m]);
  }

  // ---- Main results ----

  /** With fresh messages, in every interleaving, a verification whose fetch follows
      another's mark-used step for the same nonce does not pass. */
  lemma FetchAfterMarkIsRefused(h: Run, m: nat, k: nat, f: nat, l: nat)
    requires FreshMessages(h) && MarksAt(h, m, k) && m < f < |h|
    requires l < |At(h, f).requests| && SameNonce(At(h, m).requests[k], At(h, f).requests[l])
    ensures !FetchesAt(h, f, l)
  {
    MarkSpends(h, m, k);
    UsedStays(h, m + 1, f, At(h, m).requests[k]);
    if FetchesAt(h, f, l) {
      var _ := FetchSaw(h, f, l);
    }
  }

  /** Before step i, two verifications of one nonce have both passed and not yet marked. */
  predicate BothPassed(h: Run, i: nat, k: nat, l: nat) {
    && i <= |h| && k != l && InPhase(At(h, i), k) && InPhase(At(h, i), l)
    && At(h, i).phases[k].Checked? && At(h, i).phases[l].Checked?
    && SameNonce(At(h, i).requests[k], At(h, i).requests[l])
  }

  predicate IsOver(p: Phase) {
    p.Accepted? || p.Refused?
  }

  lemma StepKeepsOver(s: State, step: Step, k: nat)
    requires |s.phases| == |s.requests| && k < |s.phases| && IsOver(s.phases[k])
    ensures k < |Next(s, step).phases| && IsOver(Next(s, step).phases[k])
  {
  }

  lemma {:induction false} OverStays(h: Run, i: nat, j: nat, k: nat)
    requires i <= j <= |h| && InPhase(At(h, i), k) && IsOver(At(h, i).phases[k])
    ensures InPhase(At(h, j), k) && IsOver(At(h, j).phases[k])
  {
    if i < j {
      OverStays(h, i, j - 1, k);
      StepKeepsOver(At(h, j - 1), h[j - 1], k);
    }
  }

  lemma MarkedOnce(h: Run, m: nat, n: nat, k: nat)
    requires MarksAt(h, m, k) && m < n
    ensures !MarksAt(h, n, k)
  {
    if n < |h| { OverStays(h, m + 1, n, k); }
  }

  lemma PassedStep(s: State, step: Step, k: nat)
    requires |s.phases| == |s.requests| && k < |s.phases| && !s.phases[k].Waiting?
    requires Next(s, step).phases[k].Checked?
    ensures s.phases[k].Checked?
  {
  }

  /** A verification fetched at f and marked at n has passed, unmarked, everywhere between. */
  lemma {:induction false} PassedBetween(h: Run, f: nat, i: nat, n: nat, k: nat)
    requires FetchesAt(h, f, k) && f < i <= n && MarksAt(h, n, k)
    ensures InPhase(At(h, i), k) && At(h, i).phases[k].Checked?
    decreases n - i
  {
    if i < n {
      PassedBetween(h, f, i + 1, n, k);
      NotWaiting(h, f, i, k);
      PassedStep(At(h, i), h[i], k);
    }
  }

  lemma StepEndsWaiting(s: State, step: Step, k: nat)
    requires |s.phases| == |s.requests| && k < |s.phases| && !s.phases[k].Waiting?
    ensures k < |Next(s, step).phases| && !Next(s, step).phases[k].Waiting?
  {
  }

  lemma {:induction false} NotWaiting(h: Run, f: nat, i: nat, k: nat)
    requires FetchesAt(h, f, k) && f < i <= |h|
    ensures InPhase(At(h, i), k) && !At(h, i).phases[k].Waiting?
  {
    if f + 1 < i {
      NotWaiting(h, f, i - 1, k);
      StepEndsWaiting(At(h, i - 1), h[i - 1], k);
    }
  }

  lemma FetchBeforeMark(h: Run, m: nat, k: nat, f: nat, l: nat)
    requires FreshMessages(h) && MarksAt(h, m, k) && FetchesAt(h, f, l)
    requires SameNonce(At(h, m).requests[k], At(h, f).requests[l])
    ensures f < m
  {
    if m < f { FetchAfterMarkIsRefused(h, m, k, f, l); }
  }

  /** So of two verifications that mark a nonce, the second was fetched before the first
      marked it. */
  lemma SecondFetchedFirst(h: Run, m: nat, k: nat, n: nat, l: nat) returns (f: nat)
    requires FreshMessages(h) && MarksAt(h, m, k) && MarksAt(h, n, l) && m < n
    requires SameNonce(At(h, m).requests[k], At(h, n).requests[l])
    ensures f < m && FetchesAt(h, f, l)
  {
    f := WasFetched(h, n, l);
    RequestsPersist(h, f, n, l);
    FetchBeforeMark(h, m, k, f, l);
  }

  /** Hence they overlap: when the first marks, the second has been fetched and has passed. */
  lemma DoubleAcceptanceOverlaps(h: Run, m: nat, k: nat, n: nat, l: nat)
    requires FreshMessages(h) && MarksAt(h, m, k) && MarksAt(h, n, l) && m < n
    requires SameNonce(At(h, m).requests[k], At(h, n).requests[l])
    ensures exists f: nat :: f < m && FetchesAt(h, f, l)
    ensures BothPassed(h, m, k, l)
  {
    var f := SecondFetchedFirst(h, m, k, n, l);
    PassedBetween(h, f, m, n, l);
    RequestsPersist(h, m, n, l);
    MarkedOnce(h, m, n, k);
  }

  lemma {:induction false} AtPrefix(h: Run, g: Run, i: nat)
    requires i <= |h|
    ensures At(h + g, i) == At(h, i)
  {
    if i > 0 { AtPrefix(h, g, i - 1); }
  }

  lemma MarkOthers(s: State, step: Step, l: nat)
    requires |s.phases| == |s.requests| && l < |s.phases|
    requires (step.MarkUsed? || step.MarkLost?) && step.k != l
    ensures Next(s, step).phases[l] == s.phases[l] && Next(s, step).requests == s.requests
  {
  }

  /** Conversely, wherever two verifications of a nonce have both passed, both can still
      be accepted. */
  lemma OverlapAcceptsBoth(h: Run, k: nat, l: nat)
    requires BothPassed(h, |h|, k, l)
    ensures
      var g := h + [MarkUsed(k), MarkUsed(l)];
      && AcceptsAt(g, |h|, k) && AcceptsAt(g, |h| + 1, l)
      && SameNonce(At(g, |h|).requests[k], At(g, |h| + 1).requests[l])
  {
    var g, s := h + [MarkUsed(k), MarkUsed(l)], At(h, |h|);
    AtPrefix(h, [MarkUsed(k), MarkUsed(l)], |h|);
    assert g[|h|] == MarkUsed(k) && g[|h| + 1] == MarkUsed(l);
    MarkOthers(s, MarkUsed(k), l);
    assert At(g, |h| + 1) == Next(s, MarkUsed(k));
  }

  /** Steps m and n mark the same nonce, for requests k and l. */
  predicate BothMark(h: Run, m: nat, n: nat, k: nat, l: nat) {
    MarksAt(h, m, k) && MarksAt(h, n, l) && SameNonce(At(h, m).requests[k], At(h, n).requests[l])
  }

  predicate BothAccept(h: Run, m: nat, n: nat, k: nat, l: nat) {
    BothMark(h, m, n, k, l) && AcceptsAt(h, m, k) && AcceptsAt(h, n, l)
  }

  // ---- Where `used` comes from, and when a nonce is spent again ----

  /** A row becomes used by a mark of its own address and message only. */
  lemma UsedByMark(s: State, step: Step, j: nat)
    requires |s.phases| == |s.requests| && j < |Next(s, step).rows| && Next(s, step).rows[j].used
    ensures j < |s.rows| && Next(s, step).rows[j].(used := s.rows[j].used) == s.rows[j]
    ensures s.rows[j].used ||
            ((step.MarkUsed? || step.MarkLost?) && InPhase(s, step.k) && s.phases[step.k].Checked?
             && Matches(s.rows[j], s.requests[step.k].address, s.requests[step.k].message))
  {
  }

  /** Every used row was marked by an earlier verification of its address and message. */
  lemma {:induction false} UsedRowMarked(h: Run, i: nat, j: nat) returns (m: nat, k: nat)
    requires i <= |h| && j < |At(h, i).rows| && At(h, i).rows[j].used
    ensures m < i && MarksAt(h, m, k)
    ensures Matches(At(h, i).rows[j], At(h, m).requests[k].address, At(h, m).requests[k].message)
  {
    UsedByMark(At(h, i - 1), h[i - 1], j);
    if At(h, i - 1).rows[j].used {
      m, k := UsedRowMarked(h, i - 1, j);
    } else {
      m, k := i - 1, h[i - 1].k;
    }
  }

  /** The guard the update leaves out: a verification that marks a nonce spends one that
      was spent before exactly when all its rows are already used. */
  lemma SpentBeforeExactlyWhen(h: Run, n: nat, l: nat)
    requires FreshMessages(h) && MarksAt(h, n, l)
    ensures (exists m: nat, k: nat :: m < n && BothMark(h, m, n, k, l)) <==> AllUsed(At(h, n).rows, At(h, n).requests[l])
  {
    var r := At(h, n).requests[l];
    if m: nat, k: nat :| m < n && BothMark(h, m, n, k, l) {
      MarkSpends(h, m, k);
      UsedStays(h, m + 1, n, At(h, m).requests[k]);
    }
    if AllUsed(At(h, n).rows, r) {
      MarkHasRow(h, n, l);
      var x :| 0 <= x < |At(h, n).rows| && Matches(At(h, n).rows[x], r.address, r.message);
      var m, k := UsedRowMarked(h, n, x);
      assert BothMark(h, m, n, k, l);
    }
  }

  // ---- Exactly what a fetch finds ----

  /** Step c issued a challenge for this address and message, and was not refused: the
      address is 56 bytes of UTF-8 starting with G. */
  predicate IssuesFor(h: Run, c: nat, r: Request) {
    && c < |h| && h[c].Challenge? && h[c].address == r.address && h[c].message == r.message
    && r.address != "" && r.address[0] == 'G' && |Utf8.Encode(r.address)| == 56
  }

  ghost predicate IssuedBefore(h: Run, i: nat, r: Request) {
    exists c: nat :: c < i && IssuesFor(h, c, r)
  }

  /** Issued at most five minutes before t. */
  ghost predicate IssuedInTime(h: Run, i: nat, r: Request, t: nat) {
    exists c: nat :: c < i && IssuesFor(h, c, r) && t <= h[c].now + 300_000
  }

  ghost predicate SpentBefore(h: Run, i: nat, r: Request)
    requires i <= |h|
  {
    exists m: nat, l: nat :: m < i && MarksAt(h, m, l) && SameNonce(At(h, m).requests[l], r)
  }

  lemma NextKeepsExpiry(s: State, step: Step, j: nat)
    requires |s.phases| == |s.requests| && j < |s.rows|
    ensures j < |Next(s, step).rows| && Next(s, step).rows[j].(used := s.rows[j].used) == s.rows[j]
  {
  }

  /** The row of a challenge is there ever after, with its expiry. */
  lemma {:induction false} ChallengeHasRow(h: Run, c: nat, i: nat, r: Request) returns (j: nat)
    requires IssuesFor(h, c, r) && c < i <= |h|
    ensures j < |At(h, i).rows| && Matches(At(h, i).rows[j], r.address, r.message)
    ensures At(h, i).rows[j].expiresAt == h[c].now + 300_000
  {
    if i == c + 1 {
      j := |At(h, c).rows|;
    } else {
      j := ChallengeHasRow(h, c, i - 1, r);
      NextKeepsExpiry(At(h, i - 1), h[i - 1], j);
    }
  }

  /** With fresh messages all rows of a nonce come from one challenge. */
  lemma RowOfChallenge(h: Run, i: nat, j: nat, c: nat, r: Request)
    requires FreshMessages(h) && i <= |h| && j < |At(h, i).rows| && Matches(At(h, i).rows[j], r.address, r.message)
    requires c < i && IssuesFor(h, c, r)
    ensures At(h, i).rows[j].expiresAt == h[c].now + 300_000
  {
    var d := RowIssued(h, i, j);
    assert c == d;
  }

  /** A row of a spent nonce is used, a used row is of a spent nonce. */
  lemma UsedExactlyWhen(h: Run, i: nat, j: nat, r: Request)
    requires FreshMessages(h) && i <= |h| && j < |At(h, i).rows| && Matches(At(h, i).rows[j], r.address, r.message)
    ensures At(h, i).rows[j].used <==> SpentBefore(h, i, r)
  {
    if At(h, i).rows[j].used {
      var m, l := UsedRowMarked(h, i, j);
      assert SameNonce(At(h, m).requests[l], r);
    }
    if SpentBefore(h, i, r) {
      var m: nat, l: nat :| m < i && MarksAt(h, m, l) && SameNonce(At(h, m).requests[l], r);
      MarkSpends(h, m, l);
      UsedStays(h, m + 1, i, At(h, m).requests[l]);
    }
  }

  /** The row the select returns, read off the history. */
  lemma NewestFromHistory(h: Run, i: nat, r: Request)
    requires FreshMessages(h) && i <= |h|
    ensures
      var n := Newest(At(h, i).rows, r.address, r.message);
      && (n.Some? <==> IssuedBefore(h, i, r))
      && (n.Some? ==> (n.value.used <==> SpentBefore(h, i, r)))
      && (n.Some? ==> forall t: nat :: t <= n.value.expiresAt <==> IssuedInTime(h, i, r, t))
  {
    var rows := At(h, i).rows;
    var n := Newest(rows, r.address, r.message);
    if n.Some? {
      var j :| 0 <= j < |rows| && rows[j] == n.value;
      var c := RowIssued(h, i, j);
      assert IssuesFor(h, c, r);
      UsedExactlyWhen(h, i, j, r);
      forall t: nat ensures t <= n.value.expiresAt <==> IssuedInTime(h, i, r, t) {
        InTimeBy(h, i, j, c, r, t);
      }
    } else if c: nat :| c < i && IssuesFor(h, c, r) {
      var j := ChallengeHasRow(h, c, i, r);
      var _ := NewestIsLast(rows, r.address, r.message);
    }
  }

  lemma InTimeBy(h: Run, i: nat, j: nat, c: nat, r: Request, t: nat)
    requires FreshMessages(h) && i <= |h| && j < |At(h, i).rows| && Matches(At(h, i).rows[j], r.address, r.message)
    requires c < i && IssuesFor(h, c, r)
    ensures t <= At(h, i).rows[j].expiresAt <==> IssuedInTime(h, i, r, t)
  {
    RowOfChallenge(h, i, j, c, r);
    if d: nat :| d < i && IssuesFor(h, d, r) && t <= h[d].now + 300_000 {
      RowOfChallenge(h, i, j, d, r);
    }
  }

  /** What the checks answer about a fetched nonce, in the order they are made. */
  lemma RefusalFromHistory(h: Run, i: nat, r: Request, t: nat)
    requires FreshMessages(h) && i <= |h|
    ensures
      var answer := Nonces.Checked(Newest(At(h, i).rows, r.address, r.message), t, r.signatureOk);
      && (answer == Some(InvalidNonce) <==> !IssuedBefore(h, i, r))
      && (answer == Some(AlreadyUsed) <==> IssuedBefore(h, i, r) && SpentBefore(h, i, r))
      && (answer == Some(Expired) <==> IssuedBefore(h, i, r) && !SpentBefore(h, i, r) && !IssuedInTime(h, i, r, t))
      && (answer == Some(BadSignature) <==> IssuedInTime(h, i, r, t) && !SpentBefore(h, i, r) && !r.signatureOk)
      && (answer.None? <==> IssuedInTime(h, i, r, t) && !SpentBefore(h, i, r) && r.signatureOk)
  {
    NewestFromHistory(h, i, r);
  }

  /** Exactly when a fetch passes: the signature is good, a challenge for a valid address
      was issued at most five minutes before, and no earlier verification spent the nonce. */
  lemma FetchPassesExactlyWhen(h: Run, f: nat, k: nat, t: nat)
    requires FreshMessages(h) && f < |h| && h[f] == Fetch(k, t)
    requires InPhase(At(h, f), k) && At(h, f).phases[k].Waiting?
    ensures
      var r := At(h, f).requests[k];
      FetchesAt(h, f, k) <==> r.signatureOk && IssuedInTime(h, f, r, t) && !SpentBefore(h, f, r)
  {
    RefusalFromHistory(h, f, At(h, f).requests[k], t);
    assert At(h, f + 1) == Next(At(h, f), h[f]);
  }

  /** With the continuation g, another verification of the nonce that k marked at step m,
      the last of h, is accepted. */
  ghost predicate AcceptedAgain(h: Run, m: nat, k: nat, g: Run) {
    && FreshMessages(h + g)
    && exists n: nat, l: nat :: m < n && AcceptsAt(h + g, n, l) && BothMark(h + g, m, n, k, l)
  }

  lemma PrefixMarks(h: Run, g: Run, m: nat, k: nat)
    requires m < |h|
    ensures MarksAt(h + g, m, k) == MarksAt(h, m, k) && At(h + g, m) == At(h, m)
  {
    AtPrefix(h, g, m);
  }

  lemma AcceptNow(h: Run, m: nat, k: nat, l: nat)
    requires m + 1 == |h| && FreshMessages(h) && MarksAt(h, m, k) && BothPassed(h, m, k, l)
    ensures AcceptedAgain(h, m, k, [MarkUsed(l)])
  {
    var g := [MarkUsed(l)];
    MarkOthers(At(h, m), h[m], l);
    assert At(h, |h|) == Next(At(h, m), h[m]);
    AtPrefix(h, g, |h|);
    PrefixMarks(h, g, m, k);
    assert AcceptsAt(h + g, |h|, l) && BothMark(h + g, m, |h|, k, l);
  }

  /** Right when a nonce is marked, some continuation accepts it again exactly when another
      verification of it has passed by then. */
  lemma AcceptableAgainExactlyWhen(h: Run, m: nat, k: nat)
    requires m + 1 == |h| && FreshMessages(h) && MarksAt(h, m, k)
    ensures (exists g: Run :: AcceptedAgain(h, m, k, g)) <==> exists l: nat :: BothPassed(h, m, k, l)
  {
    if g: Run :| AcceptedAgain(h, m, k, g) {
      var n: nat, l: nat :| m < n && AcceptsAt(h + g, n, l) && BothMark(h + g, m, n, k, l);
      DoubleAcceptanceOverlaps(h + g, m, k, n, l);
      AtPrefix(h, g, m);
      assert BothPassed(h, m, k, l);
    }
    if l: nat :| BothPassed(h, m, k, l) {
      AcceptNow(h, m, k, l);
    }
  }

  /** One challenge and two verifications of it, both fetched before either is marked. */
  function TwoFetches(address: string, message: string, now: nat): Run {
    var q := Request(address, message, true);
    [Challenge(address, message, now), Verify(q), Verify(q), Fetch(0, now), Fetch(1, now)]
  }

  /** A fetch of the one stored row passes while it is unused and unexpired. */
  lemma FetchPasses(s: State, k: nat, now: nat)
    requires |s.phases| == |s.requests| && k < |s.phases| && s.phases[k].Waiting? && s.requests[k].signatureOk
    requires s.rows == [Row(s.requests[k].address, s.requests[k].message, now + TTL_MS, false)]
    ensures Next(s, Fetch(k, now)) == s.(phases := s.phases[k := Checked(now + TTL_MS)])
  {
    assert Newest(s.rows, s.requests[k].address, s.requests[k].message) == Some(s.rows[0]);
  }

  lemma TwoFetchesPass(address: string, message: string, now: nat)
    requires ValidAddress(address)
    ensures BothPassed(TwoFetches(address, message, now), 5, 0, 1)
  {
    var q, h := Request(address, message, true), TwoFetches(address, message, now);
    var rows := [Row(address, message, now + TTL_MS, false)];
    var s := State(rows, [q, q], [Waiting, Waiting]);
    assert At(h, 3) == s by {
      assert At(h, 1) == State(rows, [], []);
      assert At(h, 2) == State(rows, [q], [Waiting]);
    }
    FetchPasses(s, 0, now);
    var t := Next(s, Fetch(0, now));
    assert At(h, 4) == t;
    FetchPasses(t, 1, now);
    assert At(h, 5) == Next(t, Fetch(1, now));
  }

  /** And that happens: both are accepted. */
  lemma NonceAcceptedTwice(address: string, message: string, now: nat)
    requires ValidAddress(address)
    ensures
      var h := TwoFetches(address, message, now) + [MarkUsed(0), MarkUsed(1)];
      FreshMessages(h) && BothAccept(h, 5, 6, 0, 1)
  {
    TwoFetchesPass(address, message, now);
    OverlapAcceptsBoth(TwoFetches(address, message, now), 0, 1);
  }

  /** Between the passing fetch of k at f and its mark at m, another verification of the
      same nonce passes its fetch at g. */
  predicate Intrudes(h: Run, f: nat, g: nat, m: nat, k: nat, l: nat) {
    && f < g < m && FetchesAt(h, f, k) && MarksAt(h, m, k) && FetchesAt(h, g, l)
    && SameNonce(At(h, m).requests[k], At(h, g + 1).requests[l])
  }

  ghost predicate Exclusive(h: Run) {
    forall f: nat, g: nat, m: nat, k: nat, l: nat :: !Intrudes(h, f, g, m, k, l)
  }

  lemma TwoMarksIntrude(h: Run, m: nat, n: nat, k: nat, l: nat)
    requires FreshMessages(h) && m < n && BothMark(h, m, n, k, l)
    ensures !Exclusive(h)
  {
    DoubleAcceptanceOverlaps(h, m, k, n, l);
    var f: nat :| f < m && FetchesAt(h, f, l);
    var g := WasFetched(h, m, k);
    RequestsPersist(h, f + 1, n, l);
    RequestsPersist(h, g + 1, m, k);
    if f < g {
      assert Intrudes(h, f, g, n, l, k);
    } else {
      assert h[f] != h[g];
      assert Intrudes(h, g, f, m, k, l);
    }
  }

  /** If nothing intrudes between fetch and mark, each nonce is marked, and so accepted, at
      most once. */
  lemma AcceptedOnce(h: Run)
    requires FreshMessages(h) && Exclusive(h)
    ensures forall m: nat, n: nat, k: nat, l: nat | BothMark(h, m, n, k, l) :: m == n && k == l
  {
    forall m: nat, n: nat, k: nat, l: nat | BothMark(h, m, n, k, l) ensures m == n && k == l {
      if m < n { TwoMarksIntrude(h, m, n, k, l); }
      if n < m { TwoMarksIntrude(h, n, m, l, k); }
    }
  }

  /** No acceptance rests on an expired nonce: some challenge of this run issued the
      address and message at most five minutes before the fetch. */
  lemma AcceptedInTime(h: Run, m: nat, k: nat)
    requires MarksAt(h, m, k)
    ensures exists f: nat, c: nat ::
              c < f < m && FetchesAt(h, f, k) && h[c].Challenge?
              && h[c].address == At(h, m).requests[k].address && h[c].message == At(h, m).requests[k].message
              && h[f].now <= h[c].now + TTL_MS
  {
    var f := WasFetched(h, m, k);
    var j := FetchSaw(h, f, k);
    var c := RowIssued(h, f, j);
    RequestsPersist(h, f, m, k);
  }
}
