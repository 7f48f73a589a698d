/** What a flush does to each row of the spool, and how far apart the retries of one event are
    (anpr-worker/edge/camera_event_queue.py, anpr-worker/edge/camera_ingest_client.py). */
module RetrySchedule {
  import opened Prelude
  import opened EventSpool
  import opened IngestDelivery

  function RowOf(rows: seq<Row>, id: RowId): Option<Row> {
    match IndexOf(rows, id) case None => None case Some(i) => Some(rows[i])
  }

  lemma RowAt(rows: seq<Row>, i: nat)
    requires Ordered(rows) && i < |rows|
    ensures RowOf(rows, rows[i].id) == Some(rows[i])
  {
  }

  lemma RowOfIff(rows: seq<Row>, r: Row)
    requires Ordered(rows)
    ensures RowOf(rows, r.id) == Some(r) <==> r in rows
  {
    if r in rows {
      var i :| 0 <= i < |rows| && rows[i] == r;
      RowAt(rows, i);
    }
  }

  // ------------------------------------------------------------------------ settling one row

  /** What is left of a row after an attempt: nothing, or the row with the attempt counted and put off. */
  function Left(r: Row, outcome: Outcome): Option<Row> {
    match outcome
    case Accepted => None
    case Refused => None
    case TryAgain(at) => Some(Row(r.id, r.eventId, r.attempts + 1, at))
  }

  lemma WithoutRows(rows: seq<Row>, k: nat, r: Row)
    requires Ordered(rows) && k < |rows|
    ensures r in Without(rows, k) <==> r in rows && r.id != rows[k].id
  {
    var rest := Without(rows, k);
    assert forall i :: 0 <= i < |rest| ==> rest[i] == rows[if i < k then i else i + 1];
    if r in rows && r.id != rows[k].id {
      var i :| 0 <= i < |rows| && rows[i] == r;
      assert rest[if i < k then i else i - 1] == r;
    }
  }

  lemma WithoutOrdered(rows: seq<Row>, k: nat)
    requires Ordered(rows) && k < |rows|
    ensures Ordered(Without(rows, k))
  {
    var rest := Without(rows, k);
    assert forall i :: 0 <= i < |rest| ==> rest[i] == rows[if i < k then i else i + 1];
  }

  lemma SameRow(rows: seq<Row>, rest: seq<Row>, x: RowId)
    requires Ordered(rows) && Ordered(rest) && forall r: Row :: r.id == x ==> (r in rest <==> r in rows)
    ensures RowOf(rest, x) == RowOf(rows, x)
  {
    if RowOf(rows, x).Some? {
      var r := RowOf(rows, x).value;
      RowOfIff(rows, r);
      RowOfIff(rest, r);
    } else if RowOf(rest, x).Some? {
      var r := RowOf(rest, x).value;
      RowOfIff(rest, r);
      RowOfIff(rows, r);
    }
  }

  lemma NoRow(rows: seq<Row>, x: RowId)
    requires Ordered(rows) && forall r: Row :: r.id == x ==> r !in rows
    ensures RowOf(rows, x) == None
  {
  }

  lemma RemovedRow(rows: seq<Row>, k: nat, x: RowId)
    requires Ordered(rows) && k < |rows|
    ensures RowOf(Without(rows, k), x) == if x == rows[k].id then None else RowOf(rows, x)
  {
    var rest := Without(rows, k);
    WithoutOrdered(rows, k);
    forall r: Row ensures r in rest <==> r in rows && r.id != rows[k].id {
      WithoutRows(rows, k, r);
    }
    if x == rows[k].id {
      NoRow(rest, x);
    } else {
      SameRow(rows, rest, x);
    }
  }

  lemma ReplacedRow(rows: seq<Row>, k: nat, r: Row, x: RowId)
    requires Ordered(rows) && k < |rows| && r.id == rows[k].id
    ensures RowOf(rows[k := r], x) == if x == r.id then Some(r) else RowOf(rows, x)
  {
    var next := rows[k := r];
    assert Ordered(next);
    if x == r.id {
      RowAt(next, k);
    } else if RowOf(rows, x).Some? {
      RowAt(next, IndexOf(rows, x).value);
    } else if RowOf(next, x).Some? {
      RowAt(rows, IndexOf(next, x).value);
    }
  }

  /** Settling a row does to it what the outcome says, and to no other row anything. */
  lemma SettledRow(s: Spool, id: RowId, outcome: Outcome, x: RowId)
    requires Inv(s)
    ensures RowOf(Settle(s, id, outcome).rows, x) ==
            if x == id && RowOf(s.rows, id).Some? then Left(RowOf(s.rows, id).value, outcome) else RowOf(s.rows, x)
  {
    var i := IndexOf(s.rows, id);
    if i.Some? {
      match outcome
      case Accepted => RemovedRow(s.rows, i.value, x);
      case Refused => RemovedRow(s.rows, i.value, x);
      case TryAgain(at) =>
        var r := s.rows[i.value];
        ReplacedRow(s.rows, i.value, r.(attempts := r.attempts + 1, nextAttempt := at), x);
    }
  }

  /** The ledger says which way it went. */
  lemma SettledFate(s: Spool, id: RowId, outcome: Outcome)
    requires Inv(s) && RowOf(s.rows, id).Some?
    ensures id < |s.ledger| == |Settle(s, id, outcome).ledger|
    ensures outcome.Accepted? ==> Settle(s, id, outcome).ledger == s.ledger[id := Delivered]
    ensures outcome.Refused? ==> Settle(s, id, outcome).ledger == s.ledger[id := Rejected]
    ensures outcome.TryAgain? ==> Settle(s, id, outcome).ledger == s.ledger
  {
  }

  // -------------------------------------------------------------------------- the whole flush

  ghost predicate AreRows(s: Spool, due: seq<Row>) {
    forall i :: 0 <= i < |due| ==> RowOf(s.rows, due[i].id) == Some(due[i])
  }

  lemma DueAreStored(s: Spool, limit: int, now: real)
    requires Inv(s)
    ensures AreRows(s, Due(s.rows, limit, now)) && Ordered(Due(s.rows, limit, now))
  {
    DueFacts(s.rows, limit, now);
    var due := Due(s.rows, limit, now);
    forall i | 0 <= i < |due| ensures RowOf(s.rows, due[i].id) == Some(due[i]) {
      assert due[i] in due;
      RowOfIff(s.rows, due[i]);
    }
  }

  ghost predicate SettlesTo(c: Config, t: Spool, r: Row, a: Answer, t': Spool) {
    Inv(t) && t' == Settle(t, r.id, OutcomeOf(c, r, a))
  }

  /** `ts` are the spools of a flush: as found, and after each row tried. */
  ghost predicate IsFlush(c: Config, due: seq<Row>, answers: seq<Answer>, ts: seq<Spool>) {
    && |ts| == |due| + 1 <= |answers| + 1
    && forall i :: 0 <= i < |due| ==> SettlesTo(c, ts[i], due[i], answers[i], ts[i + 1])
  }

  lemma FlushedNext(c: Config, s: Spool, due: seq<Row>, answers: seq<Answer>, n: nat)
    requires Inv(s) && n < |due| <= |answers|
    ensures SettlesTo(c, Flushed(c, s, due, answers, n), due[n], answers[n], Flushed(c, s, due, answers, n + 1))
  {
  }

  lemma FlushOf(c: Config, s: Spool, due: seq<Row>, answers: seq<Answer>) returns (ts: seq<Spool>)
    requires Inv(s) && |due| <= |answers|
    ensures IsFlush(c, due, answers, ts) && ts[0] == s && ts[|due|] == Flushed(c, s, due, answers, |due|)
  {
    ts := seq(|due| + 1, i requires 0 <= i <= |due| => Flushed(c, s, due, answers, i));
    forall i | 0 <= i < |due| ensures SettlesTo(c, ts[i], due[i], answers[i], ts[i + 1]) {
      FlushedNext(c, s, due, answers, i);
    }
  }

  lemma SettlesRow(c: Config, t: Spool, r: Row, a: Answer, t': Spool, x: RowId)
    requires SettlesTo(c, t, r, a, t')
    ensures RowOf(t'.rows, x) ==
            if x == r.id && RowOf(t.rows, x).Some? then Left(RowOf(t.rows, x).value, OutcomeOf(c, r, a))
            else RowOf(t.rows, x)
  {
    SettledRow(t, r.id, OutcomeOf(c, r, a), x);
  }

  /** Rows not among those tried from m to n stay as they are. */
  lemma {:induction false} FlushSkips(
    c: Config, due: seq<Row>, answers: seq<Answer>, ts: seq<Spool>, m: nat, n: nat, x: RowId)
    requires IsFlush(c, due, answers, ts) && m <= n <= |due| && forall i :: m <= i < n ==> due[i].id != x
    ensures RowOf(ts[n].rows, x) == RowOf(ts[m].rows, x)
    decreases n - m
  {
    if m < n {
      assert SettlesTo(c, ts[m], due[m], answers[m], ts[m + 1]);
      SettlesRow(c, ts[m], due[m], answers[m], ts[m + 1], x);
      FlushSkips(c, due, answers, ts, m + 1, n, x);
    }
  }

  lemma LaterIdsDiffer(due: seq<Row>, k: nat)
    requires Ordered(due) && k < |due|
    ensures forall i :: 0 <= i < k ==> due[i].id != due[k].id
    ensures forall i :: k + 1 <= i < |due| ==> due[i].id != due[k].id
  {
  }

  /** Every row tried is found as it was and left as its own answer says. */
  lemma FlushedRow(c: Config, due: seq<Row>, answers: seq<Answer>, ts: seq<Spool>, k: nat)
    requires IsFlush(c, due, answers, ts) && k < |due| && Ordered(due) && AreRows(ts[0], due)
    ensures RowOf(ts[k].rows, due[k].id) == Some(due[k])
    ensures RowOf(ts[|due|].rows, due[k].id) == Left(due[k], OutcomeOf(c, due[k], answers[k]))
  {
    LaterIdsDiffer(due, k);
    FlushSkips(c, due, answers, ts, 0, k, due[k].id);
    assert SettlesTo(c, ts[k], due[k], answers[k], ts[k + 1]);
    SettlesRow(c, ts[k], due[k], answers[k], ts[k + 1], due[k].id);
    FlushSkips(c, due, answers, ts, k + 1, |due|, due[k].id);
  }

  lemma NotDueYet(rows: seq<Row>, limit: int, now: real, r: Row)
    requires Ordered(rows) && r in rows && now < r.nextAttempt
    ensures forall d :: d in Due(rows, limit, now) ==> d.id != r.id
  {
    DueFacts(rows, limit, now);
    forall d | d in Due(rows, limit, now) ensures d.id != r.id {
      RowOfIff(rows, d);
      RowOfIff(rows, r);
    }
  }

  /** From that time on only: the row is not due before. */
  ghost predicate Absent(rows: seq<Row>, id: RowId, at: real) {
    forall limit, now, d :: now < at && d in Due(rows, limit, now) ==> d.id != id
  }

  lemma PutOffIsAbsent(rows: seq<Row>, r: Row)
    requires Ordered(rows) && r in rows
    ensures Absent(rows, r.id, r.nextAttempt)
  {
    forall limit, now, d | now < r.nextAttempt && d in Due(rows, limit, now) ensures d.id != r.id {
      NotDueYet(rows, limit, now, r);
    }
  }

  /** The spool after a flush of what is due. */
  ghost function AfterFlush(c: Config, s: Spool, limit: int, now: real, answers: seq<Answer>): Spool
    requires Inv(s) && |Due(s.rows, limit, now)| <= |answers|
  {
    Flushed(c, s, Due(s.rows, limit, now), answers, |Due(s.rows, limit, now)|)
  }

  /** Each due row is left as its own answer says. */
  lemma DueRowLeft(c: Config, s: Spool, limit: int, now: real, answers: seq<Answer>, k: nat)
    requires Inv(s) && k < |Due(s.rows, limit, now)| <= |answers|
    ensures var r := Due(s.rows, limit, now)[k];
      && RowOf(s.rows, r.id) == Some(r)
      && RowOf(AfterFlush(c, s, limit, now, answers).rows, r.id) == Left(r, OutcomeOf(c, r, answers[k]))
  {
    var due := Due(s.rows, limit, now);
    DueAreStored(s, limit, now);
    var ts := FlushOf(c, s, due, answers);
    FlushedRow(c, due, answers, ts, k);
  }

  /** A due row that may succeed later has one attempt more and is not due before its delay is over. */
  lemma FlushPutsOff(c: Config, s: Spool, limit: int, now: real, answers: seq<Answer>, k: nat)
    requires Inv(s) && k < |Due(s.rows, limit, now)| <= |answers| && PutOff(answers[k]) == 1
    ensures var r, t := Due(s.rows, limit, now)[k], AfterFlush(c, s, limit, now, answers);
      var at := answers[k].clock + QueueDelay(c, r.attempts);
      RowOf(t.rows, r.id) == Some(Row(r.id, r.eventId, r.attempts + 1, at)) && Absent(t.rows, r.id, at)
  {
    var r, t := Due(s.rows, limit, now)[k], AfterFlush(c, s, limit, now, answers);
    DueRowLeft(c, s, limit, now, answers, k);
    var r' := Row(r.id, r.eventId, r.attempts + 1, answers[k].clock + QueueDelay(c, r.attempts));
    assert Absent(t.rows, r.id, r'.nextAttempt) by {
      RowOfIff(t.rows, r');
      PutOffIsAbsent(t.rows, r');
    }
  }

  /** A due row that was delivered, or can never be, is gone. */
  lemma FlushRemoves(c: Config, s: Spool, limit: int, now: real, answers: seq<Answer>, k: nat)
    requires Inv(s) && k < |Due(s.rows, limit, now)| <= |answers| && PutOff(answers[k]) == 0
    ensures RowOf(AfterFlush(c, s, limit, now, answers).rows, Due(s.rows, limit, now)[k].id) == None
  {
    DueRowLeft(c, s, limit, now, answers, k);
  }

  /** A row that is not due is as it was. */
  lemma FlushSparesRest(c: Config, s: Spool, limit: int, now: real, answers: seq<Answer>, x: RowId)
    requires Inv(s) && |Due(s.rows, limit, now)| <= |answers|
    requires forall i :: 0 <= i < |Due(s.rows, limit, now)| ==> Due(s.rows, limit, now)[i].id != x
    ensures RowOf(AfterFlush(c, s, limit, now, answers).rows, x) == RowOf(s.rows, x)
  {
    var due := Due(s.rows, limit, now);
    var ts := FlushOf(c, s, due, answers);
    FlushSkips(c, due, answers, ts, 0, |due|, x);
  }

  // -------------------------------------------------------------------- the books of a flush

  function One(b: bool): nat { if b then 1 else 0 }

  lemma SettledTally(s: Spool, id: RowId, outcome: Outcome)
    requires Inv(s) && RowOf(s.rows, id).Some?
    ensures Tally(Settle(s, id, outcome).ledger, Delivered) == Tally(s.ledger, Delivered) + One(outcome.Accepted?)
    ensures Tally(Settle(s, id, outcome).ledger, Rejected) == Tally(s.ledger, Rejected) + One(outcome.Refused?)
  {
    SettledFate(s, id, outcome);
    assert s.ledger[id] == Queued by {
      assert InTable(s.rows, id);
    }
    TallyUpdate(s.ledger, id, Delivered, Delivered);
    TallyUpdate(s.ledger, id, Delivered, Rejected);
    TallyUpdate(s.ledger, id, Rejected, Delivered);
    TallyUpdate(s.ledger, id, Rejected, Rejected);
  }

  /** The books after n rows: as many more delivered and rejected as the answers say. */
  ghost predicate Booked(s: Spool, t: Spool, answers: seq<Answer>, n: nat)
    requires n <= |answers|
  {
    && |t.ledger| == |s.ledger|
    && Tally(t.ledger, Delivered) == Tally(s.ledger, Delivered) + CountDelivered(answers, n)
    && Tally(t.ledger, Rejected) ==
       Tally(s.ledger, Rejected) + n - CountDelivered(answers, n) - CountRetried(answers, n)
  }

  lemma BookedNext(c: Config, s: Spool, t: Spool, r: Row, answers: seq<Answer>, n: nat, t': Spool)
    requires n < |answers| && SettlesTo(c, t, r, answers[n], t') && RowOf(t.rows, r.id).Some?
    requires Booked(s, t, answers, n)
    ensures Booked(s, t', answers, n + 1)
  {
    SettledTally(t, r.id, OutcomeOf(c, r, answers[n]));
    SettledFate(t, r.id, OutcomeOf(c, r, answers[n]));
  }

  lemma FlushBooksStep(c: Config, due: seq<Row>, answers: seq<Answer>, ts: seq<Spool>, n: nat)
    requires IsFlush(c, due, answers, ts) && n < |due| && Ordered(due) && AreRows(ts[0], due)
    requires Booked(ts[0], ts[n], answers, n)
    ensures Booked(ts[0], ts[n + 1], answers, n + 1)
  {
    assert SettlesTo(c, ts[n], due[n], answers[n], ts[n + 1]);
    FlushedRow(c, due, answers, ts, n);
    BookedNext(c, ts[0], ts[n], due[n], answers, n, ts[n + 1]);
  }

  lemma FlushBooks(c: Config, due: seq<Row>, answers: seq<Answer>, ts: seq<Spool>)
    requires IsFlush(c, due, answers, ts) && Ordered(due) && AreRows(ts[0], due)
    ensures Booked(ts[0], ts[|due|], answers, |due|)
  {
    for n := 0 to |due|
      invariant Booked(ts[0], ts[n], answers, n)
    {
      FlushBooksStep(c, due, answers, ts, n);
    }
  }

  /** A flush enters as delivered exactly the rows it counts as delivered, and as rejected the discarded. */
  lemma FlushBalances(c: Config, s: Spool, limit: int, now: real, answers: seq<Answer>)
    requires Inv(s) && |Due(s.rows, limit, now)| <= |answers|
    ensures Booked(s, AfterFlush(c, s, limit, now, answers), answers, |Due(s.rows, limit, now)|)
  {
    var due := Due(s.rows, limit, now);
    DueAreStored(s, limit, now);
    var ts := FlushOf(c, s, due, answers);
    FlushBooks(c, due, answers, ts);
  }

  // ---------------------------------------------------------------------- retries over a run

  datatype Move = Put(eventId: string, at: real) | Flush(limit: int, now: real, answers: seq<Answer>)

  /** Enough answers, each read off the clock no earlier than the flush began. */
  predicate MoveOk(s: Spool, m: Move) {
    m.Flush? ==>
      && |Due(s.rows, m.limit, m.now)| <= |m.answers|
      && forall i :: 0 <= i < |m.answers| ==> m.answers[i].clock >= m.now
  }

  ghost predicate Moves(c: Config, s: Spool, m: Move, t: Spool) {
    && Inv(s) && MoveOk(s, m)
    && t == match m
            case Put(eventId, at) => Enqueue(s, eventId, at)
            case Flush(limit, now, answers) => AfterFlush(c, s, limit, now, answers)
  }

  ghost predicate IsRun(c: Config, moves: seq<Move>, ss: seq<Spool>) {
    && |ss| == |moves| + 1
    && forall i :: 0 <= i < |moves| ==> Moves(c, ss[i], moves[i], ss[i + 1])
  }

  /** A row between two states: the same, or tried when due and put off by its delay. */
  predicate Waits(c: Config, r: Row, r': Row) {
    || r' == r
    || (r'.id == r.id && r'.eventId == r.eventId && r'.attempts == r.attempts + 1 &&
        r'.nextAttempt >= r.nextAttempt + QueueDelay(c, r.attempts))
  }

  lemma EnqueueKeepsRow(s: Spool, eventId: string, at: real, id: RowId)
    requires Inv(s) && id < |s.ledger| && RowOf(Enqueue(s, eventId, at).rows, id).Some?
    ensures RowOf(s.rows, id) == RowOf(Enqueue(s, eventId, at).rows, id)
  {
    if !HasEvent(s.rows, eventId) {
      EnqueueShape(s, eventId, at);
      var t := Enqueue(s, eventId, at);
      var r := RowOf(t.rows, id).value;
      RowOfIff(t.rows, r) by {
        EnqueueKeepsInv(s, eventId, at);
      }
      assert r in s.rows;
      RowOfIff(s.rows, r);
    }
  }

  lemma FlushKeepsRow(c: Config, s: Spool, m: Move, id: RowId)
    requires Inv(s) && m.Flush? && MoveOk(s, m)
    requires RowOf(AfterFlush(c, s, m.limit, m.now, m.answers).rows, id).Some?
    ensures RowOf(s.rows, id).Some?
    ensures Waits(c, RowOf(s.rows, id).value, RowOf(AfterFlush(c, s, m.limit, m.now, m.answers).rows, id).value)
  {
    var due := Due(s.rows, m.limit, m.now);
    if exists k :: 0 <= k < |due| && due[k].id == id {
      var k :| 0 <= k < |due| && due[k].id == id;
      DueRowLeft(c, s, m.limit, m.now, m.answers, k);
      TriedIsStored(s, m, due[k]);
    } else {
      FlushSparesRest(c, s, m.limit, m.now, m.answers, id);
    }
  }

  lemma MoveWaits(c: Config, s: Spool, m: Move, t: Spool, id: RowId)
    requires Moves(c, s, m, t) && id < |s.ledger| && RowOf(t.rows, id).Some?
    ensures RowOf(s.rows, id).Some? && Waits(c, RowOf(s.rows, id).value, RowOf(t.rows, id).value)
  {
    match m
    case Put(eventId, at) => EnqueueKeepsRow(s, eventId, at, id);
    case Flush(_, _, _) => FlushKeepsRow(c, s, m, id);
  }

  lemma LedgerGrows(c: Config, s: Spool, m: Move, t: Spool)
    requires Moves(c, s, m, t)
    ensures |t.ledger| >= |s.ledger|
  {
    match m
    case Put(eventId, at) =>
    case Flush(limit, now, answers) => FlushBalances(c, s, limit, now, answers);
  }

  /** The delays of k retries of a row that starts with `attempts`, added up. */
  function Delays(c: Config, attempts: nat, k: nat): real {
    if k == 0 then 0.0 else Delays(c, attempts, k - 1) + QueueDelay(c, attempts + k - 1)
  }

  /** `r'` is `r` some retries later, each after its delay. */
  predicate Spaced(c: Config, r: Row, r': Row) {
    && r'.id == r.id && r'.eventId == r.eventId && r'.attempts >= r.attempts
    && r'.nextAttempt >= r.nextAttempt + Delays(c, r.attempts, r'.attempts - r.attempts)
  }

  /** Over every run of inserts and flushes, a row found again later has waited at least the delays of
      all its retries in between. */
  lemma {:induction false} RetriesSpaced(c: Config, moves: seq<Move>, ss: seq<Spool>, i: nat, j: nat, id: RowId)
    requires IsRun(c, moves, ss) && i <= j <= |moves|
    requires id < |ss[i].ledger| && RowOf(ss[j].rows, id).Some?
    ensures RowOf(ss[i].rows, id).Some?
    ensures Spaced(c, RowOf(ss[i].rows, id).value, RowOf(ss[j].rows, id).value)
    ensures id < |ss[j].ledger|
    decreases j - i
  {
    if i < j {
      assert Moves(c, ss[i], moves[i], ss[i + 1]);
      LedgerGrows(c, ss[i], moves[i], ss[i + 1]);
      RetriesSpaced(c, moves, ss, i + 1, j, id);
      MoveWaits(c, ss[i], moves[i], ss[i + 1], id);
      SpacedBefore(c, RowOf(ss[i].rows, id).value, RowOf(ss[i + 1].rows, id).value, RowOf(ss[j].rows, id).value);
    }
  }

  lemma {:induction false} DelaysFromFront(c: Config, attempts: nat, k: nat)
    ensures Delays(c, attempts, k + 1) == QueueDelay(c, attempts) + Delays(c, attempts + 1, k)
  {
    if k > 0 {
      DelaysFromFront(c, attempts, k - 1);
    }
  }

  lemma SpacedBefore(c: Config, r: Row, r': Row, r'': Row)
    requires Waits(c, r, r') && Spaced(c, r', r'')
    ensures Spaced(c, r, r'')
  {
    if r' != r {
      DelaysFromFront(c, r.attempts, r''.attempts - r'.attempts);
    }
  }

  /** So between a flush that tries a row and a later flush that tries it again, with k retries of it up
      to then, at least the k delays have passed. */
  lemma RetryTimes(c: Config, moves: seq<Move>, ss: seq<Spool>, i: nat, j: nat, r: Row, r': Row)
    requires IsRun(c, moves, ss) && i < j < |moves| && moves[i].Flush? && moves[j].Flush? && r.id == r'.id
    requires r in Due(ss[i].rows, moves[i].limit, moves[i].now) && r' in Due(ss[j].rows, moves[j].limit, moves[j].now)
    ensures r'.attempts > r.attempts
    ensures moves[j].now >= moves[i].now + Delays(c, r.attempts, r'.attempts - r.attempts)
  {
    assert Moves(c, ss[i], moves[i], ss[i + 1]) && Moves(c, ss[j], moves[j], ss[j + 1]);
    TriedIsStored(ss[j], moves[j], r');
    TriedIsStored(ss[i], moves[i], r);
    LedgerGrows(c, ss[i], moves[i], ss[i + 1]);
    RetriesSpaced(c, moves, ss, i + 1, j, r.id);
    TriedAgain(c, ss[i], moves[i], ss[i + 1], r);
    var r1 := RowOf(ss[i + 1].rows, r.id).value;
    SumUp(c, r, r1, r', moves[i].now, moves[j].now);
  }

  lemma TriedIsStored(s: Spool, m: Move, r: Row)
    requires Inv(s) && m.Flush? && r in Due(s.rows, m.limit, m.now)
    ensures RowOf(s.rows, r.id) == Some(r) && r.nextAttempt <= m.now && r.id < |s.ledger|
  {
    DueFacts(s.rows, m.limit, m.now);
    RowOfIff(s.rows, r);
  }

  lemma SumUp(c: Config, r: Row, r1: Row, r': Row, first: real, later: real)
    requires r1.attempts == r.attempts + 1 && r1.nextAttempt >= first + QueueDelay(c, r.attempts)
    requires Spaced(c, r1, r') && r'.nextAttempt <= later
    ensures r'.attempts > r.attempts && later >= first + Delays(c, r.attempts, r'.attempts - r.attempts)
  {
    DelaysFromFront(c, r.attempts, r'.attempts - r1.attempts);
  }

  /** A row that survives the flush that tries it was put off from that flush on. */
  lemma TriedAgain(c: Config, s: Spool, m: Move, t: Spool, r: Row)
    requires Moves(c, s, m, t) && m.Flush? && r in Due(s.rows, m.limit, m.now) && RowOf(t.rows, r.id).Some?
    ensures var r1 := RowOf(t.rows, r.id).value;
      r1.attempts == r.attempts + 1 && r1.nextAttempt >= m.now + QueueDelay(c, r.attempts)
  {
    var due := Due(s.rows, m.limit, m.now);
    var k :| 0 <= k < |due| && due[k] == r;
    DueRowLeft(c, s, m.limit, m.now, m.answers, k);
  }
}
