/** The durable camera-event spool (anpr-worker/edge/camera_event_queue.py): a bounded table with
    ids that are never reused, plus a ledger of what became of every row ever inserted. */
module EventSpool {
  import opened Prelude

  type RowId = nat

  datatype Row = Row(id: RowId, eventId: string, attempts: nat, nextAttempt: real)

  datatype Fate = Queued | Delivered | Rejected | Evicted

  /** `ledger[i]` is what became of row i. Nothing reads it at run time. */
  datatype Spool = Spool(rows: seq<Row>, cap: nat, ledger: seq<Fate>)

  /** What a delivery attempt says about the row it was made for. */
  datatype Outcome = Accepted | Refused | TryAgain(at: real)

  predicate HasEvent(rows: seq<Row>, eventId: string) {
    exists i :: 0 <= i < |rows| && rows[i].eventId == eventId
  }

  function MarkEvicted(ledger: seq<Fate>, gone: seq<Row>): (r: seq<Fate>)
    requires forall i :: 0 <= i < |gone| ==> gone[i].id < |ledger|
    ensures |r| == |ledger|
  {
    if gone == [] then ledger else MarkEvicted(ledger, gone[..|gone| - 1])[gone[|gone| - 1].id := Evicted]
  }

  /** Every id in the table has a ledger entry. */
  ghost predicate Listed(s: Spool) {
    forall i :: 0 <= i < |s.rows| ==> s.rows[i].id < |s.ledger|
  }

  function Overflow(s: Spool): nat { if |s.rows| + 1 > s.cap then |s.rows| + 1 - s.cap else 0 }

  /** Insert, then drop the oldest rows above the cap. A known event id is ignored. */
  ghost function Enqueue(s: Spool, eventId: string, nextAttempt: real): Spool
    requires Listed(s) && s.cap >= 1
  {
    if HasEvent(s.rows, eventId) then s
    else
      var all := s.rows + [Row(|s.ledger|, eventId, 0, nextAttempt)];
      var k := Overflow(s);
      Spool(all[k..], s.cap, MarkEvicted(s.ledger + [Queued], all[..k]))
  }

  function IndexOf(rows: seq<Row>, id: RowId): (r: Option<nat>)
    ensures r.Some? ==> r.value < |rows| && rows[r.value].id == id
    ensures r.None? ==> forall i :: 0 <= i < |rows| ==> rows[i].id != id
  {
    if rows == [] then None
    else if rows[|rows| - 1].id == id then Some(|rows| - 1)
    else IndexOf(rows[..|rows| - 1], id)
  }

  function Without(rows: seq<Row>, i: nat): seq<Row>
    requires i < |rows|
  {
    rows[..i] + rows[i + 1..]
  }

  /** Act on a row by id: delete it, or count the attempt and put it off. An id no longer in the
      table, because another thread already removed the row, changes nothing. */
  function Settle(s: Spool, id: RowId, outcome: Outcome): Spool
    requires Listed(s)
  {
    match IndexOf(s.rows, id)
    case None => s
    case Some(i) =>
      match outcome
      case Accepted => s.(rows := Without(s.rows, i), ledger := s.ledger[id := Delivered])
      case Refused => s.(rows := Without(s.rows, i), ledger := s.ledger[id := Rejected])
      case TryAgain(at) =>
        s.(rows := s.rows[i := s.rows[i].(attempts := s.rows[i].attempts + 1, nextAttempt := at)])
  }

  // ------------------------------------------------------------------- the invariant

  ghost predicate Ordered(rows: seq<Row>) {
    forall i, j :: 0 <= i < j < |rows| ==> rows[i].id < rows[j].id
  }

  ghost predicate DistinctEvents(rows: seq<Row>) {
    forall i, j :: 0 <= i < j < |rows| ==> rows[i].eventId != rows[j].eventId
  }

  ghost predicate InTable(rows: seq<Row>, id: RowId) {
    exists i :: 0 <= i < |rows| && rows[i].id == id
  }

  ghost predicate LedgerAgrees(s: Spool) {
    forall id :: 0 <= id < |s.ledger| ==> (s.ledger[id] == Queued <==> InTable(s.rows, id))
  }

  /** Whatever was evicted is older than everything still queued. */
  ghost predicate EvictedOldest(s: Spool) {
    forall id, i :: 0 <= id < |s.ledger| && s.ledger[id] == Evicted && 0 <= i < |s.rows| ==> id < s.rows[i].id
  }

  ghost predicate Inv(s: Spool) {
    && s.cap >= 1 && |s.rows| <= s.cap
    && Listed(s) && Ordered(s.rows) && DistinctEvents(s.rows)
    && LedgerAgrees(s) && EvictedOldest(s)
  }

  /** An insert keeps the new row, evicts at most one, and evicts the oldest. */
  lemma EnqueueShape(s: Spool, eventId: string, nextAttempt: real)
    requires Inv(s) && !HasEvent(s.rows, eventId)
    ensures var t := Enqueue(s, eventId, nextAttempt);
            var added := Row(|s.ledger|, eventId, 0, nextAttempt);
            && t.rows == (if |s.rows| == s.cap then s.rows[1..] else s.rows) + [added]
            && |t.ledger| == |s.ledger| + 1
            && t.ledger == (if |s.rows| == s.cap then s.ledger[s.rows[0].id := Evicted] else s.ledger) + [Queued]
  {
    var all := s.rows + [Row(|s.ledger|, eventId, 0, nextAttempt)];
    var ledger := s.ledger + [Queued];
    if |s.rows| == s.cap {
      assert all[..1] == [s.rows[0]];
      assert all[..1][..0] == [];
      assert MarkEvicted(ledger, all[..1]) == ledger[s.rows[0].id := Evicted];
      assert all[1..] == s.rows[1..] + [all[|s.rows|]];
    } else {
      assert all[..0] == [];
    }
  }

  lemma InTableSnoc(rows: seq<Row>, r: Row, id: RowId)
    ensures InTable(rows + [r], id) <==> InTable(rows, id) || r.id == id
  {
    if InTable(rows, id) {
      var i :| 0 <= i < |rows| && rows[i].id == id;
      assert (rows + [r])[i].id == id;
    }
    assert (rows + [r])[|rows|] == r;
  }

  lemma InTableWithout(rows: seq<Row>, k: nat, id: RowId)
    requires Ordered(rows) && k < |rows|
    ensures InTable(Without(rows, k), id) <==> InTable(rows, id) && id != rows[k].id
  {
    if InTable(rows, id) && id != rows[k].id {
      var i :| 0 <= i < |rows| && rows[i].id == id;
      assert Without(rows, k)[if i < k then i else i - 1].id == id;
    }
    if InTable(Without(rows, k), id) {
      var i :| 0 <= i < |rows| - 1 && Without(rows, k)[i].id == id;
      assert rows[if i < k then i else i + 1].id == id;
    }
  }

  lemma RemoveKeepsInv(s: Spool, k: nat, fate: Fate)
    requires Inv(s) && k < |s.rows| && fate != Queued
    requires fate == Evicted ==> k == 0
    ensures Inv(s.(rows := Without(s.rows, k), ledger := s.ledger[s.rows[k].id := fate]))
  {
    var t := s.(rows := Without(s.rows, k), ledger := s.ledger[s.rows[k].id := fate]);
    assert forall i :: 0 <= i < |t.rows| ==> t.rows[i] == s.rows[if i < k then i else i + 1];
    forall id | 0 <= id < |t.ledger| ensures t.ledger[id] == Queued <==> InTable(t.rows, id) {
      InTableWithout(s.rows, k, id);
    }
  }

  lemma AppendKeepsInv(s: Spool, eventId: string, nextAttempt: real)
    requires Inv(s) && |s.rows| < s.cap && !HasEvent(s.rows, eventId)
    ensures Inv(s.(rows := s.rows + [Row(|s.ledger|, eventId, 0, nextAttempt)], ledger := s.ledger + [Queued]))
  {
    var r := Row(|s.ledger|, eventId, 0, nextAttempt);
    var t := s.(rows := s.rows + [r], ledger := s.ledger + [Queued]);
    forall id | 0 <= id < |t.ledger| ensures t.ledger[id] == Queued <==> InTable(t.rows, id) {
      InTableSnoc(s.rows, r, id);
      assert id == |s.ledger| ==> !InTable(s.rows, id);
    }
  }

  /** The spool without its oldest row, which is entered as evicted. */
  ghost function DropOldest(s: Spool): Spool
    requires Listed(s) && s.rows != []
  {
    s.(rows := s.rows[1..], ledger := s.ledger[s.rows[0].id := Evicted])
  }

  ghost function Append(s: Spool, eventId: string, nextAttempt: real): Spool {
    s.(rows := s.rows + [Row(|s.ledger|, eventId, 0, nextAttempt)], ledger := s.ledger + [Queued])
  }

  lemma DropOldestKeepsInv(s: Spool, eventId: string)
    requires Inv(s) && s.rows != []
    ensures Inv(DropOldest(s)) && |DropOldest(s).rows| < s.cap
    ensures !HasEvent(s.rows, eventId) ==> !HasEvent(DropOldest(s).rows, eventId)
  {
    assert Inv(DropOldest(s)) by {
      RemoveKeepsInv(s, 0, Evicted);
      assert Without(s.rows, 0) == s.rows[1..];
    }
    assert forall i :: 0 <= i < |s.rows[1..]| ==> s.rows[1..][i] == s.rows[i + 1];
  }

  /** An insert appends, to the spool itself or to what is left without its oldest row. */
  lemma EnqueueIsAppend(s: Spool, eventId: string, nextAttempt: real)
    requires Inv(s) && !HasEvent(s.rows, eventId)
    ensures Enqueue(s, eventId, nextAttempt) ==
            Append(if |s.rows| == s.cap then DropOldest(s) else s, eventId, nextAttempt)
  {
    EnqueueShape(s, eventId, nextAttempt);
  }

  lemma EnqueueKeepsInv(s: Spool, eventId: string, nextAttempt: real)
    requires Inv(s)
    ensures Inv(Enqueue(s, eventId, nextAttempt))
  {
    if !HasEvent(s.rows, eventId) {
      var room := if |s.rows| == s.cap then DropOldest(s) else s;
      assert Inv(Append(room, eventId, nextAttempt)) by {
        if |s.rows| == s.cap {
          DropOldestKeepsInv(s, eventId);
        }
        AppendKeepsInv(room, eventId, nextAttempt);
      }
      assert Enqueue(s, eventId, nextAttempt) == Append(room, eventId, nextAttempt) by {
        EnqueueIsAppend(s, eventId, nextAttempt);
      }
    }
  }

  lemma SettleKeepsInv(s: Spool, id: RowId, outcome: Outcome)
    requires Inv(s)
    ensures Inv(Settle(s, id, outcome))
  {
    var i := IndexOf(s.rows, id);
    if i.Some? {
      match outcome
      case Accepted => RemoveKeepsInv(s, i.value, Delivered);
      case Refused => RemoveKeepsInv(s, i.value, Rejected);
      case TryAgain(at) =>
        var t := Settle(s, id, outcome);
        assert forall j :: 0 <= j < |s.rows| ==> t.rows[j].id == s.rows[j].id && t.rows[j].eventId == s.rows[j].eventId;
        forall x | 0 <= x < |t.ledger| ensures InTable(t.rows, x) <==> InTable(s.rows, x) {
          if InTable(s.rows, x) {
            var j :| 0 <= j < |s.rows| && s.rows[j].id == x;
            assert t.rows[j].id == x;
          }
        }
    }
  }

  // -------------------------------------------------------------------- interleavings

  /** One atomic operation of any thread. Flushes act on rows they read earlier, so the id they
      settle may be stale. */
  datatype Op = Insert(eventId: string, nextAttempt: real) | SettleRow(id: RowId, outcome: Outcome)

  ghost function Apply(s: Spool, op: Op): Spool
    requires Inv(s)
  {
    match op
    case Insert(eventId, at) => Enqueue(s, eventId, at)
    case SettleRow(id, outcome) => Settle(s, id, outcome)
  }

  lemma ApplyKeepsInv(s: Spool, op: Op)
    requires Inv(s)
    ensures Inv(Apply(s, op))
  {
    match op
    case Insert(eventId, at) => EnqueueKeepsInv(s, eventId, at);
    case SettleRow(id, outcome) => SettleKeepsInv(s, id, outcome);
  }

  function Empty(cap: nat): Spool { Spool([], cap, []) }

  ghost function RunOps(cap: nat, ops: seq<Op>): (s: Spool)
    requires cap >= 1
    ensures Inv(s) && s.cap == cap
  {
    if ops == [] then Empty(cap)
    else
      var before := RunOps(cap, ops[..|ops| - 1]);
      ApplyKeepsInv(before, ops[|ops| - 1]);
      Apply(before, ops[|ops| - 1])
  }

  function Tally(ledger: seq<Fate>, f: Fate): nat {
    if ledger == [] then 0
    else Tally(ledger[..|ledger| - 1], f) + if ledger[|ledger| - 1] == f then 1 else 0
  }

  lemma {:induction false} TallyUpdate(ledger: seq<Fate>, id: nat, g: Fate, f: Fate)
    requires id < |ledger|
    ensures Tally(ledger[id := g], f) ==
            Tally(ledger, f) - (if ledger[id] == f then 1 else 0) + if g == f then 1 else 0
  {
    var n := |ledger| - 1;
    if id == n {
      assert ledger[id := g][..n] == ledger[..n];
    } else {
      TallyUpdate(ledger[..n], id, g, f);
      assert ledger[id := g][..n] == ledger[..n][id := g];
    }
  }

  lemma TallySnoc(ledger: seq<Fate>, g: Fate, f: Fate)
    ensures Tally(ledger + [g], f) == Tally(ledger, f) + if g == f then 1 else 0
  {
    assert (ledger + [g])[..|ledger|] == ledger;
  }

  lemma QueuedStep(s: Spool, op: Op)
    requires Inv(s) && Tally(s.ledger, Queued) == |s.rows|
    ensures Tally(Apply(s, op).ledger, Queued) == |Apply(s, op).rows|
  {
    match op
    case Insert(eventId, at) =>
      if !HasEvent(s.rows, eventId) {
        EnqueueShape(s, eventId, at);
        if |s.rows| == s.cap {
          assert InTable(s.rows, s.rows[0].id);
          TallyUpdate(s.ledger, s.rows[0].id, Evicted, Queued);
          TallySnoc(s.ledger[s.rows[0].id := Evicted], Queued, Queued);
        } else {
          TallySnoc(s.ledger, Queued, Queued);
        }
      }
    case SettleRow(id, outcome) =>
      var i := IndexOf(s.rows, id);
      if i.Some? && !outcome.TryAgain? {
        assert InTable(s.rows, id);
        TallyUpdate(s.ledger, id, if outcome.Accepted? then Delivered else Rejected, Queued);
      }
  }

  lemma {:induction false} TallyTotal(ledger: seq<Fate>)
    ensures Tally(ledger, Queued) + Tally(ledger, Delivered) + Tally(ledger, Rejected) + Tally(ledger, Evicted)
            == |ledger|
  {
    if ledger != [] {
      TallyTotal(ledger[..|ledger| - 1]);
    }
  }

  /** The books balance over every interleaving from an empty spool: each row ever inserted is
      queued, delivered, rejected or evicted, the queued ones are the rows of the table, and the
      table respects its cap, its order and its unique event ids. */
  lemma {:induction false} BooksBalance(cap: nat, ops: seq<Op>)
    requires cap >= 1
    ensures var s := RunOps(cap, ops);
            && Inv(s)
            && Tally(s.ledger, Queued) == |s.rows| <= cap
            && |s.rows| + Tally(s.ledger, Delivered) + Tally(s.ledger, Rejected) + Tally(s.ledger, Evicted)
               == |s.ledger|
  {
    if ops != [] {
      BooksBalance(cap, ops[..|ops| - 1]);
      QueuedStep(RunOps(cap, ops[..|ops| - 1]), ops[|ops| - 1]);
    }
    TallyTotal(RunOps(cap, ops).ledger);
  }

  /** A row that has left the table keeps the reason it left for. */
  lemma FateStep(s: Spool, op: Op, id: RowId)
    requires Inv(s) && id < |s.ledger|
    ensures id < |Apply(s, op).ledger|
    ensures s.ledger[id] != Queued ==> Apply(s, op).ledger[id] == s.ledger[id]
  {
    match op
    case Insert(eventId, at) =>
      if !HasEvent(s.rows, eventId) {
        EnqueueShape(s, eventId, at);
        if |s.rows| == s.cap {
          assert InTable(s.rows, s.rows[0].id);
        }
      }
    case SettleRow(x, outcome) =>
      var i := IndexOf(s.rows, x);
      if i.Some? {
        assert InTable(s.rows, x);
      }
  }

  lemma {:induction false} FateIsFinal(cap: nat, ops: seq<Op>, n: nat, id: RowId)
    requires cap >= 1 && n <= |ops| && id < |RunOps(cap, ops[..n]).ledger|
    requires RunOps(cap, ops[..n]).ledger[id] != Queued
    ensures id < |RunOps(cap, ops).ledger|
    ensures RunOps(cap, ops).ledger[id] == RunOps(cap, ops[..n]).ledger[id]
    decreases |ops|
  {
    if n == |ops| {
      assert ops[..n] == ops;
    } else {
      var before := ops[..|ops| - 1];
      assert before[..n] == ops[..n];
      FateIsFinal(cap, before, n, id);
      FateStep(RunOps(cap, before), ops[|ops| - 1], id);
    }
  }

  /** A new event is in the table after its own insert, however full the spool was. */
  lemma InsertKeepsNewEvent(s: Spool, eventId: string, nextAttempt: real)
    requires Inv(s)
    ensures HasEvent(Enqueue(s, eventId, nextAttempt).rows, eventId)
  {
    if !HasEvent(s.rows, eventId) {
      EnqueueShape(s, eventId, nextAttempt);
      var rows := Enqueue(s, eventId, nextAttempt).rows;
      assert rows[|rows| - 1].eventId == eventId;
    }
  }

  // ----------------------------------------------------------------------- the table

  class CameraEventQueue {
    const maxEvents: nat
    var rows: seq<Row>
    var nextId: nat
    ghost var ledger: seq<Fate>

    ghost function State(): Spool
      reads this
    {
      Spool(rows, maxEvents, ledger)
    }

    ghost predicate Valid()
      reads this
    {
      Inv(State()) && nextId == |ledger|
    }

    constructor (maxEvents: int)
      ensures Valid() && State() == Empty(Max(1, maxEvents))
    {
      this.maxEvents := Max(1, maxEvents);
      rows, nextId, ledger := [], 0, [];
    }

    method HasEventId(eventId: string) returns (b: bool)
      ensures b <==> HasEvent(rows, eventId)
    {
      for i := 0 to |rows|
        invariant forall j :: 0 <= j < i ==> rows[j].eventId != eventId
      {
        if rows[i].eventId == eventId {
          return true;
        }
      }
      return false;
    }

    /** A blank event id is refused; otherwise insert and enforce the cap. */
    method Put(eventId: string, nextAttempt: real) returns (ok: bool)
      requires Valid()
      modifies this
      ensures Valid()
      ensures ok <==> eventId != ""
      ensures State() == if ok then Enqueue(old(State()), eventId, nextAttempt) else old(State())
    {
      if eventId == "" {
        return false;
      }
      ghost var after := Enqueue(State(), eventId, nextAttempt);
      assert Inv(after) by {
        EnqueueKeepsInv(State(), eventId, nextAttempt);
      }
      var known := HasEventId(eventId);
      if !known {
        assert |after.ledger| == nextId + 1;
        rows := rows + [Row(nextId, eventId, 0, nextAttempt)];
        nextId := nextId + 1;
        var overflow := |rows| - maxEvents;
        if overflow > 0 {
          rows := rows[overflow..];
        }
        ledger := after.ledger;
        assert rows == after.rows;
      }
      return true;
    }

    /** Due rows, oldest first; a negative limit is no limit. */
    method DueEvents(limit: int, now: real) returns (due: seq<Row>)
      ensures due == Due(rows, limit, now)
    {
      due := [];
      for i := 0 to |rows|
        invariant due == Due(rows[..i], limit, now)
      {
        assert rows[..i + 1][..i] == rows[..i];
        if rows[i].nextAttempt <= now && (limit < 0 || |due| < limit) {
          due := due + [rows[i]];
        }
      }
      assert rows[..|rows|] == rows;
    }

    method MarkAttempt(id: RowId, at: real)
      requires Valid()
      modifies this
      ensures Valid() && State() == Settle(old(State()), id, TryAgain(at))
    {
      SettleKeepsInv(State(), id, TryAgain(at));
      var i := IndexOf(rows, id);
      if i.Some? {
        rows := rows[i.value := rows[i.value].(attempts := rows[i.value].attempts + 1, nextAttempt := at)];
      }
    }

    /** Delete a row. Why it goes is recorded in the ledger only. */
    method Delete(id: RowId, ghost delivered: bool)
      requires Valid()
      modifies this
      ensures Valid() && State() == Settle(old(State()), id, if delivered then Accepted else Refused)
    {
      SettleKeepsInv(State(), id, if delivered then Accepted else Refused);
      var i := IndexOf(rows, id);
      if i.Some? {
        rows := rows[..i.value] + rows[i.value + 1..];
        ledger := ledger[id := if delivered then Delivered else Rejected];
      }
    }
  }

  function Due(rows: seq<Row>, limit: int, now: real): seq<Row> {
    if rows == [] then []
    else
      var older := Due(rows[..|rows| - 1], limit, now);
      var r := rows[|rows| - 1];
      if r.nextAttempt <= now && (limit < 0 || |older| < limit) then older + [r] else older
  }

  lemma {:induction false} DueAreRows(rows: seq<Row>, limit: int, now: real)
    ensures forall r :: r in Due(rows, limit, now) ==> r in rows && r.nextAttempt <= now
  {
    if rows != [] {
      var n := |rows| - 1;
      DueAreRows(rows[..n], limit, now);
      assert forall r :: r in rows[..n] ==> r in rows;
    }
  }

  lemma {:induction false} DueBounded(rows: seq<Row>, limit: int, now: real)
    ensures |Due(rows, limit, now)| <= |rows|
    ensures limit >= 0 ==> |Due(rows, limit, now)| <= limit
  {
    if rows != [] {
      DueBounded(rows[..|rows| - 1], limit, now);
    }
  }

  lemma OrderedLast(rows: seq<Row>, r: Row)
    requires Ordered(rows) && rows != [] && r in rows[..|rows| - 1]
    ensures r.id < rows[|rows| - 1].id
  {
    var i :| 0 <= i < |rows| - 1 && rows[..|rows| - 1][i] == r;
    assert rows[i] == r;
  }

  lemma {:induction false} DueOrdered(rows: seq<Row>, limit: int, now: real)
    requires Ordered(rows)
    ensures Ordered(Due(rows, limit, now))
  {
    if rows != [] {
      var n := |rows| - 1;
      DueOrdered(rows[..n], limit, now);
      var older := Due(rows[..n], limit, now);
      forall i | 0 <= i < |older| ensures older[i].id < rows[n].id {
        DueAreRows(rows[..n], limit, now);
        OrderedLast(rows, older[i]);
      }
    }
  }

  /** A due row that is not taken: the limit was used up, and by older rows. */
  ghost predicate Postponed(rows: seq<Row>, limit: int, now: real, r: Row) {
    && |Due(rows, limit, now)| == limit
    && forall d :: d in Due(rows, limit, now) ==> d.id < r.id
  }

  lemma {:induction false} DueOrPostponed(rows: seq<Row>, limit: int, now: real, r: Row)
    requires Ordered(rows) && r in rows && r.nextAttempt <= now
    ensures r in Due(rows, limit, now) || Postponed(rows, limit, now, r)
  {
    var n := |rows| - 1;
    var before := rows[..n];
    DueBounded(before, limit, now);
    if r in before {
      DueOrPostponed(before, limit, now, r);
    } else {
      assert r == rows[n];
      forall d | d in Due(before, limit, now) ensures d.id < r.id {
        DueAreRows(before, limit, now);
        OrderedLast(rows, d);
      }
    }
  }

  /** Due rows are rows of the table, in order, and all of them are due; a due row is left out only
      when the limit was used up by older ones. */
  lemma DueFacts(rows: seq<Row>, limit: int, now: real)
    requires Ordered(rows)
    ensures Ordered(Due(rows, limit, now))
    ensures forall r :: r in Due(rows, limit, now) ==> r in rows && r.nextAttempt <= now
    ensures |Due(rows, limit, now)| <= |rows| && (limit >= 0 ==> |Due(rows, limit, now)| <= limit)
    ensures forall r :: r in rows && r.nextAttempt <= now ==>
              r in Due(rows, limit, now) || Postponed(rows, limit, now, r)
  {
    DueOrdered(rows, limit, now);
    DueAreRows(rows, limit, now);
    DueBounded(rows, limit, now);
    forall r | r in rows && r.nextAttempt <= now
      ensures r in Due(rows, limit, now) || Postponed(rows, limit, now, r)
    {
      DueOrPostponed(rows, limit, now, r);
    }
  }
}
