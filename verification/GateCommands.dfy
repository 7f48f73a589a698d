/** The barrier-command protocol (backend/app/services/command_service.py and
    backend/app/realtime/mqtt_bridge.py): idempotent issue, Redis outbox, bridge publisher, edge
    acknowledgement and timeout sweep, as interleaved atomic steps. The message is pushed before
    the issuing transaction commits, so issuing takes two steps. */
module GateCommands {
  import opened Prelude

  type CommandId = nat
  type Gate = int

  datatype Status = Sent | Acknowledged | TimedOut | Failed

  datatype Row = Row(gate: Gate, command: string, key: string, status: Status, ackedAt: Option<int>, timeoutAt: int)

  /** `rows` are committed; `open` rows belong to transactions not yet committed, invisible to
      everybody else but already holding their idempotency key. Both message lists are oldest
      first. Ids count pushes, so their order is the order of issue; `keys[id]` is the idempotency
      key an id was pushed under, kept for the promises and read by nobody. */
  datatype Bus = Bus(
    rows: map<CommandId, Row>,
    open: map<CommandId, Row>,
    outbox: seq<CommandId>,
    published: seq<CommandId>,
    nextId: nat,
    keys: seq<string>)

  datatype Step =
    | Issue(gate: Gate, gateKnown: bool, command: string, supported: bool, key: string, now: int)
    | CommitIssue(id: CommandId)
    | AbortIssue(id: CommandId)
    | Publish(accepted: bool)
    | Ack(id: CommandId, success: bool, now: int)
    | Sweep(now: int)

  datatype Reply = Started(id: CommandId) | Replayed(id: CommandId) | Conflict(id: CommandId)
                 | BadRequest | NotFound | Busy | Done

  const TIMEOUT: int := 15 * 1_000_000

  ghost predicate HoldsKey(rows: map<CommandId, Row>, key: string, id: CommandId) {
    id in rows && rows[id].key == key
  }

  /** A new open row, and its message at the end of the outbox. */
  function WithNew(b: Bus, row: Row): Bus {
    b.(open := b.open[b.nextId := row], outbox := b.outbox + [b.nextId], nextId := b.nextId + 1,
       keys := b.keys + [row.key])
  }

  ghost function IssueStep(b: Bus, gate: Gate, command: string, key: string, now: int): (Bus, Reply) {
    if exists id :: HoldsKey(b.rows, key, id) then
      var id :| HoldsKey(b.rows, key, id);
      if b.rows[id].command != command || b.rows[id].gate != gate then (b, Conflict(id)) else (b, Replayed(id))
    else if exists id :: HoldsKey(b.open, key, id) then (b, Busy)
    else
      (WithNew(b, Row(gate, command, key, Sent, None, now + TIMEOUT)), Started(b.nextId))
  }

  predicate Overdue(r: Row, now: int) { r.status == Sent && r.timeoutAt < now }

  function Swept(rows: map<CommandId, Row>, now: int): map<CommandId, Row> {
    map id | id in rows :: if Overdue(rows[id], now) then rows[id].(status := TimedOut) else rows[id]
  }

  function TimedOutAmong(rows: map<CommandId, Row>, ids: set<CommandId>): map<CommandId, Row> {
    map id | id in rows :: if id in ids then rows[id].(status := TimedOut) else rows[id]
  }

  function OverdueIds(rows: map<CommandId, Row>, now: int): set<CommandId> {
    set id | id in rows && Overdue(rows[id], now)
  }

  lemma SweptIsAmong(rows: map<CommandId, Row>, now: int)
    ensures Swept(rows, now) == TimedOutAmong(rows, OverdueIds(rows, now))
  {
  }

  lemma AmongOneMore(rows: map<CommandId, Row>, ids: set<CommandId>, id: CommandId)
    requires id in rows && id !in ids
    ensures TimedOutAmong(rows, ids)[id := rows[id].(status := TimedOut)] == TimedOutAmong(rows, ids + {id})
  {
  }

  function Acked(r: Row, success: bool, now: int): Row {
    r.(status := if success then Acknowledged else Failed, ackedAt := Some(now))
  }

  ghost function Next(b: Bus, s: Step): (Bus, Reply) {
    match s
    case Issue(gate, gateKnown, command, supported, key, now) =>
      if !supported then (b, BadRequest)
      else if !gateKnown then (b, NotFound)
      else IssueStep(b, gate, command, key, now)
    case CommitIssue(id) =>
      if id in b.open then (b.(rows := b.rows[id := b.open[id]], open := b.open - {id}), Done) else (b, Done)
    case AbortIssue(id) => (b.(open := b.open - {id}), Done)
    case Publish(accepted) =>
      if b.outbox == [] then (b, Done)
      else
        (b.(outbox := b.outbox[1..], published := if accepted then b.published + [b.outbox[0]] else b.published), Done)
    case Ack(id, success, now) =>
      if id in b.rows then (b.(rows := b.rows[id := Acked(b.rows[id], success, now)]), Done) else (b, Done)
    case Sweep(now) => (b.(rows := Swept(b.rows, now)), Done)
  }

  // --------------------------------------------------------------------- the invariant

  /** Message ids grow: no command twice, and always in order of issue. */
  ghost predicate Increasing(ids: seq<CommandId>, bound: nat) {
    && (forall i, j :: 0 <= i < j < |ids| ==> ids[i] < ids[j])
    && (forall i :: 0 <= i < |ids| ==> ids[i] < bound)
  }

  ghost predicate RowOk(r: Row) {
    r.ackedAt.Some? <==> r.status == Acknowledged || r.status == Failed
  }

  predicate Live(b: Bus, id: CommandId) { id in b.rows || id in b.open }

  /** Rows carry the key they were issued under, and of the commands ever issued under one key
      only the last can still be there. */
  ghost predicate KeysOk(b: Bus) {
    && b.nextId == |b.keys|
    && (forall id :: id in b.rows ==> id < |b.keys| && b.rows[id].key == b.keys[id])
    && (forall id :: id in b.open ==> id < |b.keys| && b.open[id].key == b.keys[id])
    && (forall x, y :: 0 <= x < y < |b.keys| && b.keys[x] == b.keys[y] ==> !Live(b, x))
  }

  ghost predicate RowsOk(b: Bus) {
    && (forall id :: id in b.rows ==> id !in b.open && RowOk(b.rows[id]))
    && (forall id :: id in b.open ==> b.open[id].status == Sent && b.open[id].ackedAt.None?)
  }

  ghost predicate Inv(b: Bus) {
    RowsOk(b) && KeysOk(b) && Increasing(b.published + b.outbox, b.nextId)
  }

  /** A row that was there, under the same key. */
  predicate Kept(b: Bus, id: CommandId, r: Row) {
    (id in b.rows && r.key == b.rows[id].key) || (id in b.open && r.key == b.open[id].key)
  }

  /** A step that issues nothing and brings no command back keeps the keys in order. */
  lemma NoIssueKeepsKeys(b: Bus, t: Bus)
    requires KeysOk(b) && t.keys == b.keys && t.nextId == b.nextId
    requires forall id :: id in t.rows ==> Kept(b, id, t.rows[id])
    requires forall id :: id in t.open ==> Kept(b, id, t.open[id])
    ensures KeysOk(t)
  {
    forall x, y | 0 <= x < y < |t.keys| && t.keys[x] == t.keys[y] ensures !Live(t, x) {
      assert !Live(b, x);
    }
  }

  /** A fresh row under a key nobody holds. */
  lemma StartedKeepsKeys(b: Bus, row: Row)
    requires KeysOk(b) && AllRolledBack(b, row.key)
    ensures KeysOk(WithNew(b, row))
  {
    var t := WithNew(b, row);
    forall x, y | 0 <= x < y < |t.keys| && t.keys[x] == t.keys[y] ensures !Live(t, x) {
      assert b.keys[x] == t.keys[x] && !Live(b, x);
    }
  }

  /** No command ever pushed under the key is in a table: each was rolled back. */
  ghost predicate AllRolledBack(b: Bus, key: string) {
    forall id :: 0 <= id < |b.keys| && b.keys[id] == key ==> !Live(b, id)
  }

  lemma HeldIffLive(b: Bus, key: string)
    requires KeysOk(b)
    ensures (exists id :: HoldsKey(b.rows, key, id) || HoldsKey(b.open, key, id)) <==> !AllRolledBack(b, key)
  {
    if !AllRolledBack(b, key) {
      var id :| 0 <= id < |b.keys| && b.keys[id] == key && Live(b, id);
      assert HoldsKey(b.rows, key, id) || HoldsKey(b.open, key, id);
    }
  }

  lemma StartedKeepsRows(b: Bus, row: Row)
    requires RowsOk(b) && KeysOk(b) && row.status == Sent && row.ackedAt.None?
    ensures RowsOk(WithNew(b, row))
  {
    assert b.nextId !in b.rows;
  }

  lemma PushKeepsOrder(published: seq<CommandId>, outbox: seq<CommandId>, nextId: nat)
    requires Increasing(published + outbox, nextId)
    ensures Increasing(published + (outbox + [nextId]), nextId + 1)
  {
    assert published + (outbox + [nextId]) == (published + outbox) + [nextId];
  }

  lemma IssueKeepsInv(b: Bus, gate: Gate, command: string, key: string, now: int)
    requires Inv(b)
    ensures Inv(IssueStep(b, gate, command, key, now).0)
  {
    var row := Row(gate, command, key, Sent, None, now + TIMEOUT);
    if AllRolledBack(b, key) {
      WithNewKeepsInv(b, row);
    }
    IssueShape(b, gate, command, key, now);
  }

  /** An issue pushes a new row, exactly when every command of the key before was rolled back. */
  lemma IssueShape(b: Bus, gate: Gate, command: string, key: string, now: int)
    requires KeysOk(b)
    ensures var next := IssueStep(b, gate, command, key, now);
            && (next.1.Started? <==> AllRolledBack(b, key))
            && next.0 == if !AllRolledBack(b, key) then b
                         else WithNew(b, Row(gate, command, key, Sent, None, now + TIMEOUT))
  {
    HeldIffLive(b, key);
  }

  lemma WithNewKeepsInv(b: Bus, row: Row)
    requires Inv(b) && AllRolledBack(b, row.key) && row.status == Sent && row.ackedAt.None?
    ensures Inv(WithNew(b, row))
  {
    StartedKeepsKeys(b, row);
    StartedKeepsRows(b, row);
    PushKeepsOrder(b.published, b.outbox, b.nextId);
  }

  lemma CommitKeepsInv(b: Bus, id: CommandId)
    requires Inv(b)
    ensures Inv(Next(b, CommitIssue(id)).0)
  {
    var t := Next(b, CommitIssue(id)).0;
    assert KeysOk(t) by {
      NoIssueKeepsKeys(b, t);
    }
    assert RowsOk(t);
  }

  lemma AbortKeepsInv(b: Bus, id: CommandId)
    requires Inv(b)
    ensures Inv(Next(b, AbortIssue(id)).0)
  {
    var t := Next(b, AbortIssue(id)).0;
    assert KeysOk(t) by {
      NoIssueKeepsKeys(b, t);
    }
    assert RowsOk(t);
  }

  lemma AckKeepsInv(b: Bus, id: CommandId, success: bool, now: int)
    requires Inv(b)
    ensures Inv(Next(b, Ack(id, success, now)).0)
  {
    var t := Next(b, Ack(id, success, now)).0;
    assert KeysOk(t) by {
      NoIssueKeepsKeys(b, t);
    }
    assert RowsOk(t);
  }

  lemma SweepKeepsInv(b: Bus, now: int)
    requires Inv(b)
    ensures Inv(Next(b, Sweep(now)).0)
  {
    var t := Next(b, Sweep(now)).0;
    assert KeysOk(t) by {
      NoIssueKeepsKeys(b, t);
    }
    assert RowsOk(t);
  }

  lemma PublishKeepsInv(b: Bus, accepted: bool)
    requires Inv(b)
    ensures Inv(Next(b, Publish(accepted)).0)
  {
    if b.outbox != [] {
      var t := Next(b, Publish(accepted)).0;
      var all := b.published + b.outbox;
      if accepted {
        assert t.published + t.outbox == all;
      } else {
        var n := |b.published|;
        assert forall i :: 0 <= i < |t.published + t.outbox| ==>
            (t.published + t.outbox)[i] == all[if i < n then i else i + 1];
      }
    }
  }

  /** Every step of every process keeps: one row per idempotency key, one message per command in
      order of issue, and an acknowledgement time exactly on answered commands. */
  lemma StepKeepsInv(b: Bus, s: Step)
    requires Inv(b)
    ensures Inv(Next(b, s).0)
  {
    match s
    case Issue(gate, gateKnown, command, supported, key, now) => IssueKeepsInv(b, gate, command, key, now);
    case CommitIssue(id) => CommitKeepsInv(b, id);
    case AbortIssue(id) => AbortKeepsInv(b, id);
    case Publish(accepted) => PublishKeepsInv(b, accepted);
    case Ack(id, success, now) => AckKeepsInv(b, id, success, now);
    case Sweep(now) => SweepKeepsInv(b, now);
  }

  // -------------------------------------------------------- issuing, again and again

  /** A request pushes a message exactly when every command pushed under its key before was rolled
      back; otherwise it changes nothing. */
  lemma IssuePushesIff(b: Bus, gate: Gate, command: string, key: string, now: int)
    requires Inv(b)
    ensures var next := Next(b, Issue(gate, true, command, true, key, now));
            && (next.1.Started? <==> AllRolledBack(b, key))
            && (next.1.Started? ==>
                  && next.1 == Started(b.nextId)
                  && next.0.outbox == b.outbox + [b.nextId] && next.0.keys == b.keys + [key]
                  && next.0.rows == b.rows && next.0.published == b.published
                  && next.0.open == b.open[b.nextId := Row(gate, command, key, Sent, None, now + 15_000_000)])
            && (!next.1.Started? ==> next.0 == b)
  {
    HeldIffLive(b, key);
  }

  /** An unsupported command or an unknown gate changes nothing, and is told apart. */
  lemma RejectedIssue(b: Bus, gate: Gate, gateKnown: bool, command: string, supported: bool, key: string, now: int)
    requires !supported || !gateKnown
    ensures Next(b, Issue(gate, gateKnown, command, supported, key, now)) ==
            (b, if !supported then BadRequest else NotFound)
  {
  }

  /** A key held only by a transaction still under way makes the request wait its turn. */
  lemma ContendedIssue(b: Bus, id: CommandId, gate: Gate, command: string, now: int)
    requires Inv(b) && id in b.open
    ensures Next(b, Issue(gate, true, command, true, b.open[id].key, now)) == (b, Busy)
  {
    assert HoldsKey(b.open, b.open[id].key, id);
    assert Live(b, id);
    assert forall x :: x in b.rows ==> Live(b, x) && x != id;
  }

  /** The publisher takes the oldest message; it counts as published exactly when the broker takes it. */
  lemma PublishTakesOldest(b: Bus, accepted: bool)
    ensures var next := Next(b, Publish(accepted)).0;
      && next.rows == b.rows && next.open == b.open && next.keys == b.keys && next.nextId == b.nextId
      && (b.outbox == [] ==> next == b)
      && (b.outbox != [] ==> b.outbox == [b.outbox[0]] + next.outbox)
      && (b.outbox != [] && accepted ==> next.published == b.published + [b.outbox[0]])
      && (!accepted ==> next.published == b.published)
  {
  }

  /** Committing moves the open row into the table, rolling back drops it; the messages stay. */
  lemma TransactionEnds(b: Bus, id: CommandId)
    requires id in b.open
    ensures var next := Next(b, CommitIssue(id)).0;
      && next.rows == b.rows[id := b.open[id]] && next.open == b.open - {id}
      && next.outbox == b.outbox && next.published == b.published
    ensures var next := Next(b, AbortIssue(id)).0;
      && next.rows == b.rows && next.open == b.open - {id}
      && next.outbox == b.outbox && next.published == b.published
  {
  }

  /** Whenever an open issue is rolled back and its request retried, the retry pushes its message
      again, beside the first one. */
  lemma RolledBackIssueRepeats(b: Bus, id: CommandId, gate: Gate, command: string, now: int)
    requires Inv(b) && id in b.open
    ensures var key := b.open[id].key;
            var next := Next(Next(b, AbortIssue(id)).0, Issue(gate, true, command, true, key, now));
            && next.1 == Started(b.nextId) && next.0.outbox == b.outbox + [b.nextId]
            && id < b.nextId < |next.0.keys| && next.0.keys[id] == next.0.keys[b.nextId] == key
  {
    var aborted, key := Next(b, AbortIssue(id)).0, b.open[id].key;
    AbortKeepsInv(b, id);
    forall x | 0 <= x < |b.keys| && b.keys[x] == key ensures !Live(aborted, x) {
      assert Live(b, id);
      assert x < id ==> !Live(b, x);
    }
    IssuePushesIff(aborted, gate, command, key, now);
  }

  /** A committed command never disappears or changes what it is, and never goes back to SENT. */
  ghost predicate Advances(r: Row, r': Row) {
    && r'.gate == r.gate && r'.command == r.command && r'.key == r.key && r'.timeoutAt == r.timeoutAt
    && (r.status != Sent ==> r'.status != Sent)
    && (r.ackedAt.Some? ==> r'.ackedAt.Some?)
  }

  lemma RowAdvances(b: Bus, s: Step, id: CommandId)
    requires Inv(b) && id in b.rows
    ensures id in Next(b, s).0.rows && Advances(b.rows[id], Next(b, s).0.rows[id])
  {
  }

  /** Issuing again under a committed key pushes nothing: the original command is returned, or a
      conflict if the request was for something else. */
  lemma ReissueIsReplay(b: Bus, id: CommandId, gate: Gate, command: string, now: int)
    requires Inv(b) && id in b.rows
    ensures var next := Next(b, Issue(gate, true, command, true, b.rows[id].key, now));
            && next.0 == b
            && next.1 == if b.rows[id].command == command && b.rows[id].gate == gate then Replayed(id) else Conflict(id)
  {
    assert HoldsKey(b.rows, b.rows[id].key, id);
  }

  /** After a sweep no command is both unanswered and past its timeout. */
  lemma SweepLeavesNoneOverdue(b: Bus, now: int)
    requires Inv(b)
    ensures forall id :: id in Next(b, Sweep(now)).0.rows ==> !Overdue(Next(b, Sweep(now)).0.rows[id], now)
    ensures forall id :: id in b.rows && !Overdue(b.rows[id], now) ==> Next(b, Sweep(now)).0.rows[id] == b.rows[id]
  {
  }

  // ------------------------------------------------------- acknowledgements and commits

  /** An acknowledgement is kept exactly when the command's transaction has committed by then. */
  lemma AckCountsIff(b: Bus, id: CommandId, success: bool, now: int)
    requires Inv(b)
    ensures var next := Next(b, Ack(id, success, now)).0;
            && (id in b.rows ==> id in next.rows && next.rows[id].ackedAt == Some(now))
            && (id !in b.rows ==> next == b)
  {
  }

  /** An edge that answers before the issuing request commits is not heard: whatever it said, its
      command ends as timed out once the sweep passes the deadline. */
  lemma EarlyAckIsLost(b: Bus, id: CommandId, success: bool, at: int, later: int)
    requires Inv(b) && id in b.open && later > b.open[id].timeoutAt
    ensures var acked := Next(b, Ack(id, success, at)).0;
            var committed := Next(acked, CommitIssue(id)).0;
            var end := Next(committed, Sweep(later)).0;
            id in end.rows && end.rows[id].status == TimedOut && end.rows[id].ackedAt.None?
  {
    var acked := Next(b, Ack(id, success, at)).0;
    assert acked == b;
    var committed := Next(acked, CommitIssue(id)).0;
    assert committed.rows[id] == b.open[id];
  }

  /** Such states are reached from every state with an empty outbox: a new command is published while
      its transaction is still open. */
  lemma MessageMayOutrunCommit(b: Bus, gate: Gate, command: string, key: string, now: int)
    requires Inv(b) && b.outbox == [] && AllRolledBack(b, key)
    ensures var next := Next(Next(b, Issue(gate, true, command, true, key, now)).0, Publish(true)).0;
            b.nextId in next.open && b.nextId !in next.rows && next.published == b.published + [b.nextId]
  {
    IssuePushesIff(b, gate, command, key, now);
    IssueKeepsInv(b, gate, command, key, now);
  }

  // ----------------------------------------------------------------------- the tables

  class CommandTable {
    var rows: map<CommandId, Row>
    var open: map<CommandId, Row>
    var outbox: seq<CommandId>
    var published: seq<CommandId>
    var nextId: nat
    ghost var keys: seq<string>

    ghost function State(): Bus
      reads this
    {
      Bus(rows, open, outbox, published, nextId, keys)
    }

    constructor ()
      ensures State() == Bus(map[], map[], [], [], 0, [])
    {
      rows, open, outbox, published, nextId, keys := map[], map[], [], [], 0, [];
    }

    method FindKey(table: map<CommandId, Row>, key: string) returns (found: Option<CommandId>)
      ensures found.Some? ==> HoldsKey(table, key, found.value)
      ensures found.None? ==> forall id :: !HoldsKey(table, key, id)
    {
      var rest := table.Keys;
      while rest != {}
        invariant rest <= table.Keys
        invariant forall id :: id in table && id !in rest ==> table[id].key != key
        decreases |rest|
      {
        var id :| id in rest;
        if table[id].key == key {
          return Some(id);
        }
        rest := rest - {id};
      }
      return None;
    }

    method IssueCommand(gate: Gate, gateKnown: bool, command: string, supported: bool, key: string, now: int)
      returns (r: Reply)
      requires Inv(State())
      modifies this
      ensures (State(), r) == Next(old(State()), Issue(gate, gateKnown, command, supported, key, now))
      ensures Inv(State())
    {
      ghost var after := Next(State(), Issue(gate, gateKnown, command, supported, key, now));
      assert Inv(after.0) by {
        StepKeepsInv(State(), Issue(gate, gateKnown, command, supported, key, now));
      }
      if !supported {
        return BadRequest;
      }
      if !gateKnown {
        return NotFound;
      }
      var existing := FindKey(rows, key);
      if existing.Some? {
        ReissueIsReplay(State(), existing.value, gate, command, now);
        if rows[existing.value].command != command || rows[existing.value].gate != gate {
          return Conflict(existing.value);
        }
        return Replayed(existing.value);
      }
      var contended := FindKey(open, key);
      if contended.Some? {
        return Busy;
      }
      IssueShape(State(), gate, command, key, now);
      HeldIffLive(State(), key);
      open := open[nextId := Row(gate, command, key, Sent, None, now + TIMEOUT)];
      outbox := outbox + [nextId];
      nextId, keys := nextId + 1, keys + [key];
      return Started(nextId - 1);
    }

    method MarkCommandAck(id: CommandId, success: bool, now: int)
      modifies this
      ensures State() == Next(old(State()), Ack(id, success, now)).0
    {
      if id !in rows {
        return;
      }
      rows := rows[id := rows[id].(status := if success then Acknowledged else Failed, ackedAt := Some(now))];
    }

    /** One round of the bridge's loop: take the oldest message and try to publish it. */
    method PublishNext(accepted: bool)
      modifies this
      ensures State() == Next(old(State()), Publish(accepted)).0
    {
      if outbox == [] {
        return;
      }
      var msg := outbox[0];
      outbox := outbox[1..];
      if accepted {
        published := published + [msg];
      }
    }

    /** The worker's sweep; the count is how many commands it timed out. */
    method ExpireStaleCommands(now: int) returns (count: nat)
      modifies this`rows
      ensures State() == Next(old(State()), Sweep(now)).0
      ensures count == |OverdueIds(old(rows), now)|
    {
      var due := OverdueIds(rows, now);
      var rest := due;
      count := 0;
      while rest != {}
        invariant rest <= due && count == |due| - |rest|
        invariant rows == TimedOutAmong(old(rows), due - rest)
        decreases |rest|
      {
        var id :| id in rest;
        AmongOneMore(old(rows), due - rest, id);
        assert due - (rest - {id}) == (due - rest) + {id};
        rows := rows[id := rows[id].(status := TimedOut)];
        rest := rest - {id};
        count := count + 1;
      }
      assert due - rest == due;
      SweptIsAmong(old(rows), now);
    }
  }
}
