/** What the barrier-command protocol guarantees over every interleaving of its steps
    (backend/app/services/command_service.py, backend/app/realtime/mqtt_bridge.py). */
module CommandRuns {
  import opened Prelude
  import opened GateCommands

  ghost predicate Follows(b: Bus, s: Step, b': Bus) { b' == Next(b, s).0 }

  /** `bs` are the states of a run: the empty bus, and one after each step of any process. */
  ghost predicate IsRun(steps: seq<Step>, bs: seq<Bus>) {
    && |bs| == |steps| + 1
    && bs[0] == Bus(map[], map[], [], [], 0, [])
    && forall i :: 0 <= i < |steps| ==> Follows(bs[i], steps[i], bs[i + 1])
  }

  lemma FollowsKeepsInv(b: Bus, s: Step, b': Bus)
    requires Inv(b) && Follows(b, s, b')
    ensures Inv(b')
  {
    StepKeepsInv(b, s);
  }

  /** Every interleaving keeps the invariant. */
  lemma {:induction false} AlwaysInv(steps: seq<Step>, bs: seq<Bus>, n: nat)
    requires IsRun(steps, bs) && n <= |steps|
    ensures Inv(bs[n])
  {
    if n > 0 {
      AlwaysInv(steps, bs, n - 1);
      assert Follows(bs[n - 1], steps[n - 1], bs[n - 1 + 1]);
      FollowsKeepsInv(bs[n - 1], steps[n - 1], bs[n]);
    }
  }

  // ------------------------------------------------------------------ messages and keys

  /** Published commands are in order of issue without repeats, and before everything waiting. */
  ghost predicate InIssueOrder(b: Bus) {
    && Increasing(b.published, b.nextId) && Increasing(b.outbox, b.nextId)
    && forall i, j :: 0 <= i < |b.published| && 0 <= j < |b.outbox| ==> b.published[i] < b.outbox[j]
  }

  ghost predicate OneRowPerKey(b: Bus) {
    forall x, y :: x in b.rows && y in b.rows && b.rows[x].key == b.rows[y].key ==> x == y
  }

  lemma QueuesInOrder(b: Bus)
    requires Inv(b)
    ensures InIssueOrder(b)
  {
    var all := b.published + b.outbox;
    assert forall i :: 0 <= i < |b.published| ==> b.published[i] == all[i];
    assert forall j :: 0 <= j < |b.outbox| ==> b.outbox[j] == all[|b.published| + j];
  }

  lemma KeysMakeOneRow(b: Bus)
    requires KeysOk(b)
    ensures OneRowPerKey(b)
  {
    forall x, y | x in b.rows && y in b.rows && b.rows[x].key == b.rows[y].key ensures x == y {
      assert Live(b, x) && Live(b, y);
      assert b.keys[x] == b.keys[y];
    }
  }

  /** Under any interleaving: messages leave in order of issue without repeats, each idempotency
      key has one row, and a row has an acknowledgement time exactly when it was answered. */
  lemma MessagesInOrder(steps: seq<Step>, bs: seq<Bus>, n: nat)
    requires IsRun(steps, bs) && n <= |steps|
    ensures InIssueOrder(bs[n]) && OneRowPerKey(bs[n])
    ensures forall id :: id in bs[n].rows ==> RowOk(bs[n].rows[id])
  {
    AlwaysInv(steps, bs, n);
    QueuesInOrder(bs[n]);
    KeysMakeOneRow(bs[n]);
  }

  predicate IsMessage(b: Bus, id: CommandId) { id in b.published || id in b.outbox }

  lemma MessageKnown(b: Bus, id: CommandId)
    requires Inv(b) && IsMessage(b, id)
    ensures id < |b.keys|
  {
    assert id in b.published + b.outbox;
  }

  /** Two messages carry one idempotency key only when the issue of the earlier one was rolled
      back: its command is in no table. */
  lemma OneMessagePerKey(steps: seq<Step>, bs: seq<Bus>, n: nat, x: CommandId, y: CommandId)
    requires IsRun(steps, bs) && n <= |steps| && IsMessage(bs[n], x) && IsMessage(bs[n], y) && x < y
    ensures y < |bs[n].keys|
    ensures bs[n].keys[x] == bs[n].keys[y] ==> x !in bs[n].rows && x !in bs[n].open
  {
    AlwaysInv(steps, bs, n);
    MessageKnown(bs[n], y);
    assert bs[n].keys[x] == bs[n].keys[y] ==> !Live(bs[n], x);
  }

  lemma LiveStep(b: Bus, s: Step, b': Bus, id: CommandId)
    requires Inv(b) && Follows(b, s, b') && !s.AbortIssue? && (id < |b.keys| ==> Live(b, id))
    ensures id < |b'.keys| ==> Live(b', id)
  {
  }

  lemma {:induction false} AllLiveWithoutAborts(steps: seq<Step>, bs: seq<Bus>, n: nat, id: CommandId)
    requires IsRun(steps, bs) && n <= |steps| && forall i :: 0 <= i < |steps| ==> !steps[i].AbortIssue?
    ensures id < |bs[n].keys| ==> Live(bs[n], id)
  {
    if n > 0 {
      AllLiveWithoutAborts(steps, bs, n - 1, id);
      AlwaysInv(steps, bs, n - 1);
      assert Follows(bs[n - 1], steps[n - 1], bs[n - 1 + 1]);
      LiveStep(bs[n - 1], steps[n - 1], bs[n], id);
    }
  }

  /** So without rolled-back issues there is at most one message per key, ever. */
  lemma OneMessagePerKeyWithoutAborts(steps: seq<Step>, bs: seq<Bus>, n: nat, x: CommandId, y: CommandId)
    requires IsRun(steps, bs) && n <= |steps| && forall i :: 0 <= i < |steps| ==> !steps[i].AbortIssue?
    requires IsMessage(bs[n], x) && IsMessage(bs[n], y) && x < y
    ensures y < |bs[n].keys| && bs[n].keys[x] != bs[n].keys[y]
  {
    OneMessagePerKey(steps, bs, n, x, y);
    AllLiveWithoutAborts(steps, bs, n, x);
  }

  /** A key already used is pushed a second time exactly when its commands were all rolled back, in
      every reachable state and for every later request. */
  lemma KeyRepeatsIff(steps: seq<Step>, bs: seq<Bus>, n: nat, x: CommandId, gate: Gate, command: string, now: int)
    requires IsRun(steps, bs) && n <= |steps| && x < |bs[n].keys|
    ensures var b := bs[n];
            var next := Next(b, Issue(gate, true, command, true, b.keys[x], now)).0;
            next.keys == b.keys + [b.keys[x]] <==> AllRolledBack(b, b.keys[x])
  {
    AlwaysInv(steps, bs, n);
    IssuePushesIff(bs[n], gate, command, bs[n].keys[x], now);
  }

  // ----------------------------------------------------------------- what becomes of a row

  lemma {:induction false} NeverBackToSent(steps: seq<Step>, bs: seq<Bus>, n: nat, m: nat, id: CommandId)
    requires IsRun(steps, bs) && n <= m <= |steps| && id in bs[n].rows
    ensures id in bs[m].rows && Advances(bs[n].rows[id], bs[m].rows[id])
    decreases m
  {
    if n < m {
      NeverBackToSent(steps, bs, n, m - 1, id);
      assert Inv(bs[m - 1]) by {
        AlwaysInv(steps, bs, m - 1);
      }
      assert Follows(bs[m - 1], steps[m - 1], bs[m - 1 + 1]);
      FollowsAdvances(bs[m - 1], steps[m - 1], bs[m], id);
    }
  }

  lemma FollowsAdvances(b: Bus, s: Step, b': Bus, id: CommandId)
    requires Inv(b) && Follows(b, s, b') && id in b.rows
    ensures id in b'.rows && Advances(b.rows[id], b'.rows[id])
  {
    RowAdvances(b, s, id);
  }

  /** The step at which the command's transaction commits. */
  predicate CommitAt(steps: seq<Step>, bs: seq<Bus>, i: nat, id: CommandId)
    requires |bs| == |steps| + 1
  {
    i < |steps| && steps[i] == CommitIssue(id) && id in bs[i].open
  }

  lemma RowAppears(b: Bus, s: Step, b': Bus, id: CommandId)
    requires Inv(b) && Follows(b, s, b') && id !in b.rows
    ensures id in b'.rows <==> s == CommitIssue(id) && id in b.open
    ensures id in b'.rows ==> b'.rows[id].status == Sent && b'.rows[id].ackedAt.None?
  {
  }

  /** A row is visible exactly when its transaction committed before. */
  lemma {:induction false} CommittedIff(steps: seq<Step>, bs: seq<Bus>, n: nat, id: CommandId)
    requires IsRun(steps, bs) && n <= |steps|
    ensures id in bs[n].rows <==> Committed(steps, bs, n, id)
  {
    if n > 0 {
      CommittedIff(steps, bs, n - 1, id);
      RowStays(steps, bs, n - 1, id);
      CommittedStep(steps, bs, n - 1, id);
    }
  }

  /** Some step before the n-th committed the command. */
  ghost predicate Committed(steps: seq<Step>, bs: seq<Bus>, n: nat, id: CommandId)
    requires |bs| == |steps| + 1
  {
    exists c :: 0 <= c < n && CommitAt(steps, bs, c, id)
  }

  lemma CommittedStep(steps: seq<Step>, bs: seq<Bus>, n: nat, id: CommandId)
    requires |bs| == |steps| + 1 && n < |steps|
    ensures Committed(steps, bs, n + 1, id) <==> Committed(steps, bs, n, id) || CommitAt(steps, bs, n, id)
  {
    if CommitAt(steps, bs, n, id) {
      assert 0 <= n < n + 1;
    }
  }

  lemma RowStays(steps: seq<Step>, bs: seq<Bus>, n: nat, id: CommandId)
    requires IsRun(steps, bs) && n < |steps|
    ensures id in bs[n + 1].rows <==> id in bs[n].rows || CommitAt(steps, bs, n, id)
  {
    AlwaysInv(steps, bs, n);
    assert Follows(bs[n], steps[n], bs[n + 1]);
    if id in bs[n].rows {
      FollowsAdvances(bs[n], steps[n], bs[n + 1], id);
    } else {
      RowAppears(bs[n], steps[n], bs[n + 1], id);
    }
  }

  /** An acknowledgement that finds the row. */
  predicate AckAt(steps: seq<Step>, bs: seq<Bus>, i: nat, id: CommandId)
    requires |bs| == |steps| + 1
  {
    i < |steps| && steps[i].Ack? && steps[i].id == id && id in bs[i].rows
  }

  /** A sweep that finds the row and is past the deadline. */
  predicate SweepAt(steps: seq<Step>, bs: seq<Bus>, i: nat, id: CommandId, deadline: int)
    requires |bs| == |steps| + 1
  {
    i < |steps| && steps[i].Sweep? && steps[i].now > deadline && id in bs[i].rows
  }

  /** The last acknowledgement, among the first n steps, that finds the row. */
  function LastAck(steps: seq<Step>, bs: seq<Bus>, n: nat, id: CommandId): (r: Option<nat>)
    requires |bs| == |steps| + 1 && n <= |steps|
    ensures r.Some? ==> r.value < n && AckAt(steps, bs, r.value, id)
    ensures r.Some? ==> forall i :: r.value < i < n ==> !AckAt(steps, bs, i, id)
    ensures r.None? ==> forall i :: 0 <= i < n ==> !AckAt(steps, bs, i, id)
  {
    if n == 0 then None
    else if AckAt(steps, bs, n - 1, id) then Some(n - 1) else LastAck(steps, bs, n - 1, id)
  }

  ghost predicate SweptPast(steps: seq<Step>, bs: seq<Bus>, n: nat, id: CommandId, deadline: int)
    requires |bs| == |steps| + 1
  {
    exists i :: 0 <= i < n && SweepAt(steps, bs, i, id, deadline)
  }

  /** Answered as the last acknowledgement said, or else timed out by a sweep, or else still sent. */
  ghost predicate Decided(steps: seq<Step>, bs: seq<Bus>, n: nat, id: CommandId, r: Row)
    requires |bs| == |steps| + 1 && n <= |steps|
  {
    match LastAck(steps, bs, n, id)
    case Some(i) =>
      r.ackedAt == Some(steps[i].now) && r.status == if steps[i].success then Acknowledged else Failed
    case None =>
      r.ackedAt.None? && r.status == if SweptPast(steps, bs, n, id, r.timeoutAt) then TimedOut else Sent
  }

  /** What one step does to a row that is there. */
  function RowAfter(r: Row, s: Step, id: CommandId): Row {
    if s.Ack? && s.id == id then Acked(r, s.success, s.now)
    else if s.Sweep? && Overdue(r, s.now) then r.(status := TimedOut)
    else r
  }

  lemma RowStep(b: Bus, s: Step, b': Bus, id: CommandId)
    requires Inv(b) && Follows(b, s, b') && id in b.rows
    ensures id in b'.rows && b'.rows[id] == RowAfter(b.rows[id], s, id)
  {
  }

  lemma SweptPastStep(steps: seq<Step>, bs: seq<Bus>, n: nat, id: CommandId, deadline: int)
    requires |bs| == |steps| + 1 && n < |steps|
    ensures SweptPast(steps, bs, n + 1, id, deadline) <==>
            SweptPast(steps, bs, n, id, deadline) || SweepAt(steps, bs, n, id, deadline)
  {
  }

  lemma DecidedStep(steps: seq<Step>, bs: seq<Bus>, n: nat, id: CommandId)
    requires IsRun(steps, bs) && n < |steps| && Inv(bs[n])
    requires id in bs[n].rows && Decided(steps, bs, n, id, bs[n].rows[id])
    ensures id in bs[n + 1].rows && Decided(steps, bs, n + 1, id, bs[n + 1].rows[id])
  {
    assert Follows(bs[n], steps[n], bs[n + 1]);
    RowStep(bs[n], steps[n], bs[n + 1], id);
    SweptPastStep(steps, bs, n, id, bs[n].rows[id].timeoutAt);
  }

  lemma NothingBeforeCommit(steps: seq<Step>, bs: seq<Bus>, n: nat, id: CommandId, deadline: int)
    requires IsRun(steps, bs) && n <= |steps| && id !in bs[n].rows
    ensures forall i :: 0 <= i <= n ==> id !in bs[i].rows
    ensures LastAck(steps, bs, n, id).None? && !SweptPast(steps, bs, n, id, deadline)
  {
    forall i | 0 <= i <= n ensures id !in bs[i].rows {
      if id in bs[i].rows {
        NeverBackToSent(steps, bs, i, n, id);
      }
    }
  }

  lemma DecidedAtCommit(steps: seq<Step>, bs: seq<Bus>, n: nat, id: CommandId)
    requires IsRun(steps, bs) && n < |steps| && Inv(bs[n]) && id !in bs[n].rows && id in bs[n + 1].rows
    ensures Decided(steps, bs, n + 1, id, bs[n + 1].rows[id])
  {
    assert Follows(bs[n], steps[n], bs[n + 1]);
    RowAppears(bs[n], steps[n], bs[n + 1], id);
    NothingBeforeCommit(steps, bs, n, id, bs[n + 1].rows[id].timeoutAt);
    SweptPastStep(steps, bs, n, id, bs[n + 1].rows[id].timeoutAt);
  }

  /** In every interleaving, a committed command is answered exactly as its last acknowledgement after
      the commit said; without one it is timed out exactly when a sweep after the commit passed its
      deadline, and still sent otherwise. */
  lemma {:induction false} FinalStatus(steps: seq<Step>, bs: seq<Bus>, n: nat, id: CommandId)
    requires IsRun(steps, bs) && n <= |steps| && id in bs[n].rows
    ensures Decided(steps, bs, n, id, bs[n].rows[id])
  {
    if n > 0 {
      AlwaysInv(steps, bs, n - 1);
      if id in bs[n - 1].rows {
        FinalStatus(steps, bs, n - 1, id);
        DecidedStep(steps, bs, n - 1, id);
      } else {
        DecidedAtCommit(steps, bs, n - 1, id);
      }
    }
  }

  /** So a committed command counts as answered exactly when some acknowledgement of it came after its
      transaction committed; earlier ones are lost. */
  lemma AnsweredIff(steps: seq<Step>, bs: seq<Bus>, n: nat, id: CommandId)
    requires IsRun(steps, bs) && n <= |steps| && id in bs[n].rows
    ensures bs[n].rows[id].ackedAt.Some? <==>
            exists c, i :: 0 <= c < i < n && CommitAt(steps, bs, c, id) && steps[i].Ack? && steps[i].id == id
  {
    FinalStatus(steps, bs, n, id);
    forall i | 0 <= i < n
      ensures AckAt(steps, bs, i, id) <==>
              steps[i].Ack? && steps[i].id == id && Committed(steps, bs, i, id)
    {
      CommittedIff(steps, bs, i, id);
    }
  }
}
