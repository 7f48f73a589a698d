/** Anti-passback (backend/app/services/event_service.py): what "cannot repeat inside the window"
    amounts to, when the check is off, and what it guarantees over whole runs of records. */
module AntiPassback {
  import opened Prelude
  import opened AccessRecording

  // ------------------------------------------------------------ which event is looked at

  /** Event j is newer than event i; of two at one instant the later row counts as newer. */
  predicate Newer(events: seq<Event>, j: nat, i: nat)
    requires i < |events| && j < |events|
  {
    events[j].occurredAt > events[i].occurredAt || (events[j].occurredAt == events[i].occurredAt && j > i)
  }

  ghost predicate IsLatest(events: seq<Event>, tenant: Tenant, plate: string, k: nat) {
    && k < |events| && SamePlate(events[k], tenant, plate)
    && LatestEvent(events, tenant, plate) == Some(events[k])
    && forall j :: 0 <= j < |events| && SamePlate(events[j], tenant, plate) ==> !Newer(events, j, k)
  }

  lemma {:induction false} LatestIndex(events: seq<Event>, tenant: Tenant, plate: string) returns (k: nat)
    requires LatestEvent(events, tenant, plate).Some?
    ensures IsLatest(events, tenant, plate, k)
  {
    var n := |events| - 1;
    var before := LatestEvent(events[..n], tenant, plate);
    if LatestEvent(events, tenant, plate) == before {
      k := LatestIndex(events[..n], tenant, plate);
      if SamePlate(events[n], tenant, plate) && events[n].occurredAt >= events[k].occurredAt {
        k := n;
      }
    } else {
      k := n;
    }
  }

  // --------------------------------------------------- one call: what it refuses and misses

  /** The same vehicle, however its plate was spelled when it was recorded. */
  predicate SameVehicle(e: Event, tenant: Tenant, plate: string) {
    e.tenant == tenant && e.plate.Some? && Normalize(e.plate.value) == Normalize(plate)
  }

  /** An allowed event of the vehicle in the requested direction inside the window. */
  predicate Recent(db: Db, rq: Request, plate: string, i: nat) {
    && i < |db.events| && SameVehicle(db.events[i], rq.tenant, plate)
    && db.events[i].verdict.decision == Allow && db.events[i].direction == rq.direction
    && rq.now - db.events[i].occurredAt < Window(rq) * MINUTE
  }

  /** The window of the request's tenant, in minutes. */
  function Window(rq: Request): int { OrDefault(rq.settings.passbackMinutes, 5) }

  /** A newer event under a compared spelling was refused or went another way. */
  ghost predicate Masked(db: Db, rq: Request, plate: string, i: nat)
    requires i < |db.events|
  {
    exists j :: 0 <= j < |db.events| && Newer(db.events, j, i) && SamePlate(db.events[j], rq.tenant, plate) &&
                (db.events[j].verdict.decision == Deny || db.events[j].direction != rq.direction)
  }

  /** Event i escapes the check: stored under another spelling than the two compared, or masked. */
  ghost predicate Unnoticed(db: Db, rq: Request, plate: string, i: nat)
    requires i < |db.events|
  {
    || (db.events[i].plate != Some(plate) && db.events[i].plate != Some(Normalize(plate)))
    || Masked(db, rq, plate, i)
  }

  lemma SpellingsName(e: Event, tenant: Tenant, plate: string)
    requires SamePlate(e, tenant, plate)
    ensures SameVehicle(e, tenant, plate)
  {
    NormalizeIdempotent(plate);
  }

  lemma NoticedMeansRepeat(db: Db, rq: Request, plate: string, i: nat, k: nat)
    requires IsLatest(db.events, rq.tenant, plate, k)
    requires Recent(db, rq, plate, i) && !Unnoticed(db, rq, plate, i)
    ensures Repeats(db.events[k], rq)
  {
    if k != i {
      assert !Newer(db.events, i, k);
      assert Newer(db.events, k, i);
    }
  }

  lemma LatestRepeatIsNoticed(db: Db, rq: Request, plate: string, k: nat)
    requires IsLatest(db.events, rq.tenant, plate, k) && Repeats(db.events[k], rq)
    ensures Recent(db, rq, plate, k) && !Unnoticed(db, rq, plate, k)
  {
    SpellingsName(db.events[k], rq.tenant, plate);
  }

  /** The promise is to refuse whenever the vehicle has a recent allowed event in this direction.
      What is kept of it: a call refuses if and only if one of these was stored under a compared
      spelling and nothing under a compared spelling refused or turned the vehicle since. */
  lemma PassbackHoldsIff(db: Db, rq: Request, plate: string, v: Verdict)
    requires PassbackApplies(rq, plate, v)
    ensures Final(db, rq, plate, v) == Verdict(Deny, "anti_passback") <==>
              exists i :: Recent(db, rq, plate, i) && !Unnoticed(db, rq, plate, i)
    ensures Final(db, rq, plate, v) == v <==>
              forall i :: Recent(db, rq, plate, i) ==> Unnoticed(db, rq, plate, i)
  {
    if LatestEvent(db.events, rq.tenant, plate).Some? {
      var k := LatestIndex(db.events, rq.tenant, plate);
      if Repeats(db.events[k], rq) {
        LatestRepeatIsNoticed(db, rq, plate, k);
      }
      forall i | Recent(db, rq, plate, i) && !Unnoticed(db, rq, plate, i) ensures Repeats(db.events[k], rq) {
        NoticedMeansRepeat(db, rq, plate, i, k);
      }
    }
  }

  /** With nothing stored under a compared spelling the check lets everything through. */
  lemma OtherSpellingIsMissed(db: Db, rq: Request, plate: string, v: Verdict)
    requires PassbackApplies(rq, plate, v)
    requires forall i :: 0 <= i < |db.events| ==> !SamePlate(db.events[i], rq.tenant, plate)
    ensures Final(db, rq, plate, v) == v
  {
    PassbackHoldsIff(db, rq, plate, v);
  }

  // ------------------------------------------------------------------- refusals as events

  /** The verdict anti-passback is applied to: the first matching rule's, or the list's and
      payment's. */
  function Candidate(db: Db, rq: Request, plate: string): Verdict {
    match FirstRule(rq.rules, rq, plate)
    case None => WithPayment(db, rq, plate, BaseVerdict(rq))
    case Some(rule) => Verdict(if rule.kind == DenyList then Deny else Allow, "rule:" + rule.name)
  }

  lemma RefusedByPassback(db: Db, rq: Request)
    requires DecideAccess(db, rq) == Verdict(Deny, "anti_passback")
    ensures rq.plate.Some? && rq.plate.value != ""
    ensures PassbackApplies(rq, rq.plate.value, Candidate(db, rq, rq.plate.value))
  {
    var rule := FirstRule(rq.rules, rq, rq.plate.value);
    if rule.Some? {
      assert ("rule:" + rule.value.name)[0] != "anti_passback"[0];
    }
  }

  lemma DecisionIsFinal(db: Db, rq: Request)
    requires rq.plate.Some? && rq.plate.value != "" && Candidate(db, rq, rq.plate.value).decision == Allow
    ensures DecideAccess(db, rq) == Final(db, rq, rq.plate.value, Candidate(db, rq, rq.plate.value))
  {
  }

  lemma LatestSnoc(events: seq<Event>, e: Event, tenant: Tenant, plate: string)
    requires SamePlate(e, tenant, plate)
    requires forall i :: 0 <= i < |events| ==> events[i].occurredAt <= e.occurredAt
    ensures LatestEvent(events + [e], tenant, plate) == Some(e)
  {
    assert (events + [e])[..|events|] == events;
  }

  /** The event is dated with the clock of the call, as every caller does. */
  predicate AtClock(rq: Request) { rq.occurredAt.None? || rq.occurredAt == Some(rq.now) }

  /** Whenever anti-passback refuses a vehicle, the refusal is itself recorded as the newest event,
      and the same vehicle asking again at the same moment is let through. */
  lemma RefusedAttemptResetsPassback(db: Db, rq: Request)
    requires rq.force.None? && AtClock(rq)
    requires forall i :: 0 <= i < |db.events| ==> db.events[i].occurredAt <= rq.now
    requires DecideAccess(db, rq) == Verdict(Deny, "anti_passback")
    ensures DecideAccess(Record(db, rq).0, rq).decision == Allow
  {
    RefusedByPassback(db, rq);
    var plate, e, next := rq.plate.value, Record(db, rq).1, Record(db, rq).0;
    assert e == EventFor(rq, Verdict(Deny, "anti_passback"));
    assert next.events == db.events + [e] && next.payments == db.payments;
    LatestSnoc(db.events, e, rq.tenant, plate);
    assert Candidate(next, rq, plate) == Candidate(db, rq, plate);
    DecisionIsFinal(next, rq);
  }

  /** The check is on for this request. */
  predicate Guarded(rq: Request) {
    && rq.force.None? && rq.plate.Some? && Normalize(rq.plate.value) != "" && rq.direction != Other
    && rq.settings.passbackEnabled && Window(rq) > 0
  }

  /** A vehicle let through under one spelling and asking again at once under another: whenever the
      second spelling is not yet in the history, and is neither the first nor its normal form, it
      is let through again although it was just allowed. */
  lemma TwoSpellingsBothPass(db: Db, first: Request, spelling: string)
    requires Guarded(first) && AtClock(first) && Record(db, first).1.verdict.decision == Allow
    requires Normalize(first.plate.value) == Normalize(spelling)
    requires first.plate.value != spelling && first.plate.value != Normalize(spelling)
    requires forall i :: 0 <= i < |db.events| ==> !SamePlate(db.events[i], first.tenant, spelling)
    requires Candidate(Record(db, first).0, first.(plate := Some(spelling)), spelling).decision == Allow
    ensures var next, second := Record(db, first).0, first.(plate := Some(spelling));
            && Guarded(second) && Recent(next, second, spelling, |db.events|)
            && Record(next, second).1.verdict.decision == Allow
  {
    var next, second := Record(db, first).0, first.(plate := Some(spelling));
    assert next.events == db.events + [Record(db, first).1];
    assert spelling != "";
    DecisionIsFinal(next, second);
    OtherSpellingIsMissed(next, second, spelling, Candidate(next, second, spelling));
  }

  /** Such spellings exist. */
  lemma SpellingsOfOnePlate()
    ensures Normalize("A-1") == Normalize("A 1") == "A1"
    ensures "A-1" != "A 1" && "A-1" != "A1"
  {
    assert Normalize("1") == "1" && Normalize("-1") == "1" && Normalize(" 1") == "1";
  }

  // --------------------------------------------------------------- when the check is off

  function Reset(rq: Request, minutes: Setting): Request {
    rq.(settings := rq.settings.(passbackMinutes := minutes))
  }

  lemma {:induction false} PaymentIgnoresWindow(ps: seq<Payment>, rq: Request, minutes: Setting, plate: string)
    ensures PaidExit(ps, Reset(rq, minutes), plate) == PaidExit(ps, rq, plate)
  {
    if ps != [] {
      PaymentIgnoresWindow(ps[..|ps| - 1], rq, minutes, plate);
    }
  }

  lemma {:induction false} RulesIgnoreWindow(rules: seq<Rule>, rq: Request, minutes: Setting, plate: string)
    ensures FirstRule(rules, Reset(rq, minutes), plate) == FirstRule(rules, rq, plate)
  {
    if rules != [] {
      RulesIgnoreWindow(rules[1..], rq, minutes, plate);
    }
  }

  lemma FinalByWindow(db: Db, rq: Request, minutes: Setting, plate: string, v: Verdict)
    requires OrDefault(minutes, DEFAULT_PASSBACK) == OrDefault(rq.settings.passbackMinutes, DEFAULT_PASSBACK)
    ensures Final(db, Reset(rq, minutes), plate, v) == Final(db, rq, plate, v)
  {
  }

  /** Only the whole number a setting stands for matters, for every decision. */
  lemma WindowDecides(db: Db, rq: Request, minutes: Setting)
    requires OrDefault(minutes, DEFAULT_PASSBACK) == OrDefault(rq.settings.passbackMinutes, DEFAULT_PASSBACK)
    ensures DecideAccess(db, Reset(rq, minutes)) == DecideAccess(db, rq)
  {
    if rq.plate.Some? && rq.plate.value != "" {
      var plate := rq.plate.value;
      PaymentIgnoresWindow(db.payments, rq, minutes, Normalize(plate));
      RulesIgnoreWindow(rq.rules, rq, minutes, plate);
      var base := WithPayment(db, rq, plate, BaseVerdict(rq));
      assert WithPayment(db, Reset(rq, minutes), plate, BaseVerdict(Reset(rq, minutes))) == base;
      FinalByWindow(db, rq, minutes, plate, base);
      var rule := FirstRule(rq.rules, rq, plate);
      if rule.Some? {
        FinalByWindow(db, rq, minutes, plate, Verdict(Allow, "rule:" + rule.value.name));
      }
    }
  }

  /** A fraction is cut toward zero. */
  lemma FractionIsCut(r: real)
    requires r != 0.0
    ensures var n := OrDefault(Fractional(r), 5);
      && (r > 0.0 ==> 0 <= n && n as real <= r < n as real + 1.0)
      && (r < 0.0 ==> n <= 0 && n as real - 1.0 < r <= n as real)
  {
  }

  /** A configured window of zero does not switch the check off: every decision is the one a window
      of five minutes gives. */
  lemma ZeroWindowIsFive(db: Db, rq: Request)
    requires rq.settings.passbackMinutes == Whole(0) || rq.settings.passbackMinutes == Fractional(0.0)
    ensures DecideAccess(db, rq) == DecideAccess(db, Reset(rq, Whole(5)))
  {
    WindowDecides(db, rq, Whole(5));
  }

  /** What does: the switch, a negative number, a fraction below one other than zero, or a text that
      reads as zero or less. */
  predicate SwitchesOff(st: Settings) {
    || !st.passbackEnabled
    || match st.passbackMinutes
       case Whole(n) => n < 0
       case Fractional(r) => r < 1.0 && r != 0.0
       case Text(parsed) => parsed.Some? && parsed.value <= 0
       case _ => false
  }

  ghost predicate NeverRefuses(st: Settings) {
    forall db: Db, rq: Request :: rq.settings == st ==> DecideAccess(db, rq) != Verdict(Deny, "anti_passback")
  }

  lemma OffMeansNoWindow(st: Settings)
    ensures SwitchesOff(st) <==> !st.passbackEnabled || OrDefault(st.passbackMinutes, DEFAULT_PASSBACK) <= 0
  {
  }

  lemma RefusesWhenOn(st: Settings)
    requires !SwitchesOff(st)
    ensures !NeverRefuses(st)
  {
    var car := Vehicle("resident", true, None, None);
    var rq := Request(0, None, Some("A1"), Entry, 0, None, None, "", Some(car), [], st);
    var db := Db([Event(0, None, Some("A1"), Entry, Verdict(Allow, "vehicle_registered"), 0)], [], map[]);
    OffMeansNoWindow(st);
    assert Normalize("1") == "1" && Normalize("A1") == "A1";
    LatestSnoc([], db.events[0], 0, "A1");
    assert [] + [db.events[0]] == db.events;
    assert DecideAccess(db, rq) == Verdict(Deny, "anti_passback");
  }

  /** No request under these settings is ever refused, exactly when one of these is the case. */
  lemma PassbackOffIff(st: Settings)
    ensures NeverRefuses(st) <==> SwitchesOff(st)
  {
    if SwitchesOff(st) {
      forall db: Db, rq: Request | rq.settings == st
        ensures DecideAccess(db, rq) != Verdict(Deny, "anti_passback")
      {
        OffMeansNoWindow(st);
        if DecideAccess(db, rq) == Verdict(Deny, "anti_passback") {
          RefusedByPassback(db, rq);
        }
      }
    } else {
      RefusesWhenOn(st);
    }
  }

  // ------------------------------------------------------------------------- whole runs

  /** Records are dated with their clock, and the clock never falls behind a recorded event. */
  ghost predicate Timely(db: Db, actions: seq<Action>) {
    if actions == [] then InOrder(db.events)
    else
      var before, a := actions[..|actions| - 1], actions[|actions| - 1];
      && Timely(db, before)
      && (a.RecordEvent? ==> AtClock(a.rq) && NotAfter(RunAll(db, before).events, a.rq.now))
  }

  ghost predicate InOrder(events: seq<Event>) {
    forall i, j :: 0 <= i < j < |events| ==> events[i].occurredAt <= events[j].occurredAt
  }

  ghost predicate NotAfter(events: seq<Event>, now: int) {
    forall i :: 0 <= i < |events| ==> events[i].occurredAt <= now
  }

  lemma {:induction false} TimelyInOrder(db: Db, actions: seq<Action>)
    requires Timely(db, actions)
    ensures InOrder(RunAll(db, actions).events)
  {
    if actions != [] {
      TimelyInOrder(db, actions[..|actions| - 1]);
    }
  }

  lemma ActAppends(db: Db, a: Action)
    ensures Act(db, a).events == db.events + if a.RecordEvent? then [Record(db, a.rq).1] else []
  {
  }

  /** Recorded events stay where they are for the rest of the run. */
  lemma {:induction false} EventsStay(db: Db, actions: seq<Action>, n: nat)
    requires n <= |actions|
    ensures RunAll(db, actions[..n]).events <= RunAll(db, actions).events
    decreases |actions|
  {
    if n == |actions| {
      assert actions[..n] == actions;
    } else {
      var before := actions[..|actions| - 1];
      EventsStay(db, before, n);
      assert before[..n] == actions[..n];
      ActAppends(RunAll(db, before), actions[|actions| - 1]);
    }
  }

  lemma {:induction false} TimelyPrefix(db: Db, actions: seq<Action>, n: nat)
    requires n <= |actions| && Timely(db, actions)
    ensures Timely(db, actions[..n])
    ensures n < |actions| && actions[n].RecordEvent? ==> AtClock(actions[n].rq)
    decreases |actions|
  {
    if n == |actions| {
      assert actions[..n] == actions;
    } else {
      TimelyPrefix(db, actions[..|actions| - 1], n);
      assert actions[..|actions| - 1][..n] == actions[..n];
    }
  }

  lemma AllowedMeansMasked(db: Db, rq: Request, i: nat)
    requires Guarded(rq) && Record(db, rq).1.verdict.decision == Allow && InOrder(db.events)
    requires i < |db.events| && SamePlate(db.events[i], rq.tenant, rq.plate.value) && Repeats(db.events[i], rq)
    ensures TurnedBack(db.events, rq, i, |db.events|)
  {
    var plate := rq.plate.value;
    var v := Candidate(db, rq, plate);
    DecisionIsFinal(db, rq);
    PassbackHoldsIff(db, rq, plate, v);
    SpellingsName(db.events[i], rq.tenant, plate);
    assert Recent(db, rq, plate, i);
    assert Masked(db, rq, plate, i);
  }

  /** Between events i and j the vehicle was refused, or recorded in another direction. */
  ghost predicate TurnedBack(events: seq<Event>, rq: Request, i: int, j: int)
    requires rq.plate.Some? && j <= |events|
  {
    exists k :: 0 <= i < k < j && SamePlate(events[k], rq.tenant, rq.plate.value) &&
                (events[k].verdict.decision == Deny || events[k].direction != rq.direction)
  }

  /** Over every timely run: when an unforced record lets a vehicle through, each earlier allowed
      event of it under a compared spelling, in the same direction and inside the window, is
      followed by a refusal of that vehicle or by an event in another direction. */
  lemma RepeatsAreSeparated(db: Db, actions: seq<Action>, n: nat, i: nat)
    requires Timely(db, actions) && n < |actions| && actions[n].RecordEvent? && Guarded(actions[n].rq)
    requires var before, rq := RunAll(db, actions[..n]), actions[n].rq;
      && Record(before, rq).1.verdict.decision == Allow
      && i < |before.events| && SamePlate(before.events[i], rq.tenant, rq.plate.value)
      && Repeats(before.events[i], rq)
    ensures var before, rq, all := RunAll(db, actions[..n]), actions[n].rq, RunAll(db, actions).events;
      && before.events + [Record(before, rq).1] <= all
      && TurnedBack(all, rq, i, |before.events|)
  {
    var before, rq, all := RunAll(db, actions[..n]), actions[n].rq, RunAll(db, actions).events;
    TimelyPrefix(db, actions, n);
    TimelyInOrder(db, actions[..n]);
    AllowedMeansMasked(before, rq, i);
    EventsStay(db, actions, n + 1);
    assert actions[..n + 1][..n] == actions[..n];
    ActAppends(before, actions[n]);
    assert forall k :: 0 <= k < |before.events| ==> all[k] == before.events[k];
  }
}
