/** Access decisions and their recording (backend/app/services/event_service.py): vehicle list,
    rules, pay-before-exit, anti-passback, the occupancy counter and the single-use stamp. Each
    call reads the clock once. */
module AccessRecording {
  import opened Prelude

  datatype Direction = Entry | Exit | Other

  datatype Decision = Allow | Deny

  datatype Verdict = Verdict(decision: Decision, reason: string)

  type Tenant = int
  type Site = int

  datatype Event = Event(
    tenant: Tenant, site: Option<Site>, plate: Option<string>, direction: Direction,
    verdict: Verdict, occurredAt: int)

  datatype Payment = Payment(
    tenant: Tenant, plate: string, site: Option<Site>, isSession: bool, isPaid: bool,
    paidAt: Option<int>, exitGrantedAt: Option<int>)

  datatype Vehicle = Vehicle(tag: string, active: bool, validFrom: Option<int>, validTo: Option<int>)

  datatype RuleKind = DenyList | AllowList | OtherKind

  /** An active rule; `open` is what its schedule says at the time of the call. */
  datatype Rule = Rule(name: string, kind: RuleKind, applies: seq<string>, open: bool)

  /** A tenant setting as stored in JSON. `Unset` is a missing, null, false or empty value; true is
      `Whole(1)`; a text comes with the integer it parses to, if it does; `Unreadable` is a list or
      an object. */
  datatype Setting = Unset | Whole(n: int) | Fractional(r: real) | Text(parsed: Option<int>) | Unreadable

  /** `passbackEnabled` is false only for a stored false. */
  datatype Settings = Settings(passbackEnabled: bool, passbackMinutes: Setting, graceMinutes: Setting)

  /** One call, with the tenant's rows it reads: the registered vehicle of the plate and the
      active rules in order of priority. */
  datatype Request = Request(
    tenant: Tenant, site: Option<Site>, plate: Option<string>, direction: Direction, now: int,
    occurredAt: Option<int>, force: Option<Decision>, forceReason: string,
    vehicle: Option<Vehicle>, rules: seq<Rule>, settings: Settings)

  datatype SiteRow = SiteRow(tenant: Tenant, capacity: int, occupancy: int)

  datatype Db = Db(events: seq<Event>, payments: seq<Payment>, sites: map<Site, SiteRow>)

  const MINUTE: int := 60_000_000
  const DEFAULT_PASSBACK: int := 5
  const DEFAULT_GRACE: int := 15
  const NO_LIMIT: int := 2_147_483_647

  /** Rounding toward zero. */
  function Truncated(r: real): int { if r >= 0.0 then r.Floor else -(-r).Floor }

  /** The whole number a setting stands for: zero counts as not set, unless it is a text. */
  function OrDefault(v: Setting, default: int): int {
    match v
    case Unset => default
    case Whole(n) => if n == 0 then default else n
    case Fractional(r) => if r == 0.0 then default else Truncated(r)
    case Text(parsed) => if parsed.None? then default else parsed.value
    case Unreadable => default
  }

  // -------------------------------------------------------------- pay before exit

  predicate Eligible(p: Payment, rq: Request, plate: string) {
    && p.tenant == rq.tenant && p.plate == plate && p.isSession && p.isPaid
    && p.exitGrantedAt.None?
    && p.paidAt.Some? && p.paidAt.value >= rq.now - OrDefault(rq.settings.graceMinutes, DEFAULT_GRACE) * MINUTE
    && (rq.site.Some? ==> p.site == rq.site)
  }

  /** The newest eligible payment. */
  function PaidExit(payments: seq<Payment>, rq: Request, plate: string): (r: Option<nat>)
    ensures r.None? ==> forall i :: 0 <= i < |payments| ==> !Eligible(payments[i], rq, plate)
    ensures r.Some? ==> r.value < |payments| && Eligible(payments[r.value], rq, plate)
    ensures r.Some? ==> forall i :: 0 <= i < |payments| && Eligible(payments[i], rq, plate) ==>
                                    payments[i].paidAt.value <= payments[r.value].paidAt.value
  {
    if payments == [] then None
    else
      var n := |payments| - 1;
      var best := PaidExit(payments[..n], rq, plate);
      if Eligible(payments[n], rq, plate) &&
         (best.None? || payments[n].paidAt.value > payments[best.value].paidAt.value)
      then Some(n) else best
  }

  // ----------------------------------------------------------------- anti-passback

  predicate SamePlate(e: Event, tenant: Tenant, plate: string) {
    e.tenant == tenant && (e.plate == Some(plate) || e.plate == Some(Normalize(plate)))
  }

  /** The newest event of the plate, whatever was decided. */
  function LatestEvent(events: seq<Event>, tenant: Tenant, plate: string): (r: Option<Event>)
    ensures r.None? ==> forall i :: 0 <= i < |events| ==> !SamePlate(events[i], tenant, plate)
    ensures r.Some? ==> r.value in events && SamePlate(r.value, tenant, plate)
    ensures r.Some? ==> forall i :: 0 <= i < |events| && SamePlate(events[i], tenant, plate) ==>
                                    events[i].occurredAt <= r.value.occurredAt
  {
    if events == [] then None
    else
      var n := |events| - 1;
      var best := LatestEvent(events[..n], tenant, plate);
      if SamePlate(events[n], tenant, plate) && (best.None? || events[n].occurredAt >= best.value.occurredAt)
      then Some(events[n]) else best
  }

  predicate Repeats(e: Event, rq: Request) {
    && e.verdict.decision == Allow && e.direction == rq.direction
    && rq.now - e.occurredAt < OrDefault(rq.settings.passbackMinutes, DEFAULT_PASSBACK) * MINUTE
  }

  predicate PassbackApplies(rq: Request, plate: string, v: Verdict) {
    && v.decision == Allow && rq.direction != Other && Normalize(plate) != ""
    && rq.settings.passbackEnabled && OrDefault(rq.settings.passbackMinutes, DEFAULT_PASSBACK) > 0
  }

  function Final(db: Db, rq: Request, plate: string, v: Verdict): Verdict {
    if !PassbackApplies(rq, plate, v) then v
    else
      var last := LatestEvent(db.events, rq.tenant, plate);
      if last.Some? && Repeats(last.value, rq) then Verdict(Deny, "anti_passback") else v
  }

  // -------------------------------------------------------------------- the decision

  function BaseVerdict(rq: Request): Verdict {
    match rq.vehicle
    case None => Verdict(Deny, "plate_not_registered")
    case Some(v) =>
      if v.tag == "blacklist" then Verdict(Deny, "vehicle_blacklisted")
      else if !v.active then Verdict(Deny, "vehicle_suspended")
      else if v.validFrom.Some? && v.validFrom.value > rq.now then Verdict(Deny, "vehicle_not_yet_valid")
      else if v.validTo.Some? && v.validTo.value < rq.now then Verdict(Deny, "vehicle_expired")
      else Verdict(Allow, "vehicle_registered")
  }

  function WithPayment(db: Db, rq: Request, plate: string, base: Verdict): Verdict {
    if && base.decision == Deny && rq.direction == Exit && rq.site.Some?
       && (rq.vehicle.None? || rq.vehicle.value.tag != "blacklist")
       && PaidExit(db.payments, rq, Normalize(plate)).Some?
    then Verdict(Allow, "paid_exit") else base
  }

  predicate RuleHits(rule: Rule, rq: Request, plate: string) {
    && rule.open && rule.kind != OtherKind
    && (rule.applies == [] ||
        (rq.vehicle.Some? && rq.vehicle.value.tag in rule.applies) ||
        exists p :: p in rule.applies && Normalize(p) == Normalize(plate))
  }

  /** The first rule that applies, is open and says yes or no. */
  function FirstRule(rules: seq<Rule>, rq: Request, plate: string): Option<Rule> {
    if rules == [] then None
    else if RuleHits(rules[0], rq, plate) then Some(rules[0])
    else FirstRule(rules[1..], rq, plate)
  }

  function DecideAccess(db: Db, rq: Request): Verdict {
    if rq.plate.None? || rq.plate.value == "" then Verdict(Deny, "no_plate_detected")
    else
      var plate := rq.plate.value;
      var base := WithPayment(db, rq, plate, BaseVerdict(rq));
      match FirstRule(rq.rules, rq, plate)
      case None => Final(db, rq, plate, base)
      case Some(rule) =>
        if rule.kind == DenyList then Verdict(Deny, "rule:" + rule.name)
        else Final(db, rq, plate, Verdict(Allow, "rule:" + rule.name))
  }

  // ------------------------------------------------------------------------ recording

  function Forced(rq: Request, v: Verdict): Verdict {
    if rq.force.None? then v
    else Verdict(rq.force.value, if rq.forceReason != "" then rq.forceReason else "manual_override")
  }

  function Delta(d: Direction): int {
    match d case Entry => 1 case Exit => -1 case Other => 0
  }

  function Ceiling(capacity: int): int { if capacity > 0 then capacity * 2 else NO_LIMIT }

  function Clamp(ceiling: int, x: int): int { Max(0, Min(ceiling, x)) }

  function Occupied(sites: map<Site, SiteRow>, rq: Request, v: Verdict): map<Site, SiteRow> {
    if && v.decision == Allow && Delta(rq.direction) != 0
       && rq.site.Some? && rq.site.value in sites && sites[rq.site.value].tenant == rq.tenant
    then
      var row := sites[rq.site.value];
      sites[rq.site.value := row.(occupancy := Clamp(Ceiling(row.capacity), row.occupancy + Delta(rq.direction)))]
    else sites
  }

  predicate Stamps(rq: Request, v: Verdict) {
    && v == Verdict(Allow, "paid_exit") && rq.direction == Exit
    && rq.plate.Some? && rq.plate.value != "" && rq.site.Some?
  }

  function Stamped(payments: seq<Payment>, rq: Request, v: Verdict): seq<Payment> {
    if !Stamps(rq, v) then payments
    else
      var hit := PaidExit(payments, rq, Normalize(rq.plate.value));
      if hit.None? then payments
      else payments[hit.value := payments[hit.value].(exitGrantedAt := Some(rq.now))]
  }

  function EventFor(rq: Request, v: Verdict): Event {
    Event(rq.tenant, rq.site, rq.plate, rq.direction, v,
          if rq.occurredAt.Some? then rq.occurredAt.value else rq.now)
  }

  /** Everything after the decision: append the event, move the counter, stamp the payment. */
  function Commit(db: Db, rq: Request, v: Verdict): Db {
    Db(db.events + [EventFor(rq, v)], Stamped(db.payments, rq, v), Occupied(db.sites, rq, v))
  }

  function Record(db: Db, rq: Request): (Db, Event) {
    var v := Forced(rq, DecideAccess(db, rq));
    (Commit(db, rq, v), EventFor(rq, v))
  }

  /** The tables the service writes, one call at a time. */
  class AccessLog {
    var events: seq<Event>
    var payments: seq<Payment>
    var sites: map<Site, SiteRow>

    ghost function State(): Db
      reads this
    {
      Db(events, payments, sites)
    }

    method RecordAccessEvent(rq: Request) returns (event: Event)
      modifies this
      ensures (State(), event) == Record(old(State()), rq)
    {
      var v := DecideAccess(Db(events, payments, sites), rq);
      if rq.force.Some? {
        v := Verdict(rq.force.value, if rq.forceReason != "" then rq.forceReason else "manual_override");
      }
      event := EventFor(rq, v);
      events := events + [event];
      MoveOccupancy(rq, v);
      StampPayment(rq, v);
    }

    method MoveOccupancy(rq: Request, v: Verdict)
      modifies this`sites
      ensures sites == Occupied(old(sites), rq, v)
    {
      if rq.site.Some? && v.decision == Allow {
        var delta := Delta(rq.direction);
        if delta != 0 && rq.site.value in sites && sites[rq.site.value].tenant == rq.tenant {
          var row := sites[rq.site.value];
          var limit := if row.capacity > 0 then row.capacity * 2 else NO_LIMIT;
          sites := sites[rq.site.value := row.(occupancy := Max(0, Min(limit, row.occupancy + delta)))];
        }
      }
    }

    method StampPayment(rq: Request, v: Verdict)
      modifies this`payments
      ensures payments == Stamped(old(payments), rq, v)
    {
      if v.reason == "paid_exit" && v.decision == Allow && rq.direction == Exit &&
         rq.plate.Some? && rq.plate.value != "" && rq.site.Some? {
        var hit := PaidExit(payments, rq, Normalize(rq.plate.value));
        if hit.Some? {
          payments := payments[hit.value := payments[hit.value].(exitGrantedAt := Some(rq.now))];
        }
      }
    }
  }

  // ------------------------------------------------------------- paid exits, one by one

  lemma RuleReasonDiffers(name: string)
    ensures "rule:" + name != "paid_exit"
  {
    assert ("rule:" + name)[0] != "paid_exit"[0];
  }

  /** A paid exit is only ever decided from an eligible payment. */
  lemma PaidExitHasPayment(db: Db, rq: Request)
    requires DecideAccess(db, rq) == Verdict(Allow, "paid_exit")
    ensures Stamps(rq, DecideAccess(db, rq))
    ensures PaidExit(db.payments, rq, Normalize(rq.plate.value)).Some?
  {
    var rule := FirstRule(rq.rules, rq, rq.plate.value);
    if rule.Some? {
      RuleReasonDiffers(rule.value.name);
    }
  }

  /** Index i was unstamped and eligible before, is stamped now, and nothing else changed. */
  ghost predicate ConsumesOne(before: seq<Payment>, after: seq<Payment>, rq: Request, i: nat) {
    && rq.plate.Some? && i < |before| == |after|
    && Eligible(before[i], rq, Normalize(rq.plate.value))
    && after == before[i := before[i].(exitGrantedAt := Some(rq.now))]
  }

  /** Every unforced exit recorded as paid uses up exactly one payment of that tenant, plate and
      site, unused until then and inside its grace window; every other unforced record leaves
      the payments alone. */
  lemma PaidExitConsumesOne(db: Db, rq: Request)
    requires rq.force.None?
    ensures Record(db, rq).1.verdict == Verdict(Allow, "paid_exit") ==>
              exists i :: ConsumesOne(db.payments, Record(db, rq).0.payments, rq, i)
    ensures Record(db, rq).1.verdict != Verdict(Allow, "paid_exit") ==> Record(db, rq).0.payments == db.payments
  {
    var v := DecideAccess(db, rq);
    if v == Verdict(Allow, "paid_exit") {
      PaidExitHasPayment(db, rq);
      var i := PaidExit(db.payments, rq, Normalize(rq.plate.value)).value;
      assert ConsumesOne(db.payments, Record(db, rq).0.payments, rq, i);
    }
  }

  /** When time passes between decision and record, the record uses up a payment exactly when an
      eligible one is still there. */
  lemma LateRecordConsumesIff(db: Db, rq: Request, v: Verdict)
    requires Stamps(rq, v)
    ensures (exists i :: ConsumesOne(db.payments, Commit(db, rq, v).payments, rq, i))
            <==> exists i :: 0 <= i < |db.payments| && Eligible(db.payments[i], rq, Normalize(rq.plate.value))
  {
    var hit := PaidExit(db.payments, rq, Normalize(rq.plate.value));
    if hit.Some? {
      assert ConsumesOne(db.payments, Commit(db, rq, v).payments, rq, hit.value);
    }
  }

  // --------------------------------------------------------------- paid exits over runs

  /** What happens between calls: a dry-run decision, a recorded event, or a new payment. */
  datatype Action = DecideOnly(rq: Request) | RecordEvent(rq: Request) | NewPayment(payment: Payment)

  function Act(db: Db, a: Action): Db {
    match a
    case DecideOnly(rq) => db
    case RecordEvent(rq) => Record(db, rq).0
    case NewPayment(p) => db.(payments := db.payments + [p.(exitGrantedAt := None)])
  }

  function RunAll(db: Db, actions: seq<Action>): Db {
    if actions == [] then db else Act(RunAll(db, actions[..|actions| - 1]), actions[|actions| - 1])
  }

  predicate IsPaidExit(db: Db, a: Action) {
    a.RecordEvent? && a.rq.force.None? && Record(db, a.rq).1.verdict == Verdict(Allow, "paid_exit")
  }

  /** How many unforced paid exits the run let out. */
  function PaidExits(db: Db, actions: seq<Action>): nat {
    if actions == [] then 0
    else
      var before := actions[..|actions| - 1];
      PaidExits(db, before) + if IsPaidExit(RunAll(db, before), actions[|actions| - 1]) then 1 else 0
  }

  function Used(payments: seq<Payment>): nat {
    if payments == [] then 0
    else Used(payments[..|payments| - 1]) + if payments[|payments| - 1].exitGrantedAt.Some? then 1 else 0
  }

  lemma {:induction false} UsedUpdate(ps: seq<Payment>, i: nat, p: Payment)
    requires i < |ps| && ps[i].exitGrantedAt.None? && p.exitGrantedAt.Some?
    ensures Used(ps[i := p]) == Used(ps) + 1
  {
    var n := |ps| - 1;
    if i == n {
      assert ps[i := p][..n] == ps[..n];
    } else {
      UsedUpdate(ps[..n], i, p);
      assert ps[i := p][..n] == ps[..n][i := p];
    }
  }

  lemma {:induction false} UsedBound(ps: seq<Payment>)
    ensures Used(ps) <= |ps|
  {
    if ps != [] {
      UsedBound(ps[..|ps| - 1]);
    }
  }

  lemma UsedStep(db: Db, a: Action)
    ensures Used(Act(db, a).payments) >= Used(db.payments) + if IsPaidExit(db, a) then 1 else 0
    ensures |Act(db, a).payments| >= |db.payments|
  {
    match a
    case DecideOnly(rq) =>
    case NewPayment(p) =>
      assert (db.payments + [p.(exitGrantedAt := None)])[..|db.payments|] == db.payments;
    case RecordEvent(rq) =>
      var v := Record(db, rq).1.verdict;
      if Stamps(rq, v) {
        var hit := PaidExit(db.payments, rq, Normalize(rq.plate.value));
        if hit.Some? {
          UsedUpdate(db.payments, hit.value, db.payments[hit.value].(exitGrantedAt := Some(rq.now)));
        }
      }
      if IsPaidExit(db, a) {
        PaidExitHasPayment(db, rq);
      }
  }

  /** Over every run of calls made one after another, paid exits never outnumber the payments
      used up, and so never the payments made; decisions alone use none. */
  lemma {:induction false} PaidExitsNeverOutnumberPayments(db: Db, actions: seq<Action>)
    ensures Used(db.payments) + PaidExits(db, actions) <= Used(RunAll(db, actions).payments)
    ensures PaidExits(db, actions) <= |RunAll(db, actions).payments|
  {
    if actions != [] {
      PaidExitsNeverOutnumberPayments(db, actions[..|actions| - 1]);
      UsedStep(RunAll(db, actions[..|actions| - 1]), actions[|actions| - 1]);
    }
    UsedBound(RunAll(db, actions).payments);
  }

  ghost predicate AtMostOneEligible(ps: seq<Payment>, rq: Request, plate: string) {
    forall i, j :: 0 <= i < j < |ps| ==> !(Eligible(ps[i], rq, plate) && Eligible(ps[j], rq, plate))
  }

  /** Two gates that both decide before either records: with one eligible payment between them both
      exits are recorded as paid, and the second stamps nothing and keeps its verdict. */
  lemma RacingExitsShareAPayment(db: Db, rq: Request)
    requires DecideAccess(db, rq) == Verdict(Allow, "paid_exit")
    requires AtMostOneEligible(db.payments, rq, Normalize(rq.plate.value))
    ensures var v := DecideAccess(db, rq);
            var one, two := Commit(db, rq, v), Commit(Commit(db, rq, v), rq, v);
            && two.events == db.events + [EventFor(rq, v), EventFor(rq, v)]
            && two.payments == one.payments && Used(one.payments) == Used(db.payments) + 1
  {
    var v := DecideAccess(db, rq);
    PaidExitHasPayment(db, rq);
    var plate := Normalize(rq.plate.value);
    var k := PaidExit(db.payments, rq, plate).value;
    var stamped := db.payments[k].(exitGrantedAt := Some(rq.now));
    UsedUpdate(db.payments, k, stamped);
    assert Commit(db, rq, v).payments == db.payments[k := stamped];
    assert PaidExit(db.payments[k := stamped], rq, plate).None?;
  }
}
