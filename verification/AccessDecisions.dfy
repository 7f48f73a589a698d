/** Who is let through (backend/app/services/event_service.py): the access decision stated as
    conditions on the vehicle, its payments, the tenant's rules and its recorded events. */
module AccessDecisions {
  import opened Prelude
  import opened AccessRecording
  import opened AntiPassback

  // --------------------------------------------------------------------- what may speak for it

  /** Registered, not blacklisted, active, and inside its validity. */
  predicate Admissible(rq: Request) {
    && rq.vehicle.Some?
    && var v := rq.vehicle.value;
       && v.tag != "blacklist" && v.active
       && (v.validFrom.None? || v.validFrom.value <= rq.now)
       && (v.validTo.None? || rq.now <= v.validTo.value)
  }

  predicate Blacklisted(rq: Request) { rq.vehicle.Some? && rq.vehicle.value.tag == "blacklist" }

  /** A paid session payment of this tenant, vehicle and site, unused and paid inside the grace. */
  predicate Covers(p: Payment, rq: Request)
    requires rq.plate.Some?
  {
    && p.tenant == rq.tenant && p.plate == Normalize(rq.plate.value) && rq.site.Some? && p.site == rq.site
    && p.isSession && p.isPaid && p.exitGrantedAt.None? && p.paidAt.Some?
    && rq.now - p.paidAt.value <= OrDefault(rq.settings.graceMinutes, 15) * MINUTE
  }

  /** An exit that is paid for and not of a blacklisted vehicle. */
  ghost predicate PaidFor(db: Db, rq: Request)
    requires rq.plate.Some?
  {
    && rq.direction == Exit && !Blacklisted(rq)
    && exists i :: 0 <= i < |db.payments| && Covers(db.payments[i], rq)
  }

  /** An open allow or deny rule for everybody, for the vehicle's tag or for its plate. */
  ghost predicate Speaks(rule: Rule, rq: Request)
    requires rq.plate.Some?
  {
    && rule.open && (rule.kind == AllowList || rule.kind == DenyList)
    && (|| |rule.applies| == 0
        || (exists i :: 0 <= i < |rule.applies| && rq.vehicle.Some? && rule.applies[i] == rq.vehicle.value.tag)
        || (exists i :: 0 <= i < |rule.applies| && Normalize(rule.applies[i]) == Normalize(rq.plate.value)))
  }

  /** Rule i speaks, and none before it. */
  ghost predicate FirstToSpeak(rq: Request, i: int)
    requires rq.plate.Some?
  {
    0 <= i < |rq.rules| && Speaks(rq.rules[i], rq) && forall j :: 0 <= j < i ==> !Speaks(rq.rules[j], rq)
  }

  ghost predicate NoneSpeaks(rq: Request)
    requires rq.plate.Some?
  {
    forall j :: 0 <= j < |rq.rules| ==> !Speaks(rq.rules[j], rq)
  }

  /** The vehicle repeats a recent allowed event that the check notices. */
  ghost predicate Repeating(db: Db, rq: Request)
    requires rq.plate.Some?
  {
    && rq.direction != Other && Normalize(rq.plate.value) != "" && rq.settings.passbackEnabled && Window(rq) > 0
    && exists i :: Recent(db, rq, rq.plate.value, i) && !Unnoticed(db, rq, rq.plate.value, i)
  }

  // -------------------------------------------------------------------------- rules in order

  lemma SpeaksIsHit(rule: Rule, rq: Request)
    requires rq.plate.Some?
    ensures Speaks(rule, rq) <==> RuleHits(rule, rq, rq.plate.value)
  {
    var plate := rq.plate.value;
    if exists p :: p in rule.applies && Normalize(p) == Normalize(plate) {
      var p :| p in rule.applies && Normalize(p) == Normalize(plate);
      var i :| 0 <= i < |rule.applies| && rule.applies[i] == p;
      assert Normalize(rule.applies[i]) == Normalize(plate);
    }
  }

  lemma {:induction false} FirstRuleFrom(rq: Request, n: nat)
    requires rq.plate.Some? && n <= |rq.rules| && forall j :: 0 <= j < n ==> !Speaks(rq.rules[j], rq)
    ensures var r := FirstRule(rq.rules[n..], rq, rq.plate.value);
      if r.Some? then exists i :: FirstToSpeak(rq, i) && rq.rules[i] == r.value else NoneSpeaks(rq)
    decreases |rq.rules| - n
  {
    if n < |rq.rules| {
      assert rq.rules[n..][0] == rq.rules[n] && rq.rules[n..][1..] == rq.rules[n + 1..];
      SpeaksIsHit(rq.rules[n], rq);
      if Speaks(rq.rules[n], rq) {
        assert FirstToSpeak(rq, n);
      } else {
        FirstRuleFrom(rq, n + 1);
      }
    }
  }

  /** The rule that decides is the speaking rule of smallest index. */
  lemma FirstRuleIsFirst(rq: Request)
    requires rq.plate.Some?
    ensures var r := FirstRule(rq.rules, rq, rq.plate.value);
      && (r.None? <==> NoneSpeaks(rq))
      && (forall i :: FirstToSpeak(rq, i) ==> r == Some(rq.rules[i]))
      && (r.Some? ==> exists i :: FirstToSpeak(rq, i))
  {
    assert rq.rules[0..] == rq.rules;
    FirstRuleFrom(rq, 0);
    var r := FirstRule(rq.rules, rq, rq.plate.value);
    if r.Some? {
      var i :| FirstToSpeak(rq, i) && rq.rules[i] == r.value;
      forall j | FirstToSpeak(rq, j) ensures j == i {
        OneFirst(rq, i, j);
      }
    }
  }

  lemma OneFirst(rq: Request, i: int, j: int)
    requires rq.plate.Some? && FirstToSpeak(rq, i) && FirstToSpeak(rq, j)
    ensures i == j
  {
  }

  // --------------------------------------------------------------------------- the list, the till

  lemma AdmissibleIsBase(rq: Request)
    ensures BaseVerdict(rq).decision == Allow <==> Admissible(rq)
    ensures Admissible(rq) ==> BaseVerdict(rq).reason == "vehicle_registered"
  {
  }

  lemma CoversIsEligible(p: Payment, rq: Request)
    requires rq.plate.Some? && rq.site.Some?
    ensures Covers(p, rq) <==> Eligible(p, rq, Normalize(rq.plate.value))
  {
  }

  lemma PaidForIsFound(db: Db, rq: Request)
    requires rq.plate.Some?
    ensures PaidFor(db, rq) <==>
            && rq.direction == Exit && rq.site.Some? && !Blacklisted(rq)
            && PaidExit(db.payments, rq, Normalize(rq.plate.value)).Some?
  {
    if rq.site.Some? {
      forall i | 0 <= i < |db.payments|
        ensures Covers(db.payments[i], rq) <==> Eligible(db.payments[i], rq, Normalize(rq.plate.value))
      {
        CoversIsEligible(db.payments[i], rq);
      }
    }
  }

  /** What the list and the till say, rules apart. */
  lemma ListOrTill(db: Db, rq: Request)
    requires rq.plate.Some?
    ensures var v := WithPayment(db, rq, rq.plate.value, BaseVerdict(rq));
      && (v.decision == Allow <==> Admissible(rq) || PaidFor(db, rq))
      && (Admissible(rq) ==> v == Verdict(Allow, "vehicle_registered"))
      && (!Admissible(rq) && PaidFor(db, rq) ==> v == Verdict(Allow, "paid_exit"))
      && (!Admissible(rq) && !PaidFor(db, rq) ==> v == BaseVerdict(rq))
  {
    AdmissibleIsBase(rq);
    PaidForIsFound(db, rq);
  }

  // ------------------------------------------------------------------------------ the decision

  lemma RepeatingIsRefused(db: Db, rq: Request, v: Verdict)
    requires rq.plate.Some? && v.decision == Allow
    ensures Final(db, rq, rq.plate.value, v) ==
            if Repeating(db, rq) then Verdict(Deny, "anti_passback") else v
  {
    if PassbackApplies(rq, rq.plate.value, v) {
      PassbackHoldsIff(db, rq, rq.plate.value, v);
    }
  }

  /** The first rule to speak decides: a deny rule refuses by its name, an allow rule lets through by
      its name unless the vehicle repeats. */
  lemma RuleDecides(db: Db, rq: Request, i: int)
    requires rq.plate.Some? && rq.plate.value != "" && FirstToSpeak(rq, i)
    ensures DecideAccess(db, rq) ==
            if rq.rules[i].kind == DenyList then Verdict(Deny, "rule:" + rq.rules[i].name)
            else if Repeating(db, rq) then Verdict(Deny, "anti_passback")
            else Verdict(Allow, "rule:" + rq.rules[i].name)
  {
    FirstRuleIsFirst(rq);
    RepeatingIsRefused(db, rq, Verdict(Allow, "rule:" + rq.rules[i].name));
  }

  /** With no rule to speak, the list and the till decide. */
  lemma ListDecides(db: Db, rq: Request)
    requires rq.plate.Some? && rq.plate.value != "" && NoneSpeaks(rq)
    ensures Admissible(rq) || PaidFor(db, rq) ==>
              DecideAccess(db, rq) ==
              if Repeating(db, rq) then Verdict(Deny, "anti_passback")
              else Verdict(Allow, if Admissible(rq) then "vehicle_registered" else "paid_exit")
    ensures !Admissible(rq) && !PaidFor(db, rq) ==> DecideAccess(db, rq) == BaseVerdict(rq)
  {
    FirstRuleIsFirst(rq);
    ListOrTill(db, rq);
    var v := WithPayment(db, rq, rq.plate.value, BaseVerdict(rq));
    if v.decision == Allow {
      RepeatingIsRefused(db, rq, v);
    }
  }

  /** Every vehicle and every request: let through exactly when it has a plate, does not repeat, and the
      first rule to speak allows it or, with no such rule, it is admissible or paid for. */
  lemma AllowedIff(db: Db, rq: Request)
    ensures DecideAccess(db, rq).decision == Allow <==>
            && rq.plate.Some? && rq.plate.value != "" && !Repeating(db, rq)
            && (|| (exists i :: FirstToSpeak(rq, i) && rq.rules[i].kind == AllowList)
                || (NoneSpeaks(rq) && (Admissible(rq) || PaidFor(db, rq))))
  {
    if rq.plate.Some? && rq.plate.value != "" {
      FirstRuleIsFirst(rq);
      if NoneSpeaks(rq) {
        ListDecides(db, rq);
        AdmissibleIsBase(rq);
      } else {
        var i :| FirstToSpeak(rq, i);
        RuleDecides(db, rq, i);
        forall j | FirstToSpeak(rq, j) ensures j == i {
          OneFirst(rq, i, j);
        }
      }
    }
  }

  /** Only an allow rule lets a blacklisted vehicle through, whatever it has paid. */
  lemma BlacklistNeedsRule(db: Db, rq: Request)
    requires Blacklisted(rq) && DecideAccess(db, rq).decision == Allow
    ensures exists i :: rq.plate.Some? && FirstToSpeak(rq, i) && rq.rules[i].kind == AllowList
  {
    AllowedIff(db, rq);
  }

  /** Why a vehicle is refused when no rule speaks and nothing is paid. */
  lemma RefusalReasons(db: Db, rq: Request)
    requires rq.plate.Some? && rq.plate.value != "" && NoneSpeaks(rq) && !PaidFor(db, rq)
    ensures rq.vehicle.None? ==> DecideAccess(db, rq) == Verdict(Deny, "plate_not_registered")
    ensures Blacklisted(rq) ==> DecideAccess(db, rq) == Verdict(Deny, "vehicle_blacklisted")
    ensures rq.vehicle.Some? && !Blacklisted(rq) ==>
              var v := rq.vehicle.value;
              && (!v.active ==> DecideAccess(db, rq) == Verdict(Deny, "vehicle_suspended"))
              && (v.active && v.validFrom.Some? && v.validFrom.value > rq.now ==>
                    DecideAccess(db, rq) == Verdict(Deny, "vehicle_not_yet_valid"))
              && (v.active && (v.validFrom.None? || v.validFrom.value <= rq.now) &&
                  v.validTo.Some? && v.validTo.value < rq.now ==>
                    DecideAccess(db, rq) == Verdict(Deny, "vehicle_expired"))
  {
    ListDecides(db, rq);
  }

  /** A request without a plate is refused, whatever the rules say. */
  lemma NoPlateRefused(db: Db, rq: Request)
    requires rq.plate.None? || rq.plate.value == ""
    ensures DecideAccess(db, rq) == Verdict(Deny, "no_plate_detected")
  {
  }

  /** Recording uses up a payment exactly for an exit recorded as paid, with a plate and a site, that some
      payment covers. */
  lemma StampsIff(db: Db, rq: Request, v: Verdict)
    ensures Commit(db, rq, v).payments != db.payments <==>
            && v == Verdict(Allow, "paid_exit") && rq.direction == Exit && rq.site.Some?
            && rq.plate.Some? && rq.plate.value != ""
            && exists i :: 0 <= i < |db.payments| && Covers(db.payments[i], rq)
  {
    if rq.plate.Some? && rq.site.Some? {
      forall i | 0 <= i < |db.payments|
        ensures Covers(db.payments[i], rq) <==> Eligible(db.payments[i], rq, Normalize(rq.plate.value))
      {
        CoversIsEligible(db.payments[i], rq);
      }
      var hit := PaidExit(db.payments, rq, Normalize(rq.plate.value));
      if Stamps(rq, v) && hit.Some? {
        assert Commit(db, rq, v).payments[hit.value].exitGrantedAt.Some?;
      }
    }
  }

  // ---------------------------------------------------------------------------------- the record

  /** What is recorded: the decision, or the operator's with the operator's reason, for that plate, site
      and direction, dated as given or now; nothing recorded before changes. */
  lemma RecordedAs(db: Db, rq: Request)
    ensures var e := Record(db, rq).1;
      && Record(db, rq).0.events == db.events + [e]
      && e.tenant == rq.tenant && e.site == rq.site && e.plate == rq.plate && e.direction == rq.direction
      && (rq.occurredAt.Some? ==> e.occurredAt == rq.occurredAt.value)
      && (rq.occurredAt.None? ==> e.occurredAt == rq.now)
      && (rq.force.None? ==> e.verdict == DecideAccess(db, rq))
      && (rq.force.Some? ==> e.verdict.decision == rq.force.value)
      && (rq.force.Some? && rq.forceReason != "" ==> e.verdict.reason == rq.forceReason)
      && (rq.force.Some? && rq.forceReason == "" ==> e.verdict.reason == "manual_override")
  {
  }
}
