/** Paid exits at several gates at once (backend/app/services/event_service.py): the decision and the
    record of a call are two steps, and other calls may come between them. */
module ExitRaces {
  import opened Prelude
  import opened AccessRecording

  /** A call that has been decided, and is recorded once. */
  datatype Call = Call(rq: Request, verdict: Verdict, open: bool)

  datatype Hall = Hall(db: Db, calls: seq<Call>)

  datatype Step = Decide(rq: Request) | RecordCall(k: nat, now: int) | Pay(payment: Payment)

  function Decided(db: Db, rq: Request): Call { Call(rq, Forced(rq, DecideAccess(db, rq)), true) }

  function Next(h: Hall, s: Step): Hall {
    match s
    case Decide(rq) => h.(calls := h.calls + [Decided(h.db, rq)])
    case RecordCall(k, now) =>
      if k < |h.calls| && h.calls[k].open then
        Hall(Commit(h.db, h.calls[k].rq.(now := now), h.calls[k].verdict), h.calls[k := h.calls[k].(open := false)])
      else h
    case Pay(p) => h.(db := h.db.(payments := h.db.payments + [p.(exitGrantedAt := None)]))
  }

  /** The step records an unforced exit as paid. */
  predicate LetsOut(h: Hall, s: Step) {
    && s.RecordCall? && s.k < |h.calls| && h.calls[s.k].open
    && h.calls[s.k].rq.force.None? && h.calls[s.k].verdict == Verdict(Allow, "paid_exit")
  }

  /** It does, and no payment is left for it. */
  predicate Misses(h: Hall, s: Step) {
    && LetsOut(h, s) && h.calls[s.k].rq.plate.Some?
    && var rq := h.calls[s.k].rq.(now := s.now);
       PaidExit(h.db.payments, rq, Normalize(rq.plate.value)).None?
  }

  // ------------------------------------------------------------------------- the invariant

  /** A call decided as a paid exit is one that stamps a payment if it finds one. */
  predicate CallOk(c: Call) {
    c.rq.force.None? && c.verdict == Verdict(Allow, "paid_exit") ==> Stamps(c.rq, c.verdict)
  }

  ghost predicate CallsOk(h: Hall) { forall k :: 0 <= k < |h.calls| ==> CallOk(h.calls[k]) }

  lemma DecidedOk(db: Db, rq: Request)
    ensures CallOk(Decided(db, rq))
  {
    if rq.force.None? && DecideAccess(db, rq) == Verdict(Allow, "paid_exit") {
      PaidExitHasPayment(db, rq);
    }
  }

  lemma StepKeepsCalls(h: Hall, s: Step)
    requires CallsOk(h)
    ensures CallsOk(Next(h, s))
  {
    if s.Decide? {
      DecidedOk(h.db, s.rq);
    }
  }

  // ------------------------------------------------------------------- one step's balance

  /** How many payments recording the call uses up. */
  function Stampings(db: Db, rq: Request, v: Verdict): nat {
    if Stamps(rq, v) && PaidExit(db.payments, rq, Normalize(rq.plate.value)).Some? then 1 else 0
  }

  lemma CommitUses(db: Db, rq: Request, v: Verdict)
    ensures Used(Commit(db, rq, v).payments) == Used(db.payments) + Stampings(db, rq, v)
  {
    if Stampings(db, rq, v) == 1 {
      var k := PaidExit(db.payments, rq, Normalize(rq.plate.value)).value;
      UsedUpdate(db.payments, k, db.payments[k].(exitGrantedAt := Some(rq.now)));
    }
  }

  function One(b: bool): nat { if b then 1 else 0 }

  /** Every exit let out used up a payment or missed; with no forced call nothing else uses one. */
  lemma StepBalance(h: Hall, s: Step)
    requires CallsOk(h)
    ensures Used(h.db.payments) + One(LetsOut(h, s)) <= Used(Next(h, s).db.payments) + One(Misses(h, s))
    ensures (forall k :: 0 <= k < |h.calls| ==> h.calls[k].rq.force.None?) ==>
              Used(h.db.payments) + One(LetsOut(h, s)) == Used(Next(h, s).db.payments) + One(Misses(h, s))
  {
    match s
    case Decide(rq) =>
    case Pay(p) => PayUses(h.db.payments, p.(exitGrantedAt := None));
    case RecordCall(k, now) =>
      if k < |h.calls| && h.calls[k].open {
        assert CallOk(h.calls[k]);
        CommitUses(h.db, h.calls[k].rq.(now := now), h.calls[k].verdict);
      }
  }

  lemma PayUses(ps: seq<Payment>, p: Payment)
    requires p.exitGrantedAt.None?
    ensures Used(ps + [p]) == Used(ps)
  {
    assert (ps + [p])[..|ps|] == ps;
  }

  // -------------------------------------------------------------------------- whole runs

  predicate Follows(h: Hall, s: Step, h': Hall) { h' == Next(h, s) }

  /** `hs` are the states of an interleaving, from any database with no call under way. */
  predicate IsRun(steps: seq<Step>, hs: seq<Hall>) {
    && |hs| == |steps| + 1 && hs[0].calls == []
    && forall i :: 0 <= i < |steps| ==> Follows(hs[i], steps[i], hs[i + 1])
  }

  function ExitsLet(steps: seq<Step>, hs: seq<Hall>, n: nat): nat
    requires |hs| == |steps| + 1 && n <= |steps|
  {
    if n == 0 then 0 else ExitsLet(steps, hs, n - 1) + One(LetsOut(hs[n - 1], steps[n - 1]))
  }

  function Missed(steps: seq<Step>, hs: seq<Hall>, n: nat): nat
    requires |hs| == |steps| + 1 && n <= |steps|
  {
    if n == 0 then 0 else Missed(steps, hs, n - 1) + One(Misses(hs[n - 1], steps[n - 1]))
  }

  lemma {:induction false} CallsStayOk(steps: seq<Step>, hs: seq<Hall>, n: nat)
    requires IsRun(steps, hs) && n <= |steps|
    ensures CallsOk(hs[n])
  {
    if n > 0 {
      CallsStayOk(steps, hs, n - 1);
      assert Follows(hs[n - 1], steps[n - 1], hs[n - 1 + 1]);
      StepKeepsCalls(hs[n - 1], steps[n - 1]);
    }
  }

  /** Over every interleaving of decisions and records, from any database: the unforced exits let out
      as paid are at most the payments used up and the records that found none left. */
  lemma {:induction false} ExitsAreBounded(steps: seq<Step>, hs: seq<Hall>, n: nat)
    requires IsRun(steps, hs) && n <= |steps|
    ensures Used(hs[0].db.payments) + ExitsLet(steps, hs, n) <= Used(hs[n].db.payments) + Missed(steps, hs, n)
  {
    if n > 0 {
      ExitsAreBounded(steps, hs, n - 1);
      RunStepBound(steps, hs, n - 1);
    }
  }

  lemma RunStepBound(steps: seq<Step>, hs: seq<Hall>, n: nat)
    requires IsRun(steps, hs) && n < |steps|
    ensures Used(hs[n].db.payments) + One(LetsOut(hs[n], steps[n])) <=
            Used(hs[n + 1].db.payments) + One(Misses(hs[n], steps[n]))
  {
    CallsStayOk(steps, hs, n);
    assert Follows(hs[n], steps[n], hs[n + 1]);
    StepBalance(hs[n], steps[n]);
  }

  ghost predicate Unforced(steps: seq<Step>) {
    forall i :: 0 <= i < |steps| && steps[i].Decide? ==> steps[i].rq.force.None?
  }

  ghost predicate CallsUnforced(h: Hall) { forall k :: 0 <= k < |h.calls| ==> h.calls[k].rq.force.None? }

  lemma {:induction false} CallsStayUnforced(steps: seq<Step>, hs: seq<Hall>, n: nat)
    requires IsRun(steps, hs) && Unforced(steps) && n <= |steps|
    ensures CallsUnforced(hs[n])
  {
    if n > 0 {
      CallsStayUnforced(steps, hs, n - 1);
      assert Follows(hs[n - 1], steps[n - 1], hs[n - 1 + 1]);
    }
  }

  /** Without forced calls the books balance exactly: each exit let out used up one payment of its own
      or found none left, and nothing else used one. */
  lemma {:induction false} ExitsBalance(steps: seq<Step>, hs: seq<Hall>, n: nat)
    requires IsRun(steps, hs) && Unforced(steps) && n <= |steps|
    ensures Used(hs[0].db.payments) + ExitsLet(steps, hs, n) == Used(hs[n].db.payments) + Missed(steps, hs, n)
  {
    if n > 0 {
      ExitsBalance(steps, hs, n - 1);
      CallsStayOk(steps, hs, n - 1);
      CallsStayUnforced(steps, hs, n - 1);
      assert Follows(hs[n - 1], steps[n - 1], hs[n - 1 + 1]);
      StepBalance(hs[n - 1], steps[n - 1]);
    }
  }
}
