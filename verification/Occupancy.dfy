/** The occupancy counter over any sequence of allowed events: a walk reflected at zero and
    capped at twice the capacity (backend/app/services/event_service.py). */
module Occupancy {
  import opened Prelude
  import opened AccessRecording

  /** The counter after a sequence of moves. */
  function Walk(ceiling: int, x: int, moves: seq<int>): int {
    if moves == [] then x else Clamp(ceiling, Walk(ceiling, x, moves[..|moves| - 1]) + moves[|moves| - 1])
  }

  function Sum(moves: seq<int>): int {
    if moves == [] then 0 else Sum(moves[..|moves| - 1]) + moves[|moves| - 1]
  }

  /** After any event the counter is between zero and its ceiling, whatever it was before. */
  lemma WalkInRange(ceiling: int, x: int, moves: seq<int>)
    requires ceiling >= 0 && moves != []
    ensures 0 <= Walk(ceiling, x, moves) <= ceiling
  {
  }

  /** The upper clamp never bites. */
  predicate NeverCapped(ceiling: int, x: int, moves: seq<int>) {
    moves == [] ||
    var before := moves[..|moves| - 1];
    NeverCapped(ceiling, x, before) && Walk(ceiling, x, before) + moves[|moves| - 1] <= ceiling
  }

  /** The sum of the moves after the first k. */
  function SinceMove(moves: seq<int>, k: nat): int
    requires k <= |moves|
  {
    Sum(moves) - Sum(moves[..k])
  }

  lemma SinceStep(moves: seq<int>, k: nat)
    requires moves != [] && k < |moves|
    ensures SinceMove(moves, k) == SinceMove(moves[..|moves| - 1], k) + moves[|moves| - 1]
  {
    assert moves[..|moves| - 1][..k] == moves[..k];
  }

  ghost predicate IsSince(moves: seq<int>, w: int, k: nat) { k <= |moves| && w == SinceMove(moves, k) }

  /** While the ceiling is not reached the counter is the largest of the start plus all moves and
      every tail sum: max(x + S_n, max over k of S_n - S_k). The second part is what the floor
      at zero forgives. */
  lemma {:induction false} WalkIsReflected(ceiling: int, x: int, moves: seq<int>)
    requires ceiling >= 0 && x >= 0 && NeverCapped(ceiling, x, moves)
    ensures Walk(ceiling, x, moves) >= x + Sum(moves)
    ensures forall k :: 0 <= k <= |moves| ==> Walk(ceiling, x, moves) >= SinceMove(moves, k)
    ensures Walk(ceiling, x, moves) == x + Sum(moves) || exists k :: IsSince(moves, Walk(ceiling, x, moves), k)
  {
    var w := Walk(ceiling, x, moves);
    if moves != [] {
      var before, d := moves[..|moves| - 1], moves[|moves| - 1];
      WalkIsReflected(ceiling, x, before);
      var v := Walk(ceiling, x, before);
      assert moves[..|moves|] == moves;
      forall k | 0 <= k <= |moves| ensures w >= SinceMove(moves, k) {
        if k < |moves| {
          SinceStep(moves, k);
        }
      }
      if v + d < 0 {
        assert IsSince(moves, w, |moves|);
      } else if v != x + Sum(before) {
        var k :| IsSince(before, v, k);
        SinceStep(moves, k);
        assert IsSince(moves, w, k);
      }
    }
  }

  /** Two counters fed the same events keep their order, and the gap between them never grows. */
  lemma {:induction false} WalksConverge(ceiling: int, x: int, y: int, moves: seq<int>)
    requires x <= y
    ensures 0 <= Walk(ceiling, y, moves) - Walk(ceiling, x, moves) <= y - x
    ensures moves != [] ==>
              Walk(ceiling, y, moves) - Walk(ceiling, x, moves)
              <= Walk(ceiling, y, moves[..|moves| - 1]) - Walk(ceiling, x, moves[..|moves| - 1])
  {
    if moves != [] {
      WalksConverge(ceiling, x, y, moves[..|moves| - 1]);
    }
  }

  // -------------------------------------------------------------- the stored counter

  predicate Counts(db: Db, a: Action, site: Site, tenant: Tenant) {
    && a.RecordEvent? && a.rq.site == Some(site) && a.rq.tenant == tenant
    && Record(db, a.rq).1.verdict.decision == Allow && a.rq.direction != Other
  }

  /** The moves a run makes at one site: +1 per allowed entry, -1 per allowed exit. */
  function Moves(db: Db, actions: seq<Action>, site: Site, tenant: Tenant): seq<int> {
    if actions == [] then []
    else
      var before, a := actions[..|actions| - 1], actions[|actions| - 1];
      Moves(db, before, site, tenant) +
      if Counts(RunAll(db, before), a, site, tenant) then [Delta(a.rq.direction)] else []
  }

  lemma OccupancyStep(db: Db, a: Action, site: Site)
    requires site in db.sites
    ensures site in Act(db, a).sites
    ensures var row, next := db.sites[site], Act(db, a).sites[site];
            && next.tenant == row.tenant && next.capacity == row.capacity
            && next.occupancy == if Counts(db, a, site, row.tenant)
                                 then Clamp(Ceiling(row.capacity), row.occupancy + Delta(a.rq.direction))
                                 else row.occupancy
  {
  }

  /** The stored occupancy of a site after any run is that walk over the site's own moves. */
  lemma {:induction false} OccupancyIsWalk(db: Db, actions: seq<Action>, site: Site)
    requires site in db.sites
    ensures site in RunAll(db, actions).sites
    ensures var row, last := db.sites[site], RunAll(db, actions).sites[site];
            && last.tenant == row.tenant && last.capacity == row.capacity
            && last.occupancy == Walk(Ceiling(row.capacity), row.occupancy, Moves(db, actions, site, row.tenant))
  {
    if actions != [] {
      var before, a := actions[..|actions| - 1], actions[|actions| - 1];
      OccupancyIsWalk(db, before, site);
      OccupancyStep(RunAll(db, before), a, site);
      var moves := Moves(db, before, site, db.sites[site].tenant);
      assert (moves + [Delta(Entry)])[..|moves|] == moves;
      assert (moves + [Delta(Exit)])[..|moves|] == moves;
      assert moves + [] == moves;
    }
  }

  // ---------------------------------------------------------- counted from the recorded events

  /** How many vehicles a site with this capacity may be counted to hold. */
  function Limit(capacity: int): int { if capacity > 0 then 2 * capacity else 2_147_483_647 }

  predicate AllowedThere(e: Event, site: Site, tenant: Tenant, d: Direction) {
    e.site == Some(site) && e.tenant == tenant && e.verdict.decision == Allow && e.direction == d
  }

  /** The allowed events of the site in one direction, from position `from` on. */
  function Passages(events: seq<Event>, from: nat, site: Site, tenant: Tenant, d: Direction): nat {
    if |events| <= from then 0
    else
      var n := |events| - 1;
      Passages(events[..n], from, site, tenant, d) + if AllowedThere(events[n], site, tenant, d) then 1 else 0
  }

  lemma PassagesSnoc(events: seq<Event>, e: Event, from: nat, site: Site, tenant: Tenant, d: Direction)
    requires from <= |events|
    ensures Passages(events + [e], from, site, tenant, d) ==
            Passages(events, from, site, tenant, d) + if AllowedThere(e, site, tenant, d) then 1 else 0
  {
    assert (events + [e])[..|events|] == events;
  }

  /** The start plus the entries recorded since minus the exits. */
  function Headcount(db: Db, actions: seq<Action>, site: Site): int
    requires site in db.sites
  {
    var row, events := db.sites[site], RunAll(db, actions).events;
    row.occupancy + Passages(events, |db.events|, site, row.tenant, Entry)
                  - Passages(events, |db.events|, site, row.tenant, Exit)
  }

  /** At no point of the run does the head count leave the site's limits. */
  predicate WithinLimits(db: Db, actions: seq<Action>, site: Site)
    requires site in db.sites
  {
    && 0 <= Headcount(db, actions, site) <= Limit(db.sites[site].capacity)
    && (actions != [] ==> WithinLimits(db, actions[..|actions| - 1], site))
  }

  lemma {:induction false} EventsGrow(db: Db, actions: seq<Action>)
    ensures |RunAll(db, actions).events| >= |db.events|
  {
    if actions != [] {
      EventsGrow(db, actions[..|actions| - 1]);
    }
  }

  /** What a step adds to the head count. */
  lemma HeadcountStep(db: Db, actions: seq<Action>, a: Action, site: Site)
    requires site in db.sites
    ensures var row, before := db.sites[site], RunAll(db, actions);
      Headcount(db, actions + [a], site) == Headcount(db, actions, site) +
        if !Counts(before, a, site, row.tenant) then 0 else if a.rq.direction == Entry then 1 else -1
  {
    var row, before := db.sites[site], RunAll(db, actions);
    assert (actions + [a])[..|actions|] == actions;
    EventsGrow(db, actions);
    if a.RecordEvent? {
      var e := Record(before, a.rq).1;
      assert RunAll(db, actions + [a]).events == before.events + [e];
      PassagesSnoc(before.events, e, |db.events|, site, row.tenant, Entry);
      PassagesSnoc(before.events, e, |db.events|, site, row.tenant, Exit);
    }
  }

  /** What one record does to the counter of a site: an allowed entry there adds one up to the limit, an
      allowed exit takes one away down to zero, and nothing else changes it. */
  lemma CounterMoves(db: Db, rq: Request, site: Site)
    requires site in db.sites && 0 <= db.sites[site].occupancy <= Limit(db.sites[site].capacity)
    ensures site in Record(db, rq).0.sites
    ensures var row, e, next := db.sites[site], Record(db, rq).1, Record(db, rq).0.sites[site];
      && (AllowedThere(e, site, row.tenant, Entry) ==>
            next.occupancy == Min(Limit(row.capacity), row.occupancy + 1) >= row.occupancy)
      && (AllowedThere(e, site, row.tenant, Exit) ==> next.occupancy == Max(0, row.occupancy - 1) <= row.occupancy)
      && (!AllowedThere(e, site, row.tenant, Entry) && !AllowedThere(e, site, row.tenant, Exit) ==> next == row)
  {
  }

  lemma CounterFollows(db: Db, a: Action, site: Site)
    requires site in db.sites && 0 <= db.sites[site].occupancy <= Limit(db.sites[site].capacity)
    ensures site in Act(db, a).sites
    ensures var row, next := db.sites[site], Act(db, a).sites[site];
      && next.tenant == row.tenant && next.capacity == row.capacity
      && var moved := row.occupancy +
           if !Counts(db, a, site, row.tenant) then 0 else if a.rq.direction == Entry then 1 else -1;
         0 <= moved <= Limit(row.capacity) ==> next.occupancy == moved
  {
    OccupancyStep(db, a, site);
    if a.RecordEvent? {
      CounterMoves(db, a.rq, site);
    }
  }

  /** In every run in which the head count stays within the limits, the stored occupancy is the start
      plus the allowed entries recorded at the site minus the allowed exits. */
  lemma {:induction false} OccupancyIsHeadcount(db: Db, actions: seq<Action>, site: Site)
    requires site in db.sites && WithinLimits(db, actions, site)
    ensures site in RunAll(db, actions).sites
    ensures var row, last := db.sites[site], RunAll(db, actions).sites[site];
      && last.tenant == row.tenant && last.capacity == row.capacity
      && last.occupancy == Headcount(db, actions, site)
  {
    if actions == [] {
      assert Headcount(db, actions, site) == db.sites[site].occupancy;
    } else {
      var before, a := actions[..|actions| - 1], actions[|actions| - 1];
      OccupancyIsHeadcount(db, before, site);
      assert actions == before + [a];
      HeadcountStep(db, before, a, site);
      CounterFollows(RunAll(db, before), a, site);
      assert 0 <= Headcount(db, before, site) <= Limit(db.sites[site].capacity);
    }
  }
}
