/** Driver parking sessions are not stored: they are inferred from the allowed access
    events of the driver's plates by matching exits to entries, last entry first, over a
    window of the newest events (backend/app/services/driver_session_service.py). */
module DriverSessions {
  import opened Prelude

  datatype Direction = Entry | Exit | Other

  type Site = int

  /** One `access_events` row. `rank` is the row's place in the order the database lists
      rows in (by `occurred_at`, ties as the database breaks them). */
  datatype AccessEvent = AccessEvent(
    rank: nat,
    occurredAt: int,
    allowed: bool,
    site: Option<Site>,
    plate: Option<string>,
    direction: Direction)

  datatype Key = Key(plate: string, site: Site)

  /** A row the query selected, with its plate normalised. */
  datatype Visit = Visit(rank: nat, occurredAt: int, key: Key, direction: Direction)

  /** A completed session. */
  datatype Stay = Stay(entry: Visit, exit: Visit)

  const SCAN_LIMIT_PER_PLATE: nat := 500

  ghost predicate InOrder(table: seq<AccessEvent>) {
    forall i, j :: 0 <= i < j < |table| ==>
      table[i].rank < table[j].rank && table[i].occurredAt <= table[j].occurredAt
  }

  ghost predicate Chronological(evs: seq<Visit>) {
    forall i, j :: 0 <= i < j < |evs| ==>
      evs[i].rank < evs[j].rank && evs[i].occurredAt <= evs[j].occurredAt
  }

  // ------------------------------------------------------------ the query

  predicate Selected(ev: AccessEvent, plates: set<string>) {
    ev.allowed && ev.site.Some? && ev.plate.Some? && Normalize(ev.plate.value) in plates
  }

  function AsVisit(ev: AccessEvent): Visit
    requires ev.site.Some? && ev.plate.Some?
  {
    Visit(ev.rank, ev.occurredAt, Key(Normalize(ev.plate.value), ev.site.value), ev.direction)
  }

  function Allowed(table: seq<AccessEvent>, plates: set<string>): seq<Visit> {
    if table == [] then []
    else
      var rest := Allowed(table[..|table| - 1], plates);
      var ev := table[|table| - 1];
      if Selected(ev, plates) then rest + [AsVisit(ev)] else rest
  }

  /** An allowed event at a known site, of one of the plates in any spelling, told as a visit. */
  predicate IsVisitOf(v: Visit, ev: AccessEvent, plates: set<string>) {
    && ev.allowed && ev.site == Some(v.key.site)
    && ev.plate.Some? && Normalize(ev.plate.value) == v.key.plate && v.key.plate in plates
    && v.rank == ev.rank && v.occurredAt == ev.occurredAt && v.direction == ev.direction
  }

  lemma SelectedIsVisit(ev: AccessEvent, plates: set<string>, v: Visit)
    ensures IsVisitOf(v, ev, plates) <==> Selected(ev, plates) && AsVisit(ev) == v
  {
  }

  ghost predicate Told(table: seq<AccessEvent>, plates: set<string>, v: Visit) {
    exists ev :: ev in table && IsVisitOf(v, ev, plates)
  }

  lemma ToldSnoc(table: seq<AccessEvent>, ev: AccessEvent, plates: set<string>, v: Visit)
    ensures Told(table + [ev], plates, v) <==> Told(table, plates, v) || IsVisitOf(v, ev, plates)
  {
    if Told(table, plates, v) {
      var e :| e in table && IsVisitOf(v, e, plates);
      assert e in table + [ev];
    }
    if IsVisitOf(v, ev, plates) {
      assert ev in table + [ev];
    }
  }

  /** Selection drops nothing the driver's plates are entitled to, and adds nothing. */
  lemma {:induction false} AllowedExactly(table: seq<AccessEvent>, plates: set<string>, v: Visit)
    ensures v in Allowed(table, plates) <==> Told(table, plates, v)
  {
    if table != [] {
      var n := |table| - 1;
      AllowedExactly(table[..n], plates, v);
      ToldSnoc(table[..n], table[n], plates, v);
      SelectedIsVisit(table[n], plates, v);
      assert table == table[..n] + [table[n]];
    }
  }

  lemma ToldEarlier(table: seq<AccessEvent>, plates: set<string>, v: Visit)
    requires InOrder(table) && table != [] && Told(table[..|table| - 1], plates, v)
    ensures v.rank < table[|table| - 1].rank && v.occurredAt <= table[|table| - 1].occurredAt
  {
    var ev :| ev in table[..|table| - 1] && IsVisitOf(v, ev, plates);
    var i :| 0 <= i < |table| - 1 && table[..|table| - 1][i] == ev;
    assert table[i] == ev;
  }

  lemma {:induction false} AllowedInOrder(table: seq<AccessEvent>, plates: set<string>)
    requires InOrder(table)
    ensures Chronological(Allowed(table, plates))
  {
    if table != [] {
      var n := |table| - 1;
      AllowedInOrder(table[..n], plates);
      var rest := Allowed(table[..n], plates);
      forall i | 0 <= i < |rest|
        ensures rest[i].rank < table[n].rank && rest[i].occurredAt <= table[n].occurredAt
      {
        AllowedExactly(table[..n], plates, rest[i]);
        ToldEarlier(table, plates, rest[i]);
      }
    }
  }

  /** The query's rows before the limit: exactly the visits of the table, in its order. */
  lemma AllowedFacts(table: seq<AccessEvent>, plates: set<string>)
    requires InOrder(table)
    ensures Chronological(Allowed(table, plates))
    ensures forall v :: v in Allowed(table, plates) <==> Told(table, plates, v)
    ensures forall v :: v in Allowed(table, plates) ==> v.key.plate in plates
  {
    AllowedInOrder(table, plates);
    forall v ensures v in Allowed(table, plates) <==> Told(table, plates, v) {
      AllowedExactly(table, plates, v);
    }
  }

  /** How many rows the query may return at most. */
  function RowLimit(plates: set<string>): nat { SCAN_LIMIT_PER_PLATE * |plates| }

  /** What the query returns: the newest allowed events first, cut at the row limit. */
  function Rows(table: seq<AccessEvent>, plates: set<string>): seq<Visit> {
    var newestFirst := Reversed(Allowed(table, plates));
    newestFirst[..Min(|newestFirst|, RowLimit(plates))]
  }

  // ------------------------------------------- the per-plate window (_allowed_events)

  function CountPlate(rows: seq<Visit>, plate: string): nat {
    if rows == [] then 0
    else CountPlate(rows[..|rows| - 1], plate) + if rows[|rows| - 1].key.plate == plate then 1 else 0
  }

  /** The rows of `rows` that have fewer than SCAN_LIMIT_PER_PLATE newer rows of their plate. */
  function Kept(rows: seq<Visit>): seq<Visit> {
    if rows == [] then []
    else
      var newer := rows[..|rows| - 1];
      var ev := rows[|rows| - 1];
      if CountPlate(newer, ev.key.plate) < SCAN_LIMIT_PER_PLATE then Kept(newer) + [ev] else Kept(newer)
  }

  lemma CountPlateSnoc(rows: seq<Visit>, ev: Visit, plate: string)
    ensures CountPlate(rows + [ev], plate) == CountPlate(rows, plate) + if ev.key.plate == plate then 1 else 0
  {
    assert (rows + [ev])[..|rows|] == rows;
  }

  lemma KeptSnoc(rows: seq<Visit>, ev: Visit)
    ensures Kept(rows + [ev]) ==
            if CountPlate(rows, ev.key.plate) < SCAN_LIMIT_PER_PLATE then Kept(rows) + [ev] else Kept(rows)
  {
    assert (rows + [ev])[..|rows|] == rows;
  }

  function Tally(perPlate: map<string, nat>, plate: string): nat {
    if plate in perPlate then perPlate[plate] else 0
  }

  /** The counters hold each plate's rows so far, up to the limit. */
  ghost predicate Counts(perPlate: map<string, nat>, rows: seq<Visit>) {
    forall p :: Tally(perPlate, p) == Min(CountPlate(rows, p), SCAN_LIMIT_PER_PLATE)
  }

  lemma CountsStep(perPlate: map<string, nat>, next: map<string, nat>, rows: seq<Visit>, ev: Visit)
    requires Counts(perPlate, rows)
    requires forall p :: Tally(next, p) ==
               if p == ev.key.plate && Tally(perPlate, p) < SCAN_LIMIT_PER_PLATE then Tally(perPlate, p) + 1
               else Tally(perPlate, p)
    ensures Counts(next, rows + [ev])
  {
    forall p ensures Tally(next, p) == Min(CountPlate(rows + [ev], p), SCAN_LIMIT_PER_PLATE) {
      CountPlateSnoc(rows, ev, p);
    }
  }

  method KeepNewest(rows: seq<Visit>) returns (kept: seq<Visit>)
    ensures kept == Kept(rows)
  {
    var perPlate: map<string, nat> := map[];
    kept := [];
    ghost var done: seq<Visit> := [];
    for i := 0 to |rows|
      invariant done == rows[..i]
      invariant kept == Kept(done)
      invariant Counts(perPlate, done)
    {
      var ev := rows[i];
      KeptSnoc(done, ev);
      ghost var before := perPlate;
      var seen := Tally(perPlate, ev.key.plate);
      if seen < SCAN_LIMIT_PER_PLATE {
        perPlate := perPlate[ev.key.plate := seen + 1];
        kept := kept + [ev];
      }
      CountsStep(before, perPlate, done, ev);
      done := done + [ev];
    }
    assert done == rows;
  }

  method AllowedEvents(table: seq<AccessEvent>, plates: set<string>) returns (kept: seq<Visit>)
    ensures kept == Kept(Rows(table, plates))
  {
    if plates == {} {
      assert Rows(table, plates) == [];
      return [];
    }
    kept := KeepNewest(Rows(table, plates));
  }

  // ---------------------------------------------------- LIFO pairing (history)

  /** An entry is pushed on its key's stack; an exit pops the newest open entry, if any. */
  function After(stack: seq<Visit>, ev: Visit): seq<Visit> {
    match ev.direction
    case Entry => stack + [ev]
    case Exit => if stack == [] then [] else stack[..|stack| - 1]
    case Other => stack
  }

  function Completed(stack: seq<Visit>, ev: Visit): seq<Stay> {
    if ev.direction == Exit && stack != [] then [Stay(stack[|stack| - 1], ev)] else []
  }

  /** The entries of a key still waiting for an exit after a chronological list of events. */
  function Open(evs: seq<Visit>, key: Key): seq<Visit> {
    if evs == [] then []
    else
      var before := Open(evs[..|evs| - 1], key);
      if evs[|evs| - 1].key == key then After(before, evs[|evs| - 1]) else before
  }

  /** The sessions completed by a chronological list of events, in order of their exits. */
  function Pairs(evs: seq<Visit>): seq<Stay> {
    if evs == [] then []
    else
      var before := evs[..|evs| - 1];
      var ev := evs[|evs| - 1];
      Pairs(before) + Completed(Open(before, ev.key), ev)
  }

  /** Stable descending insertion by exit time, as a reversed stable sort orders it. */
  function InsertByExit(p: Stay, ps: seq<Stay>)
    : seq<Stay>
  {
    if ps == [] || ps[0].exit.occurredAt <= p.exit.occurredAt then [p] + ps
    else [ps[0]] + InsertByExit(p, ps[1..])
  }

  function NewestExitFirst(ps: seq<Stay>): seq<Stay> {
    if ps == [] then [] else InsertByExit(ps[0], NewestExitFirst(ps[1..]))
  }

  function Page<T>(all: seq<T>, page: nat, limit: nat): seq<T>
    requires page >= 1
  {
    var from := Min((page - 1) * limit, |all|);
    var to := Min(page * limit, |all|);
    assert (page - 1) * limit <= page * limit;
    all[from..to]
  }

  function StackAt(open: map<Key, seq<Visit>>, key: Key): seq<Visit> {
    if key in open then open[key] else []
  }

  ghost predicate Tracks(open: map<Key, seq<Visit>>, evs: seq<Visit>) {
    forall k :: StackAt(open, k) == Open(evs, k)
  }

  lemma TracksStep(open: map<Key, seq<Visit>>, next: map<Key, seq<Visit>>, evs: seq<Visit>, ev: Visit)
    requires Tracks(open, evs)
    requires StackAt(next, ev.key) == After(StackAt(open, ev.key), ev)
    requires forall k :: k != ev.key ==> StackAt(next, k) == StackAt(open, k)
    ensures Tracks(next, evs + [ev])
    ensures Pairs(evs + [ev]) == Pairs(evs) + Completed(StackAt(open, ev.key), ev)
  {
    assert (evs + [ev])[..|evs|] == evs;
  }

  method History(events: seq<Visit>, page: nat, limit: nat)
    returns (pageRows: seq<Stay>, total: nat)
    requires page >= 1
    ensures total == |Pairs(Reversed(events))|
    ensures pageRows == Page(NewestExitFirst(Pairs(Reversed(events))), page, limit)
  {
    var openEntries: map<Key, seq<Visit>> := map[];
    var pairs: seq<Stay> := [];
    var chronological := Reversed(events);
    ghost var done: seq<Visit> := [];
    for i := 0 to |chronological|
      invariant done == chronological[..i]
      invariant Tracks(openEntries, done)
      invariant pairs == Pairs(done)
    {
      var ev := chronological[i];
      ghost var before := openEntries;
      var stack := StackAt(openEntries, ev.key);
      if ev.direction == Entry {
        openEntries := openEntries[ev.key := stack + [ev]];
      } else if ev.direction == Exit && stack != [] {
        pairs := pairs + [Stay(stack[|stack| - 1], ev)];
        openEntries := openEntries[ev.key := stack[..|stack| - 1]];
      }
      TracksStep(before, openEntries, done, ev);
      done := done + [ev];
    }
    assert done == chronological;
    total := |pairs|;
    pageRows := Page(NewestExitFirst(pairs), page, limit);
  }

  // ----------------------------------------------------------- active sessions

  /** The first row of each plate, in order of first appearance. */
  function Latest(rows: seq<Visit>): seq<Visit> {
    if rows == [] then []
    else
      var newer := rows[..|rows| - 1];
      var ev := rows[|rows| - 1];
      if CountPlate(newer, ev.key.plate) == 0 then Latest(newer) + [ev] else Latest(newer)
  }

  function EntriesOnly(evs: seq<Visit>): seq<Visit> {
    if evs == [] then []
    else
      var rest := EntriesOnly(evs[..|evs| - 1]);
      if evs[|evs| - 1].direction == Entry then rest + [evs[|evs| - 1]] else rest
  }

  ghost predicate SeenPlates(seen: set<string>, rows: seq<Visit>) {
    forall p :: p in seen <==> CountPlate(rows, p) > 0
  }

  lemma LatestSnoc(seen: set<string>, rows: seq<Visit>, ev: Visit)
    requires SeenPlates(seen, rows)
    ensures Latest(rows + [ev]) == if ev.key.plate !in seen then Latest(rows) + [ev] else Latest(rows)
    ensures SeenPlates(seen + {ev.key.plate}, rows + [ev])
    ensures ev.key.plate in seen ==> SeenPlates(seen, rows + [ev])
  {
    assert (rows + [ev])[..|rows|] == rows;
    forall p ensures p in seen + {ev.key.plate} <==> CountPlate(rows + [ev], p) > 0 {
      CountPlateSnoc(rows, ev, p);
    }
    if ev.key.plate in seen {
      assert seen + {ev.key.plate} == seen;
    }
  }

  /** The PARKED rows: one per plate whose newest event in the window is an entry. */
  method ActiveSessions(events: seq<Visit>) returns (parked: seq<Visit>)
    ensures parked == EntriesOnly(Latest(events))
  {
    var seen: set<string> := {};
    var latest: seq<Visit> := [];
    ghost var done: seq<Visit> := [];
    for i := 0 to |events|
      invariant done == events[..i]
      invariant SeenPlates(seen, done)
      invariant latest == Latest(done)
    {
      var ev := events[i];
      LatestSnoc(seen, done, ev);
      if ev.key.plate !in seen {
        seen := seen + {ev.key.plate};
        latest := latest + [ev];
      }
      done := done + [ev];
    }
    assert done == events;
    parked := [];
    for i := 0 to |latest|
      invariant parked == EntriesOnly(latest[..i])
    {
      assert latest[..i + 1][..i] == latest[..i];
      if latest[i].direction == Entry {
        parked := parked + [latest[i]];
      }
    }
    assert latest[..|latest|] == latest;
  }
}
