/** The two driver-facing lists over the window the query really keeps: `history` pages
    through the sessions of the full history that entered inside the window, and
    `active_sessions` reports entries that belong to no session. */
module SessionViews {
  import opened Prelude
  import opened DriverSessions
  import opened SessionPairing

  ghost predicate NewestFirst(rows: seq<Visit>) {
    forall i, j :: 0 <= i < j < |rows| ==> rows[i].rank > rows[j].rank && rows[i].occurredAt >= rows[j].occurredAt
  }

  ghost function Members(evs: seq<Visit>): set<Visit> { set e | e in evs }

  lemma ReversedMembers(s: seq<Visit>)
    ensures forall e :: e in Reversed(s) <==> e in s
    ensures NewestFirst(s) ==> Chronological(Reversed(s))
    ensures Chronological(s) ==> NewestFirst(Reversed(s))
  {
    forall e | e in s ensures e in Reversed(s) {
      var i :| 0 <= i < |s| && s[i] == e;
      assert Reversed(s)[|s| - 1 - i] == e;
    }
  }

  lemma HeadIsMember(s: seq<Visit>)
    ensures s == [] || s[0] in s
  {
  }

  ghost predicate SameMembers(a: seq<Visit>, b: seq<Visit>) { forall e :: e in a <==> e in b }

  /** A set of events has only one chronological listing. */
  lemma {:induction false} ListingUnique(a: seq<Visit>, b: seq<Visit>)
    requires Chronological(a) && Chronological(b)
    requires SameMembers(a, b)
    ensures a == b
  {
    if a == [] {
      HeadIsMember(b);
    } else {
      assert a[0] in b;
      SameLast(a, b);
      ListingUnique(a[..|a| - 1], b[..|b| - 1]);
      assert a == a[..|a| - 1] + [a[|a| - 1]] && b == b[..|b| - 1] + [b[|b| - 1]];
    }
  }

  lemma SameLast(a: seq<Visit>, b: seq<Visit>)
    requires Chronological(a) && Chronological(b) && a != [] && b != []
    requires SameMembers(a, b)
    ensures a[|a| - 1] == b[|b| - 1]
    ensures Chronological(a[..|a| - 1]) && Chronological(b[..|b| - 1])
    ensures SameMembers(a[..|a| - 1], b[..|b| - 1])
  {
    assert a[|a| - 1] == b[|b| - 1] by {
      assert a[|a| - 1] in b && b[|b| - 1] in a;
      LastIsNewest(a, b[|b| - 1]);
      LastIsNewest(b, a[|a| - 1]);
    }
    InitFacts(a);
    InitFacts(b);
  }

  lemma LastIsNewest(evs: seq<Visit>, e: Visit)
    requires Chronological(evs) && e in evs
    ensures e == evs[|evs| - 1] || e.rank < evs[|evs| - 1].rank
  {
  }

  // ---------------------------------------------------------- the kept window

  lemma {:induction false} CountGrows(rows: seq<Visit>, plate: string, a: nat)
    requires a <= |rows|
    ensures CountPlate(rows[..a], plate) <= CountPlate(rows, plate)
  {
    if a == |rows| {
      assert rows[..a] == rows;
    } else {
      CountGrows(rows[..|rows| - 1], plate, a);
      assert rows[..|rows| - 1][..a] == rows[..a];
    }
  }

  lemma {:induction false} KeptOrder(rows: seq<Visit>)
    requires NewestFirst(rows)
    ensures NewestFirst(Kept(rows))
    ensures forall e :: e in Kept(rows) ==> e in rows
  {
    if rows != [] {
      var n := |rows| - 1;
      KeptOrder(rows[..n]);
      assert rows == rows[..n] + [rows[n]];
      var rest := Kept(rows[..n]);
      forall i | 0 <= i < |rest|
        ensures rest[i].rank > rows[n].rank && rest[i].occurredAt >= rows[n].occurredAt
      {
        assert rest[i] in rest;
      }
    }
  }

  /** A row is kept exactly when fewer than the limit of its plate's rows are newer. */
  lemma {:induction false} KeptExactly(rows: seq<Visit>, a: nat)
    requires NewestFirst(rows) && a < |rows|
    ensures rows[a] in Kept(rows) <==> CountPlate(rows[..a], rows[a].key.plate) < 500
    decreases |rows|
  {
    var newer, ev := rows[..|rows| - 1], rows[|rows| - 1];
    var rest := Kept(newer);
    if a == |newer| {
      assert ev !in rest by { KeptOrder(newer); }
    } else {
      KeptExactly(newer, a);
      assert newer[a] == rows[a] && newer[..a] == rows[..a];
      assert rows[a] != ev && (rows[a] in rest + [ev] <==> rows[a] in rest);
    }
  }

  /** No plate contributes more than the scan limit. */
  lemma {:induction false} KeptPerPlate(rows: seq<Visit>, plate: string)
    ensures CountPlate(Kept(rows), plate) == Min(CountPlate(rows, plate), SCAN_LIMIT_PER_PLATE)
  {
    if rows != [] {
      var rest := Kept(rows[..|rows| - 1]);
      KeptPerPlate(rows[..|rows| - 1], plate);
      assert (rest + [rows[|rows| - 1]])[..|rest|] == rest;
    }
  }

  lemma RowsFacts(table: seq<AccessEvent>, plates: set<string>)
    requires InOrder(table)
    ensures Chronological(Allowed(table, plates))
    ensures NewestFirst(Rows(table, plates))
    ensures forall e :: e in Rows(table, plates) ==> e in Allowed(table, plates)
  {
    AllowedFacts(table, plates);
    var all := Allowed(table, plates);
    ReversedMembers(all);
    assert Rows(table, plates) <= Reversed(all);
  }

  lemma RowsIndex(table: seq<AccessEvent>, plates: set<string>, i: nat)
    requires InOrder(table) && i < |Allowed(table, plates)|
    ensures var all, rows := Allowed(table, plates), Rows(table, plates);
            if |all| - 1 - i < |rows| then rows[|all| - 1 - i] == all[i] else all[i] !in rows
  {
    var all, rows := Allowed(table, plates), Rows(table, plates);
    assert Chronological(all) by { AllowedFacts(table, plates); }
    forall b | 0 <= b < |rows| ensures rows[b] == all[|all| - 1 - b] {
    }
    assert forall b :: 0 <= b < |rows| && b != |all| - 1 - i ==> rows[b] != all[i];
  }

  lemma NewerOfPlateKept(rows: seq<Visit>, b: nat, a: nat)
    requires NewestFirst(rows) && b <= a < |rows| && rows[b].key.plate == rows[a].key.plate && rows[a] in Kept(rows)
    ensures rows[b] in Kept(rows)
  {
    KeptExactly(rows, a);
    KeptExactly(rows, b);
    CountGrows(rows[..a], rows[b].key.plate, b);
    assert rows[..a][..b] == rows[..b];
  }

  lemma LaterOfPlateKept(table: seq<AccessEvent>, plates: set<string>, i: nat, j: nat)
    requires InOrder(table) && i < j < |Allowed(table, plates)|
    requires Allowed(table, plates)[i].key.plate == Allowed(table, plates)[j].key.plate
    requires Allowed(table, plates)[i] in Kept(Rows(table, plates))
    ensures Allowed(table, plates)[j] in Kept(Rows(table, plates))
  {
    var all, rows := Allowed(table, plates), Rows(table, plates);
    var a, b := |all| - 1 - i, |all| - 1 - j;
    assert NewestFirst(rows) by { RowsFacts(table, plates); }
    assert a < |rows| && rows[a] == all[i] by {
      RowsIndex(table, plates, i);
      KeptOrder(rows);
    }
    assert rows[b] == all[j] by { RowsIndex(table, plates, j); }
    NewerOfPlateKept(rows, b, a);
  }

  /** The window is, per plate, the newest events: a suffix of that plate's history. */
  lemma WindowIsSuffix(table: seq<AccessEvent>, plates: set<string>)
    requires InOrder(table)
    ensures SuffixPerPlate(Allowed(table, plates), Members(Kept(Rows(table, plates))))
  {
    var all, kept := Allowed(table, plates), Kept(Rows(table, plates));
    forall i, j | 0 <= i < j < |all| && all[i].key.plate == all[j].key.plate && all[i] in kept
      ensures all[j] in kept
    {
      LaterOfPlateKept(table, plates, i, j);
    }
  }

  lemma WindowListing(table: seq<AccessEvent>, plates: set<string>)
    requires InOrder(table)
    ensures var kept := Kept(Rows(table, plates));
            Reversed(kept) == Only(Allowed(table, plates), Members(kept))
  {
    var all, rows := Allowed(table, plates), Rows(table, plates);
    var kept := Kept(rows);
    RowsFacts(table, plates);
    KeptOrder(rows);
    ReversedMembers(kept);
    OnlyFacts(all, Members(kept));
    ListingUnique(Reversed(kept), Only(all, Members(kept)));
  }

  /** `history` over the scanned window lists exactly the full history's sessions whose entry
      is inside the window: the scan limit hides old sessions and changes none. */
  lemma HistoryIsTruncatedHistory(table: seq<AccessEvent>, plates: set<string>)
    requires InOrder(table)
    ensures var kept := Kept(Rows(table, plates));
            Pairs(Reversed(kept)) == EnteredIn(Pairs(Allowed(table, plates)), Members(kept))
  {
    RowsFacts(table, plates);
    WindowIsSuffix(table, plates);
    WindowListing(table, plates);
    TruncationSound(Allowed(table, plates), Members(Kept(Rows(table, plates))));
  }

  // ----------------------------------------------------------------- paging

  /** The order of the listing: newer exit time first, and at the same time the earlier row. */
  ghost predicate ListedBefore(p: Stay, q: Stay) {
    || p.exit.occurredAt > q.exit.occurredAt
    || (p.exit.occurredAt == q.exit.occurredAt && p.exit.rank < q.exit.rank)
  }

  ghost predicate ExitsDescend(ps: seq<Stay>) {
    forall i, j :: 0 <= i < j < |ps| ==> ListedBefore(ps[i], ps[j])
  }

  lemma {:induction false} InsertByExitKeeps(p: Stay, ps: seq<Stay>)
    ensures multiset(InsertByExit(p, ps)) == multiset(ps) + multiset{p}
  {
    if ps != [] && ps[0].exit.occurredAt > p.exit.occurredAt {
      InsertByExitKeeps(p, ps[1..]);
      assert ps == [ps[0]] + ps[1..];
    }
  }

  lemma InsertByExitMembers(p: Stay, ps: seq<Stay>)
    ensures forall q :: q in InsertByExit(p, ps) <==> q == p || q in ps
  {
    InsertByExitKeeps(p, ps);
    forall q ensures q in InsertByExit(p, ps) <==> q == p || q in ps {
      assert q in InsertByExit(p, ps) <==> q in multiset(InsertByExit(p, ps));
    }
  }

  lemma DescendCons(p: Stay, ps: seq<Stay>)
    requires ExitsDescend(ps) && forall q :: q in ps ==> ListedBefore(p, q)
    ensures ExitsDescend([p] + ps)
  {
    forall i, j | 0 <= i < j < |ps| + 1 ensures ListedBefore(([p] + ps)[i], ([p] + ps)[j]) {
      assert ps[j - 1] in ps;
    }
  }

  lemma {:induction false} InsertByExitSorts(p: Stay, ps: seq<Stay>)
    requires ExitsDescend(ps) && forall q :: q in ps ==> p.exit.rank < q.exit.rank
    ensures ExitsDescend(InsertByExit(p, ps))
  {
    if ps == [] || ps[0].exit.occurredAt <= p.exit.occurredAt {
      forall q | q in ps ensures ListedBefore(p, q) {
        var i :| 0 <= i < |ps| && ps[i] == q;
        assert i == 0 || ListedBefore(ps[0], ps[i]);
      }
      DescendCons(p, ps);
    } else {
      InsertByExitSorts(p, ps[1..]);
      InsertByExitMembers(p, ps[1..]);
      forall q | q in ps[1..] ensures ListedBefore(ps[0], q) {
        var i :| 0 <= i < |ps| - 1 && ps[1..][i] == q;
        assert ps[i + 1] == q;
      }
      DescendCons(ps[0], InsertByExit(p, ps[1..]));
    }
  }

  /** The listing is a permutation of the sessions. */
  lemma {:induction false} NewestExitFirstKeeps(ps: seq<Stay>)
    ensures multiset(NewestExitFirst(ps)) == multiset(ps)
  {
    if ps != [] {
      NewestExitFirstKeeps(ps[1..]);
      InsertByExitKeeps(ps[0], NewestExitFirst(ps[1..]));
      assert ps == [ps[0]] + ps[1..];
    }
  }

  lemma {:induction false} NewestExitFirstSorts(ps: seq<Stay>)
    requires forall i, j :: 0 <= i < j < |ps| ==> ps[i].exit.rank < ps[j].exit.rank
    ensures ExitsDescend(NewestExitFirst(ps))
  {
    if ps != [] {
      var rest := ps[1..];
      NewestExitFirstSorts(rest);
      NewestExitFirstKeeps(rest);
      forall q | q in NewestExitFirst(rest) ensures ps[0].exit.rank < q.exit.rank {
        assert q in multiset(rest);
        var i :| 0 <= i < |rest| && rest[i] == q;
        assert ps[i + 1] == q;
      }
      InsertByExitSorts(ps[0], NewestExitFirst(rest));
    }
  }

  /** What `history` pages through: every session once, newest exit first, ties in row order. */
  lemma HistoryOrder(evs: seq<Visit>)
    requires Chronological(evs)
    ensures ExitsDescend(NewestExitFirst(Pairs(evs)))
    ensures multiset(NewestExitFirst(Pairs(evs))) == multiset(Pairs(evs))
  {
    PairsWellNested(evs);
    NewestExitFirstSorts(Pairs(evs));
    NewestExitFirstKeeps(Pairs(evs));
  }

  function PagesUpTo<T>(all: seq<T>, pages: nat, limit: nat): seq<T> {
    if pages == 0 then [] else PagesUpTo(all, pages - 1, limit) + Page(all, pages, limit)
  }

  /** The first pages, one after another, are a prefix: no row is skipped or shown twice, and
      enough pages show everything. */
  lemma {:induction false} PagesPartition<T>(all: seq<T>, pages: nat, limit: nat)
    ensures PagesUpTo(all, pages, limit) == all[..Min(pages * limit, |all|)]
    ensures pages * limit >= |all| ==> PagesUpTo(all, pages, limit) == all
  {
    if pages == 0 {
      assert pages * limit == 0;
    } else {
      PagesPartition(all, pages - 1, limit);
      assert pages * limit == (pages - 1) * limit + limit;
      assert (pages - 1) * limit >= 0;
    }
  }

  // ---------------------------------------------------------- active sessions

  ghost predicate NewestOfPlate(evs: seq<Visit>, e: Visit) {
    e in evs && forall f :: f in evs && f.key.plate == e.key.plate ==> f.rank <= e.rank
  }

  lemma {:induction false} CountZero(rows: seq<Visit>, plate: string)
    ensures CountPlate(rows, plate) == 0 <==> forall f :: f in rows ==> f.key.plate != plate
  {
    if rows != [] {
      CountZero(rows[..|rows| - 1], plate);
      assert rows == rows[..|rows| - 1] + [rows[|rows| - 1]];
    }
  }

  lemma {:induction false} LatestFacts(rows: seq<Visit>)
    requires NewestFirst(rows)
    ensures forall e :: e in Latest(rows) <==> NewestOfPlate(rows, e)
  {
    if rows != [] {
      var n := |rows| - 1;
      LatestFacts(rows[..n]);
      forall e ensures e in Latest(rows) <==> NewestOfPlate(rows, e) {
        LatestOne(rows[..n], rows[n], e);
        assert rows == rows[..n] + [rows[n]];
      }
    }
  }

  /** One older row: it is the newest of its plate exactly when its plate was not there. */
  lemma LatestOne(newer: seq<Visit>, ev: Visit, e: Visit)
    requires NewestFirst(newer + [ev]) && (e in Latest(newer) <==> NewestOfPlate(newer, e))
    ensures e in Latest(newer + [ev]) <==> NewestOfPlate(newer + [ev], e)
  {
    var rows := newer + [ev];
    assert rows[..|newer|] == newer;
    CountZero(newer, ev.key.plate);
    forall f | f in newer ensures f.rank > ev.rank {
      var i :| 0 <= i < |newer| && newer[i] == f;
      assert rows[i] == f && rows[|newer|] == ev;
    }
    if e in newer {
      assert NewestOfPlate(newer, e) <==> NewestOfPlate(rows, e);
    } else {
      assert !NewestOfPlate(newer, e);
    }
  }

  lemma {:induction false} EntriesOnlyFacts(evs: seq<Visit>)
    ensures forall e :: e in EntriesOnly(evs) <==> e in evs && e.direction == Entry
  {
    if evs != [] {
      EntriesOnlyFacts(evs[..|evs| - 1]);
      assert evs == evs[..|evs| - 1] + [evs[|evs| - 1]];
    }
  }

  ghost function Parked(table: seq<AccessEvent>, plates: set<string>): seq<Visit> {
    EntriesOnly(Latest(Kept(Rows(table, plates))))
  }

  lemma ParkedFacts(table: seq<AccessEvent>, plates: set<string>, e: Visit)
    requires InOrder(table)
    ensures e in Parked(table, plates) <==> e.direction == Entry && NewestOfPlate(Kept(Rows(table, plates)), e)
  {
    var kept := Kept(Rows(table, plates));
    RowsFacts(table, plates);
    KeptOrder(Rows(table, plates));
    LatestFacts(kept);
    EntriesOnlyFacts(Latest(kept));
  }

  /** A PARKED row is the newest event of its plate in the whole history, not just in the
      window, and it is an entry. */
  lemma ParkedIsNewest(table: seq<AccessEvent>, plates: set<string>, e: Visit)
    requires InOrder(table) && e in Parked(table, plates)
    ensures e.direction == Entry && NewestOfPlate(Allowed(table, plates), e)
  {
    var all, kept := Allowed(table, plates), Kept(Rows(table, plates));
    ParkedFacts(table, plates, e);
    assert Chronological(all) && e in all by {
      RowsFacts(table, plates);
      KeptOrder(Rows(table, plates));
    }
    var i :| 0 <= i < |all| && all[i] == e;
    forall j | 0 <= j < |all| && all[j].key.plate == e.key.plate ensures all[j].rank <= e.rank {
      if i < j {
        LaterOfPlateKept(table, plates, i, j);
      }
    }
  }

  /** An entry reported PARKED is in no session of the full history, so the two lists a driver
      sees never contradict each other. */
  lemma ParkedInNoSession(table: seq<AccessEvent>, plates: set<string>, e: Visit)
    requires InOrder(table) && e in Parked(table, plates)
    ensures forall p :: p in Pairs(Allowed(table, plates)) ==> p.entry != e && p.exit != e
  {
    ParkedIsNewest(table, plates, e);
    RowsFacts(table, plates);
    var all := Allowed(table, plates);
    PairsWellNested(all);
    forall p | p in Pairs(all) ensures p.entry != e && p.exit != e {
      assert StayOk(all, p);
    }
  }

  /** When the promise "one PARKED row per plate whose latest event is an entry" is kept: the
      newest entry of a plate is reported exactly when fewer than the row limit of events,
      over all the driver's plates together, are newer than it. */
  lemma ParkedExactly(table: seq<AccessEvent>, plates: set<string>, i: nat)
    requires InOrder(table)
    requires i < |Allowed(table, plates)|
    requires NewestOfPlate(Allowed(table, plates), Allowed(table, plates)[i])
    requires Allowed(table, plates)[i].direction == Entry
    ensures Allowed(table, plates)[i] in Parked(table, plates)
            <==> |Allowed(table, plates)| - 1 - i < 500 * |plates|
  {
    var all, rows := Allowed(table, plates), Rows(table, plates);
    var e, a := all[i], |all| - 1 - i;
    assert e in Parked(table, plates) <==> NewestOfPlate(Kept(rows), e) by {
      ParkedFacts(table, plates, e);
    }
    if a < RowLimit(plates) {
      assert e in Kept(rows) by {
        FirstOfPlateKept(table, plates, i);
      }
      assert forall f :: f in Kept(rows) ==> f in all by {
        KeptAreAllowed(table, plates);
      }
    } else {
      assert e !in Kept(rows) by {
        BeyondLimitDropped(table, plates, i);
      }
    }
  }

  lemma KeptAreAllowed(table: seq<AccessEvent>, plates: set<string>)
    requires InOrder(table)
    ensures forall f :: f in Kept(Rows(table, plates)) ==> f in Rows(table, plates) && f in Allowed(table, plates)
  {
    RowsFacts(table, plates);
    KeptOrder(Rows(table, plates));
  }

  lemma BeyondLimitDropped(table: seq<AccessEvent>, plates: set<string>, i: nat)
    requires InOrder(table) && i < |Allowed(table, plates)| && |Allowed(table, plates)| - 1 - i >= RowLimit(plates)
    ensures Allowed(table, plates)[i] !in Kept(Rows(table, plates))
  {
    RowsIndex(table, plates, i);
    KeptAreAllowed(table, plates);
  }

  /** The newest row of a plate is within the plate's own limit. */
  lemma FirstOfPlateKept(table: seq<AccessEvent>, plates: set<string>, i: nat)
    requires InOrder(table) && i < |Allowed(table, plates)| && |Allowed(table, plates)| - 1 - i < RowLimit(plates)
    requires NewestOfPlate(Allowed(table, plates), Allowed(table, plates)[i])
    ensures Allowed(table, plates)[i] in Kept(Rows(table, plates))
  {
    var all, rows := Allowed(table, plates), Rows(table, plates);
    var e, a := all[i], |all| - 1 - i;
    RowsFacts(table, plates);
    assert a < |rows| && rows[a] == e by { RowsIndex(table, plates, i); }
    assert CountPlate(rows[..a], e.key.plate) == 0 by {
      forall f | f in rows[..a] ensures f.key.plate != e.key.plate {
        var b :| 0 <= b < a && rows[b] == f;
        assert f in rows && f in all;
      }
      CountZero(rows[..a], e.key.plate);
    }
    KeptExactly(rows, a);
  }

  ghost predicate PlatesDistinct(evs: seq<Visit>) {
    forall i, j :: 0 <= i < j < |evs| ==> evs[i].key.plate != evs[j].key.plate
  }

  lemma DistinctSnoc(evs: seq<Visit>, e: Visit)
    requires PlatesDistinct(evs) && forall f :: f in evs ==> f.key.plate != e.key.plate
    ensures PlatesDistinct(evs + [e])
  {
    assert forall i :: 0 <= i < |evs| ==> evs[i] in evs;
  }

  lemma {:induction false} LatestPlatesDistinct(rows: seq<Visit>)
    ensures PlatesDistinct(Latest(rows))
    ensures forall e :: e in Latest(rows) ==> e in rows
  {
    if rows != [] {
      var n := |rows| - 1;
      var newer, ev := rows[..n], rows[n];
      LatestPlatesDistinct(newer);
      assert forall e :: e in newer ==> e in rows;
      if CountPlate(newer, ev.key.plate) == 0 {
        CountZero(newer, ev.key.plate);
        DistinctSnoc(Latest(newer), ev);
      }
    }
  }

  lemma {:induction false} EntriesPlatesDistinct(evs: seq<Visit>)
    requires PlatesDistinct(evs)
    ensures PlatesDistinct(EntriesOnly(evs))
  {
    if evs != [] {
      var n := |evs| - 1;
      assert PlatesDistinct(evs[..n]);
      EntriesPlatesDistinct(evs[..n]);
      EntriesOnlyFacts(evs[..n]);
      forall f | f in EntriesOnly(evs[..n]) ensures f.key.plate != evs[n].key.plate {
        var k :| 0 <= k < n && evs[..n][k] == f;
        assert evs[k] == f;
      }
      DistinctSnoc(EntriesOnly(evs[..n]), evs[n]);
    }
  }

  /** No plate is listed as parked twice. */
  lemma ParkedOncePerPlate(table: seq<AccessEvent>, plates: set<string>)
    ensures PlatesDistinct(Parked(table, plates))
  {
    LatestPlatesDistinct(Kept(Rows(table, plates)));
    EntriesPlatesDistinct(Latest(Kept(Rows(table, plates))));
  }

  // A plate that was seen so often lately that it fills the whole scan.

  function Busy(n: nat): seq<AccessEvent> {
    [AccessEvent(0, 0, true, Some(1), Some("B"), Entry)] +
      seq(n, (i: nat) => AccessEvent(i + 1, i + 1, true, Some(1), Some("A"), Exit))
  }

  lemma BusyInOrder(n: nat)
    ensures InOrder(Busy(n))
  {
  }

  lemma BusySnoc(n: nat)
    ensures Busy(n + 1) == Busy(n) + [AccessEvent(n + 1, n + 1, true, Some(1), Some("A"), Exit)]
  {
  }

  lemma AllowedSnoc(table: seq<AccessEvent>, ev: AccessEvent, plates: set<string>)
    ensures Allowed(table + [ev], plates) ==
            if Selected(ev, plates) then Allowed(table, plates) + [AsVisit(ev)] else Allowed(table, plates)
  {
    assert (table + [ev])[..|table|] == table;
  }

  /** Its visits: the entry of B, then only visits of A. */
  ghost predicate BusyVisits(all: seq<Visit>, n: nat) {
    && |all| == n + 1 && all[0] == Visit(0, 0, Key("B", 1), Entry)
    && forall i :: 1 <= i <= n ==> all[i].key.plate == "A"
  }

  lemma {:induction false} BusySelected(n: nat)
    ensures BusyVisits(Allowed(Busy(n), {"A", "B"}), n)
  {
    if n == 0 {
      NormalizeFixes("B");
      AllowedSnoc([], Busy(0)[0], {"A", "B"});
      assert Busy(0) == [] + [Busy(0)[0]];
    } else {
      BusySelected(n - 1);
      BusyGrows(n - 1, Allowed(Busy(n - 1), {"A", "B"}));
    }
  }

  lemma BusyGrows(n: nat, all: seq<Visit>)
    requires all == Allowed(Busy(n), {"A", "B"}) && BusyVisits(all, n)
    ensures BusyVisits(Allowed(Busy(n + 1), {"A", "B"}), n + 1)
  {
    var ev := AccessEvent(n + 1, n + 1, true, Some(1), Some("A"), Exit);
    var v := Visit(n + 1, n + 1, Key("A", 1), Exit);
    assert Allowed(Busy(n + 1), {"A", "B"}) == all + [v] by {
      NormalizeFixes("A");
      BusySnoc(n);
      AllowedSnoc(Busy(n), ev, {"A", "B"});
    }
    assert BusyVisits(all + [v], n + 1);
  }

  /** That promise fails beyond it: plate B's newest event is an entry, and with a thousand
      newer events of plate A the driver is not shown as parked. */
  lemma ParkedStarved()
    ensures var table, plates := Busy(1000), {"A", "B"};
            var e := Visit(0, 0, Key("B", 1), Entry);
            InOrder(table) && NewestOfPlate(Allowed(table, plates), e) && e !in Parked(table, plates)
  {
    BusyInOrder(1000);
    BusySelected(1000);
    var all := Allowed(Busy(1000), {"A", "B"});
    assert NewestOfPlate(all, all[0]) by {
      forall f | f in all && f.key.plate == "B" ensures f.rank <= 0 {
        var i :| 0 <= i < |all| && all[i] == f;
      }
      assert all[0] in all;
    }
    assert |{"A", "B"}| == 2;
    ParkedExactly(Busy(1000), {"A", "B"}, 0);
  }
}
