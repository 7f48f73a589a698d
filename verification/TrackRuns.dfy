/** What whole runs of the track-state manager promise: the grammar of each track's events, plate
    reporting per lifespan, and the exact moment a lost track is declared gone. */
module TrackRuns {
  import opened Prelude
  import opened TrackLifecycle

  // ------------------------------------------------- lifespans, read off the history alone

  datatype Sighting = Sighting(text: string, confidence: real)

  /** What has been accepted for, and reported of, a track since it last entered. */
  datatype Life = Life(accepted: seq<Sighting>, emitted: set<string>)

  function LifeStep(life: Option<Life>, item: Item): Option<Life> {
    match item
    case Enter(_, _) => Some(Life([], {}))
    case Relocate(_, _, _) => life
    case Recognize(_, _, text) =>
      if life.None? then None else Some(life.value.(emitted := life.value.emitted + {text}))
    case Leave(_, _, _) => None
    case Accept(_, text, confidence) =>
      if life.None? then None
      else Some(life.value.(accepted := life.value.accepted + [Sighting(text, confidence)]))
  }

  function LifeOf(trace: seq<Item>, id: TrackId): Option<Life> {
    if trace == [] then None
    else
      var before := LifeOf(trace[..|trace| - 1], id);
      if trace[|trace| - 1].id != id then before else LifeStep(before, trace[|trace| - 1])
  }

  /** The earliest reading of greatest confidence. */
  function Best(readings: seq<Sighting>): (r: Option<nat>)
    ensures r.None? <==> readings == []
    ensures r.Some? ==> r.value < |readings|
    ensures r.Some? ==> forall i :: 0 <= i < |readings| ==> readings[i].confidence <= readings[r.value].confidence
    ensures r.Some? ==> forall i :: 0 <= i < r.value ==> readings[i].confidence < readings[r.value].confidence
  {
    if readings == [] then None
    else
      var n := |readings| - 1;
      var b := Best(readings[..n]);
      if b.None? || readings[n].confidence > readings[b.value].confidence then Some(n) else b
  }

  function BestPlate(readings: seq<Sighting>): Option<string> {
    var b := Best(readings);
    if b.None? then None else Some(readings[b.value].text)
  }

  function BestConfidence(readings: seq<Sighting>): real {
    var b := Best(readings);
    if b.None? then -1.0 else readings[b.value].confidence
  }

  function Texts(readings: seq<Sighting>): set<string> {
    if readings == [] then {} else Texts(readings[..|readings| - 1]) + {readings[|readings| - 1].text}
  }

  /** When an item may come next, given the lifespan of its track. */
  predicate LegalNext(life: Option<Life>, item: Item) {
    match item
    case Enter(_, _) => life.None?
    case Relocate(_, _, plate) => life.Some? && plate == BestPlate(life.value.accepted)
    case Recognize(_, _, text) =>
      life.Some? && text !in life.value.emitted && text in Texts(life.value.accepted)
    case Leave(_, _, plate) => life.Some? && plate == BestPlate(life.value.accepted)
    case Accept(_, _, _) => life.Some?
  }

  predicate Legal(trace: seq<Item>) {
    if trace == [] then true
    else
      var n := |trace| - 1;
      Legal(trace[..n]) && LegalNext(LifeOf(trace[..n], trace[n].id), trace[n])
  }

  lemma LifeSnoc(trace: seq<Item>, item: Item, id: TrackId)
    ensures LifeOf(trace + [item], id) ==
            if item.id != id then LifeOf(trace, id) else LifeStep(LifeOf(trace, id), item)
  {
    var t := trace + [item];
    assert t[..|t| - 1] == trace;
  }

  lemma LegalSnoc(trace: seq<Item>, item: Item)
    requires Legal(trace) && LegalNext(LifeOf(trace, item.id), item)
    ensures Legal(trace + [item])
  {
    var t := trace + [item];
    assert t[..|t| - 1] == trace;
  }

  // --------------------------------------------- the live states agree with the history

  predicate Fits(s: TrackState, life: Life) {
    && s.emitted == life.emitted == Texts(life.accepted)
    && s.best == BestPlate(life.accepted)
    && s.bestConfidence == BestConfidence(life.accepted)
  }

  predicate AgreeAt(w: World, id: TrackId) {
    var life := LifeOf(w.trace, id);
    if id in w.states then life.Some? && Fits(w.states[id], life.value) else life.None?
  }

  ghost predicate Agree(w: World) { Legal(w.trace) && forall id :: AgreeAt(w, id) }

  lemma BestSnoc(readings: seq<Sighting>, s: Sighting)
    requires s.confidence >= 0.0
    ensures BestPlate(readings + [s]) ==
            if s.confidence > BestConfidence(readings) then Some(s.text) else BestPlate(readings)
    ensures BestConfidence(readings + [s]) ==
            if s.confidence > BestConfidence(readings) then s.confidence else BestConfidence(readings)
    ensures Texts(readings + [s]) == Texts(readings) + {s.text}
  {
    var all := readings + [s];
    assert all[..|all| - 1] == readings;
  }

  lemma SeeKeepsAgree(cfg: Settings, w: World, frame: int, track: Track)
    requires Agree(w)
    ensures Agree(See(cfg, w, frame, track))
  {
    var w' := See(cfg, w, frame, track);
    assert AgreeAt(w, track.id);
    if w'.trace != w.trace {
      var item := w'.trace[|w.trace|];
      assert w'.trace == w.trace + [item] && item.id == track.id;
      LegalSnoc(w.trace, item);
      forall id ensures AgreeAt(w', id) {
        assert AgreeAt(w, id);
        LifeSnoc(w.trace, item, id);
      }
    } else {
      forall id ensures AgreeAt(w', id) {
        assert AgreeAt(w, id);
      }
    }
  }

  lemma PlaceAt(w: World, id: TrackId, text: string, confidence: real, other: TrackId)
    requires id in w.states && confidence >= 0.0 && AgreeAt(w, id) && AgreeAt(w, other)
    ensures AgreeAt(Place(w, id, text, confidence), other)
  {
    var s := w.states[id];
    var accepted := w.trace + [Accept(id, text, confidence)];
    LifeSnoc(w.trace, Accept(id, text, confidence), other);
    if text !in s.emitted {
      LifeSnoc(accepted, Recognize(id, s.position, text), other);
    }
    if other == id {
      BestSnoc(LifeOf(w.trace, id).value.accepted, Sighting(text, confidence));
    }
  }

  lemma PlaceLegal(w: World, id: TrackId, text: string, confidence: real)
    requires id in w.states && confidence >= 0.0 && AgreeAt(w, id) && Legal(w.trace)
    ensures Legal(Place(w, id, text, confidence).trace)
  {
    var s := w.states[id];
    var item := Accept(id, text, confidence);
    LegalSnoc(w.trace, item);
    LifeSnoc(w.trace, item, id);
    BestSnoc(LifeOf(w.trace, id).value.accepted, Sighting(text, confidence));
    if text !in s.emitted {
      LegalSnoc(w.trace + [item], Recognize(id, s.position, text));
    }
  }

  lemma PlaceKeepsAgree(w: World, id: TrackId, text: string, confidence: real)
    requires Agree(w) && id in w.states && confidence >= 0.0
    ensures Agree(Place(w, id, text, confidence))
  {
    assert AgreeAt(w, id);
    PlaceLegal(w, id, text, confidence);
    forall other ensures AgreeAt(Place(w, id, text, confidence), other) {
      assert AgreeAt(w, other);
      PlaceAt(w, id, text, confidence, other);
    }
  }

  lemma ExpireKeepsAgree(cfg: Settings, w: World, u: Update, gone: TrackId)
    requires Agree(w)
    ensures Agree(Expire(cfg, w, u, gone))
  {
    if Gone(cfg, w, u, gone) {
      var w' := Expire(cfg, w, u, gone);
      var item := Leave(gone, w.states[gone].position, w.states[gone].best);
      assert AgreeAt(w, gone);
      LegalSnoc(w.trace, item);
      forall id ensures AgreeAt(w', id) {
        assert AgreeAt(w, id);
        LifeSnoc(w.trace, item, id);
      }
    }
  }

  /** Confidences lie between 0 and 1, as the observation type enforces. */
  predicate UpdateOk(u: Update) {
    forall i :: 0 <= i < |u.readings| && u.readings[i].confidence.Some? ==>
      0.0 <= u.readings[i].confidence.value <= 1.0
  }

  lemma {:induction false} SeeAllKeepsAgree(cfg: Settings, w: World, u: Update, n: nat)
    requires Agree(w) && n <= |u.tracks|
    ensures Agree(SeeAll(cfg, w, u, n))
  {
    if n > 0 {
      SeeAllKeepsAgree(cfg, w, u, n - 1);
      SeeKeepsAgree(cfg, SeeAll(cfg, w, u, n - 1), u.frame, u.tracks[n - 1]);
    }
  }

  lemma ObserveKeepsAgree(w: World, tracks: seq<Track>, r: Reading)
    requires Agree(w)
    requires r.confidence.Some? ==> r.confidence.value >= 0.0
    ensures Agree(Observe(w, tracks, r))
  {
    var k := TrackFor(r.vehicle.box, tracks);
    if k.Some? && tracks[k.value].id in w.states && Usable(r) {
      PlaceKeepsAgree(w, tracks[k.value].id, r.text, r.confidence.value);
    }
  }

  lemma {:induction false} ObserveAllKeepsAgree(w: World, u: Update, n: nat)
    requires Agree(w) && UpdateOk(u) && n <= |u.readings|
    ensures Agree(ObserveAll(w, u, n))
  {
    if n > 0 {
      ObserveAllKeepsAgree(w, u, n - 1);
      ObserveKeepsAgree(ObserveAll(w, u, n - 1), u.tracks, u.readings[n - 1]);
    }
  }

  lemma {:induction false} ExpireAllKeepsAgree(cfg: Settings, w: World, u: Update, ids: seq<TrackId>, n: nat)
    requires Agree(w) && n <= |ids|
    ensures Agree(ExpireAll(cfg, w, u, ids, n))
  {
    if n > 0 {
      ExpireAllKeepsAgree(cfg, w, u, ids, n - 1);
      ExpireKeepsAgree(cfg, ExpireAll(cfg, w, u, ids, n - 1), u, ids[n - 1]);
    }
  }

  /** One update extends a legal history legally and keeps the live states in step with it. */
  lemma UpdateKeepsAgree(cfg: Settings, w: World, u: Update)
    requires Agree(w) && UpdateOk(u)
    ensures Agree(Apply(cfg, w, u))
  {
    var seen := SeeAll(cfg, w, u, |u.tracks|);
    SeeAllKeepsAgree(cfg, w, u, |u.tracks|);
    ObserveAllKeepsAgree(seen, u, |u.readings|);
    var observed := ObserveAll(seen, u, |u.readings|);
    ExpireAllKeepsAgree(cfg, observed, u, observed.order, |observed.order|);
  }

  ghost predicate Follows(cfg: Settings, w: World, u: Update, w': World) { w' == Apply(cfg, w, u) }

  /** `ws` are the states of a run: the empty one, and one after each update. */
  ghost predicate IsTrackRun(cfg: Settings, us: seq<Update>, ws: seq<World>) {
    && |ws| == |us| + 1 && ws[0] == World(map[], [], [])
    && forall i :: 0 <= i < |us| ==> Follows(cfg, ws[i], us[i], ws[i + 1])
  }

  /** Over every run each track's history is legal: it enters only when not live, everything else
      happens only while live, a text is reported at most once per lifespan and only after being
      accepted, and the plate given on exit is the earliest accepted one of greatest confidence. */
  lemma {:induction false} RunIsLegal(cfg: Settings, us: seq<Update>, ws: seq<World>, n: nat)
    requires IsTrackRun(cfg, us, ws) && n <= |us| && forall i :: 0 <= i < |us| ==> UpdateOk(us[i])
    ensures Agree(ws[n])
  {
    if n > 0 {
      RunIsLegal(cfg, us, ws, n - 1);
      assert Follows(cfg, ws[n - 1], us[n - 1], ws[n - 1 + 1]);
      UpdateKeepsAgree(cfg, ws[n - 1], us[n - 1]);
    }
  }

  // --------------------------------------------------- the grammar, said of positions

  lemma {:induction false} LegalPrefix(trace: seq<Item>, m: nat)
    requires Legal(trace) && m <= |trace|
    ensures Legal(trace[..m])
    ensures m < |trace| ==> LegalNext(LifeOf(trace[..m], trace[m].id), trace[m])
    decreases |trace|
  {
    if m == |trace| {
      assert trace[..m] == trace;
    } else {
      var n := |trace| - 1;
      LegalPrefix(trace[..n], m);
      assert trace[..n][..m] == trace[..m];
    }
  }

  predicate LeavesBetween(trace: seq<Item>, i: int, j: int, id: TrackId)
    requires 0 <= i && j <= |trace|
  {
    exists k :: i <= k < j && trace[k].Leave? && trace[k].id == id
  }

  lemma LifeAfter(trace: seq<Item>, m: nat, id: TrackId)
    requires m < |trace|
    ensures LifeOf(trace[..m + 1], id) ==
            if trace[m].id != id then LifeOf(trace[..m], id) else LifeStep(LifeOf(trace[..m], id), trace[m])
  {
    assert trace[..m + 1] == trace[..m] + [trace[m]];
    LifeSnoc(trace[..m], trace[m], id);
  }

  /** A lifespan outlives whatever may follow, except the exit. */
  lemma LifeSurvives(life: Option<Life>, item: Item)
    requires life.Some? && LegalNext(life, item) && !item.Leave?
    ensures LifeStep(life, item).Some? && life.value.emitted <= LifeStep(life, item).value.emitted
  {
  }

  lemma LifeSurvivesAt(trace: seq<Item>, m: nat, id: TrackId)
    requires Legal(trace) && m < |trace| && LifeOf(trace[..m], id).Some? && !(trace[m].Leave? && trace[m].id == id)
    ensures LifeOf(trace[..m + 1], id).Some?
    ensures LifeOf(trace[..m], id).value.emitted <= LifeOf(trace[..m + 1], id).value.emitted
  {
    LifeAfter(trace, m, id);
    if trace[m].id == id {
      LegalPrefix(trace, m);
      LifeSurvives(LifeOf(trace[..m], id), trace[m]);
    }
  }

  lemma {:induction false} LifePersists(trace: seq<Item>, i: nat, m: nat, id: TrackId)
    requires Legal(trace) && i <= m <= |trace| && LifeOf(trace[..i], id).Some?
    requires !LeavesBetween(trace, i, m, id)
    ensures LifeOf(trace[..m], id).Some?
    ensures LifeOf(trace[..i], id).value.emitted <= LifeOf(trace[..m], id).value.emitted
    decreases m
  {
    if i < m {
      assert !(trace[m - 1].Leave? && trace[m - 1].id == id);
      assert !LeavesBetween(trace, i, m - 1, id);
      LifePersists(trace, i, m - 1, id);
      LifeSurvivesAt(trace, m - 1, id);
    }
  }

  /** Two entries of one track have an exit between them. */
  lemma EntriesSeparated(trace: seq<Item>, i: nat, j: nat)
    requires Legal(trace) && i < j < |trace|
    requires trace[i].Enter? && trace[j].Enter? && trace[i].id == trace[j].id
    ensures LeavesBetween(trace, i + 1, j, trace[i].id)
  {
    var id := trace[i].id;
    assert LifeOf(trace[..i + 1], id).Some? by {
      LifeAfter(trace, i, id);
    }
    assert LifeOf(trace[..j], id).None? by {
      LegalPrefix(trace, j);
    }
    if !LeavesBetween(trace, i + 1, j, id) {
      LifePersists(trace, i + 1, j, id);
    }
  }

  lemma ReportedAfter(trace: seq<Item>, i: nat)
    requires Legal(trace) && i < |trace| && trace[i].Recognize?
    ensures var life := LifeOf(trace[..i + 1], trace[i].id); life.Some? && trace[i].text in life.value.emitted
  {
    LegalPrefix(trace, i);
    LifeAfter(trace, i, trace[i].id);
  }

  lemma UnreportedBefore(trace: seq<Item>, j: nat)
    requires Legal(trace) && j < |trace| && trace[j].Recognize?
    ensures var life := LifeOf(trace[..j], trace[j].id); life.Some? && trace[j].text !in life.value.emitted
  {
    LegalPrefix(trace, j);
  }

  /** Two reports of one plate for one track have an exit between them. */
  lemma ReportsSeparated(trace: seq<Item>, i: nat, j: nat)
    requires Legal(trace) && i < j < |trace|
    requires trace[i].Recognize? && trace[j].Recognize?
    requires trace[i].id == trace[j].id && trace[i].text == trace[j].text
    ensures LeavesBetween(trace, i + 1, j, trace[i].id)
  {
    ReportedAfter(trace, i);
    UnreportedBefore(trace, j);
    if !LeavesBetween(trace, i + 1, j, trace[i].id) {
      LifePersists(trace, i + 1, j, trace[i].id);
    }
  }

  /** A live track has an entry behind it with no exit since. */
  lemma {:induction false} LiveHasEntered(trace: seq<Item>, m: nat, id: TrackId)
    requires m <= |trace| && LifeOf(trace[..m], id).Some?
    ensures exists k :: 0 <= k < m && trace[k].Enter? && trace[k].id == id && !LeavesBetween(trace, k, m, id)
  {
    if m > 0 {
      var last := trace[m - 1];
      assert trace[..m] == trace[..m - 1] + [last];
      LifeSnoc(trace[..m - 1], last, id);
      if last.Enter? && last.id == id {
        assert !LeavesBetween(trace, m - 1, m, id);
      } else {
        LiveHasEntered(trace, m - 1, id);
        var k :| 0 <= k < m - 1 && trace[k].Enter? && trace[k].id == id && !LeavesBetween(trace, k, m - 1, id);
        assert !LeavesBetween(trace, k, m, id);
      }
    }
  }

  /** Whatever is not an entry happens inside a lifespan. */
  lemma EventsInsideLifespans(trace: seq<Item>, j: nat)
    requires Legal(trace) && j < |trace| && !trace[j].Enter?
    ensures exists k :: 0 <= k < j && trace[k].Enter? && trace[k].id == trace[j].id &&
                        !LeavesBetween(trace, k, j, trace[j].id)
  {
    LegalPrefix(trace, j);
    LiveHasEntered(trace, j, trace[j].id);
  }

  // ------------------------------------------------------- who is live, and when exits fire

  /** The last of the first `n` tracks that bears this id. */
  function LastTrack(tracks: seq<Track>, n: nat, id: TrackId): (r: Option<nat>)
    requires n <= |tracks|
    ensures r.Some? ==> r.value < n && tracks[r.value].id == id
    ensures r.Some? ==> forall i :: r.value < i < n ==> tracks[i].id != id
    ensures r.None? ==> forall i :: 0 <= i < n ==> tracks[i].id != id
  {
    if n == 0 then None
    else if tracks[n - 1].id == id then Some(n - 1) else LastTrack(tracks, n - 1, id)
  }

  predicate Tracked(u: Update, id: TrackId) { LastTrack(u.tracks, |u.tracks|, id).Some? }

  /** Where the track is in an update: its last box, should the id be listed twice. */
  function SeenBox(u: Update, id: TrackId): Box
    requires Tracked(u, id)
  {
    u.tracks[LastTrack(u.tracks, |u.tracks|, id).value].detection.box
  }

  predicate SameSpan(s: TrackState, t: TrackState) { s.position == t.position && s.lastSeen == t.lastSeen }

  function Leaves(trace: seq<Item>, id: TrackId): nat {
    if trace == [] then 0
    else
      var last := trace[|trace| - 1];
      Leaves(trace[..|trace| - 1], id) + if last.Leave? && last.id == id then 1 else 0
  }

  lemma LeavesSnoc(trace: seq<Item>, item: Item, id: TrackId)
    ensures Leaves(trace + [item], id) == Leaves(trace, id) + if item.Leave? && item.id == id then 1 else 0
  {
    var t := trace + [item];
    assert t[..|t| - 1] == trace;
  }

  lemma SeeLeaves(cfg: Settings, w: World, frame: int, track: Track, id: TrackId)
    ensures Leaves(See(cfg, w, frame, track).trace, id) == Leaves(w.trace, id)
  {
    var w' := See(cfg, w, frame, track);
    if w'.trace != w.trace {
      var item := w'.trace[|w.trace|];
      assert w'.trace == w.trace + [item];
      LeavesSnoc(w.trace, item, id);
    }
  }

  /** `r` is `w` with the tracks up to the one chosen by `k` seen in this frame. */
  predicate SeenAs(w: World, r: World, u: Update, k: Option<nat>, id: TrackId) {
    && (id in r.states <==> id in w.states || k.Some?)
    && (k.None? && id in w.states ==> SameSpan(r.states[id], w.states[id]))
    && (k.Some? ==>
          && k.value < |u.tracks|
          && r.states[id].lastSeen == u.frame
          && r.states[id].position == u.tracks[k.value].detection.box)
  }

  lemma SeeAt(cfg: Settings, w: World, r: World, u: Update, k: Option<nat>, n: nat, id: TrackId)
    requires n < |u.tracks| && SeenAs(w, r, u, k, id)
    ensures SeenAs(w, See(cfg, r, u.frame, u.tracks[n]), u, if u.tracks[n].id == id then Some(n) else k, id)
  {
  }

  lemma {:induction false} SeeAllLeaves(cfg: Settings, w: World, u: Update, n: nat, id: TrackId)
    requires n <= |u.tracks|
    ensures Leaves(SeeAll(cfg, w, u, n).trace, id) == Leaves(w.trace, id)
  {
    if n > 0 {
      SeeAllLeaves(cfg, w, u, n - 1, id);
      SeeLeaves(cfg, SeeAll(cfg, w, u, n - 1), u.frame, u.tracks[n - 1], id);
    }
  }

  lemma {:induction false} SeeAllAt(cfg: Settings, w: World, u: Update, n: nat, id: TrackId)
    requires n <= |u.tracks|
    ensures SeenAs(w, SeeAll(cfg, w, u, n), u, LastTrack(u.tracks, n, id), id)
  {
    if n > 0 {
      SeeAllAt(cfg, w, u, n - 1, id);
      SeeAt(cfg, w, SeeAll(cfg, w, u, n - 1), u, LastTrack(u.tracks, n - 1, id), n - 1, id);
    }
  }

  lemma PlaceLeaves(w: World, at: TrackId, text: string, confidence: real, id: TrackId)
    requires at in w.states
    ensures Leaves(Place(w, at, text, confidence).trace, id) == Leaves(w.trace, id)
  {
    var s, item := w.states[at], Accept(at, text, confidence);
    LeavesSnoc(w.trace, item, id);
    LeavesSnoc(w.trace + [item], Recognize(at, s.position, text), id);
  }

  lemma ObserveAt(w: World, tracks: seq<Track>, r: Reading, id: TrackId)
    ensures var w' := Observe(w, tracks, r);
      && w'.order == w.order
      && (id in w'.states <==> id in w.states)
      && (id in w.states ==> SameSpan(w'.states[id], w.states[id]))
      && Leaves(w'.trace, id) == Leaves(w.trace, id)
  {
    var k := TrackFor(r.vehicle.box, tracks);
    if k.Some? && tracks[k.value].id in w.states && Usable(r) {
      PlaceLeaves(w, tracks[k.value].id, r.text, r.confidence.value, id);
    }
  }

  lemma {:induction false} ObserveAllAt(w: World, u: Update, n: nat, id: TrackId)
    requires n <= |u.readings|
    ensures var w' := ObserveAll(w, u, n);
      && w'.order == w.order
      && (id in w'.states <==> id in w.states)
      && (id in w.states ==> SameSpan(w'.states[id], w.states[id]))
      && Leaves(w'.trace, id) == Leaves(w.trace, id)
  {
    if n > 0 {
      ObserveAllAt(w, u, n - 1, id);
      ObserveAt(ObserveAll(w, u, n - 1), u.tracks, u.readings[n - 1], id);
    }
  }

  predicate Visited(ids: seq<TrackId>, n: nat, id: TrackId)
    requires n <= |ids|
  {
    n > 0 && (ids[n - 1] == id || Visited(ids, n - 1, id))
  }

  lemma ExpireAt(cfg: Settings, w: World, u: Update, at: TrackId, id: TrackId)
    ensures var r := Expire(cfg, w, u, at);
      && (id in r.states <==> id in w.states && !(at == id && Gone(cfg, w, u, id)))
      && (id in r.states ==> r.states[id] == w.states[id])
      && Leaves(r.trace, id) == Leaves(w.trace, id) + if id in w.states && id !in r.states then 1 else 0
  {
    if Gone(cfg, w, u, at) {
      LeavesSnoc(w.trace, Leave(at, w.states[at].position, w.states[at].best), id);
    }
  }

  lemma {:induction false} ExpireAllAt(cfg: Settings, w: World, u: Update, ids: seq<TrackId>, n: nat, id: TrackId)
    requires n <= |ids|
    ensures var r := ExpireAll(cfg, w, u, ids, n);
      && (id in r.states <==> id in w.states && !(Gone(cfg, w, u, id) && Visited(ids, n, id)))
      && (id in r.states ==> r.states[id] == w.states[id])
      && Leaves(r.trace, id) == Leaves(w.trace, id) + if id in w.states && id !in r.states then 1 else 0
  {
    if n > 0 {
      ExpireAllAt(cfg, w, u, ids, n - 1, id);
      var before := ExpireAll(cfg, w, u, ids, n - 1);
      ExpireAt(cfg, before, u, ids[n - 1], id);
      assert id in before.states ==> Gone(cfg, before, u, id) == Gone(cfg, w, u, id);
    }
  }

  lemma {:induction false} VisitedAll(ids: seq<TrackId>, n: nat, id: TrackId)
    requires n <= |ids|
    ensures Visited(ids, n, id) <==> exists i :: 0 <= i < n && ids[i] == id
  {
    if n > 0 {
      VisitedAll(ids, n - 1, id);
    }
  }

  // The insertion order lists exactly the live ids.

  predicate ListedAt(w: World, id: TrackId) { id in w.order <==> id in w.states }

  lemma {:induction false} DropExactly(order: seq<TrackId>, gone: TrackId, id: TrackId)
    ensures id in Drop(order, gone) <==> id in order && id != gone
  {
    if order != [] {
      var n := |order| - 1;
      DropExactly(order[..n], gone, id);
      assert order == order[..n] + [order[n]];
    }
  }

  lemma {:induction false} SeeAllListed(cfg: Settings, w: World, u: Update, n: nat, id: TrackId)
    requires n <= |u.tracks| && ListedAt(w, id)
    ensures ListedAt(SeeAll(cfg, w, u, n), id)
  {
    if n > 0 {
      SeeAllListed(cfg, w, u, n - 1, id);
    }
  }

  lemma {:induction false} ExpireAllListed(cfg: Settings, w: World, u: Update, ids: seq<TrackId>, n: nat, id: TrackId)
    requires n <= |ids| && ListedAt(w, id)
    ensures ListedAt(ExpireAll(cfg, w, u, ids, n), id)
  {
    if n > 0 {
      ExpireAllListed(cfg, w, u, ids, n - 1, id);
      DropExactly(ExpireAll(cfg, w, u, ids, n - 1).order, ids[n - 1], id);
    }
  }

  /** After an update a track is live exactly when it is in the frame, or was live and has been
      absent no longer than the limit; it leaves exactly when it stops being live. */
  lemma UpdateAt(cfg: Settings, w: World, u: Update, id: TrackId)
    requires ListedAt(w, id)
    ensures var r := Apply(cfg, w, u);
      && (id in r.states <==> Tracked(u, id) || (id in w.states && u.frame - w.states[id].lastSeen <= cfg.ttl))
      && (id in r.states && !Tracked(u, id) ==> SameSpan(r.states[id], w.states[id]))
      && (Tracked(u, id) ==>
            && r.states[id].lastSeen == u.frame
            && r.states[id].position == SeenBox(u, id))
      && Leaves(r.trace, id) == Leaves(w.trace, id) + (if id in w.states && id !in r.states then 1 else 0)
      && ListedAt(r, id)
  {
    var seen := SeeAll(cfg, w, u, |u.tracks|);
    SeeAllAt(cfg, w, u, |u.tracks|, id);
    SeeAllLeaves(cfg, w, u, |u.tracks|, id);
    SeeAllListed(cfg, w, u, |u.tracks|, id);
    var observed := ObserveAll(seen, u, |u.readings|);
    ObserveAllAt(seen, u, |u.readings|, id);
    var ids := observed.order;
    ExpireAllAt(cfg, observed, u, ids, |ids|, id);
    ExpireAllListed(cfg, observed, u, ids, |ids|, id);
    VisitedAll(ids, |ids|, id);
    assert id in ids <==> id in observed.states;
  }

  /** The last of the first `n` updates in which the track was in the frame. */
  function LastSeen(us: seq<Update>, n: nat, id: TrackId): (r: Option<nat>)
    requires n <= |us|
    ensures r.Some? ==> r.value < n && Tracked(us[r.value], id)
    ensures r.Some? ==> forall i :: r.value < i < n ==> !Tracked(us[i], id)
    ensures r.None? ==> forall i :: 0 <= i < n ==> !Tracked(us[i], id)
  {
    if n == 0 then None
    else if Tracked(us[n - 1], id) then Some(n - 1) else LastSeen(us, n - 1, id)
  }

  /** Seen at some time, and absent no longer than the limit at update `now`. */
  predicate Present(cfg: Settings, us: seq<Update>, n: nat, now: nat, id: TrackId)
    requires n <= |us| && now < |us|
  {
    var k := LastSeen(us, n, id);
    k.Some? && us[now].frame - us[k.value].frame <= cfg.ttl
  }

  predicate FramesAdvance(us: seq<Update>) {
    forall i, j :: 0 <= i < j < |us| ==> us[i].frame <= us[j].frame
  }

  predicate LiveAs(cfg: Settings, us: seq<Update>, n: nat, w: World, id: TrackId)
    requires n <= |us|
  {
    && ListedAt(w, id)
    && (id in w.states <==> n > 0 && Present(cfg, us, n, n - 1, id))
    && (id in w.states ==>
          var last := us[LastSeen(us, n, id).value];
          w.states[id].lastSeen == last.frame && w.states[id].position == SeenBox(last, id))
  }

  lemma LiveStep(cfg: Settings, us: seq<Update>, n: nat, w: World, id: TrackId)
    requires n < |us| && FramesAdvance(us) && cfg.ttl >= 1 && LiveAs(cfg, us, n, w, id)
    ensures LiveAs(cfg, us, n + 1, Apply(cfg, w, us[n]), id)
  {
    UpdateAt(cfg, w, us[n], id);
    assert n > 0 ==> us[n - 1].frame <= us[n].frame;
  }

  /** After every run of updates, the live tracks are exactly those seen within the limit, each with
      the frame and the position of its last sighting. */
  lemma {:induction false} LiveExactly(cfg: Settings, us: seq<Update>, ws: seq<World>, n: nat, id: TrackId)
    requires IsTrackRun(cfg, us, ws) && n <= |us| && FramesAdvance(us) && cfg.ttl >= 1
    ensures LiveAs(cfg, us, n, ws[n], id)
  {
    if n > 0 {
      LiveExactly(cfg, us, ws, n - 1, id);
      assert Follows(cfg, ws[n - 1], us[n - 1], ws[n - 1 + 1]);
      LiveStep(cfg, us, n - 1, ws[n - 1], id);
    }
  }

  /** An exit fires at the first update at which the absence exceeds the limit, and at no other. */
  lemma ExitFiresExactly(cfg: Settings, us: seq<Update>, ws: seq<World>, n: nat, id: TrackId)
    requires IsTrackRun(cfg, us, ws) && n < |us| && FramesAdvance(us) && cfg.ttl >= 1
    ensures Leaves(ws[n + 1].trace, id) == Leaves(ws[n].trace, id)
      + if n > 0 && Present(cfg, us, n, n - 1, id) && !Present(cfg, us, n + 1, n, id) then 1 else 0
  {
    LiveExactly(cfg, us, ws, n, id);
    LiveExactly(cfg, us, ws, n + 1, id);
    assert Follows(cfg, ws[n], us[n], ws[n + 1]);
    UpdateAt(cfg, ws[n], us[n], id);
  }

  /** No surviving state is older than the limit. */
  lemma NoneOlderThanLimit(cfg: Settings, us: seq<Update>, ws: seq<World>, n: nat, id: TrackId)
    requires IsTrackRun(cfg, us, ws) && 0 < n <= |us| && FramesAdvance(us) && cfg.ttl >= 1 && id in ws[n].states
    ensures us[n - 1].frame - ws[n].states[id].lastSeen <= cfg.ttl
  {
    LiveExactly(cfg, us, ws, n, id);
  }

  // -------------------------------------------------------------------- head count

  function Balance(trace: seq<Item>): int {
    if trace == [] then 0
    else
      var last := trace[|trace| - 1];
      Balance(trace[..|trace| - 1]) + if last.Enter? then 1 else if last.Leave? then -1 else 0
  }

  /** Entries minus exits is the number of live tracks. */
  predicate Counted(w: World) { Balance(w.trace) == |w.states| }

  lemma BalanceSnoc(trace: seq<Item>, item: Item)
    ensures Balance(trace + [item]) == Balance(trace) + if item.Enter? then 1 else if item.Leave? then -1 else 0
  {
    var t := trace + [item];
    assert t[..|t| - 1] == trace;
  }

  lemma SeeCounted(cfg: Settings, w: World, frame: int, track: Track)
    requires Counted(w)
    ensures Counted(See(cfg, w, frame, track))
  {
    var w' := See(cfg, w, frame, track);
    if w'.trace != w.trace {
      BalanceSnoc(w.trace, w'.trace[|w.trace|]);
      assert w'.trace == w.trace + [w'.trace[|w.trace|]];
    }
    if track.id in w.states {
      assert w'.states.Keys == w.states.Keys;
      assert |w'.states| == |w'.states.Keys|;
    }
  }

  lemma PlaceCounted(w: World, id: TrackId, text: string, confidence: real)
    requires id in w.states && Counted(w)
    ensures Counted(Place(w, id, text, confidence))
  {
    var s, item := w.states[id], Accept(id, text, confidence);
    BalanceSnoc(w.trace, item);
    BalanceSnoc(w.trace + [item], Recognize(id, s.position, text));
    assert Place(w, id, text, confidence).states.Keys == w.states.Keys;
  }

  lemma ExpireCounted(cfg: Settings, w: World, u: Update, id: TrackId)
    requires Counted(w)
    ensures Counted(Expire(cfg, w, u, id))
  {
    if Gone(cfg, w, u, id) {
      BalanceSnoc(w.trace, Leave(id, w.states[id].position, w.states[id].best));
      assert (w.states - {id}).Keys == w.states.Keys - {id};
      assert |w.states| == |w.states.Keys|;
      assert |w.states - {id}| == |(w.states - {id}).Keys|;
    }
  }

  lemma {:induction false} SeeAllCounted(cfg: Settings, w: World, u: Update, n: nat)
    requires Counted(w) && n <= |u.tracks|
    ensures Counted(SeeAll(cfg, w, u, n))
  {
    if n > 0 {
      SeeAllCounted(cfg, w, u, n - 1);
      SeeCounted(cfg, SeeAll(cfg, w, u, n - 1), u.frame, u.tracks[n - 1]);
    }
  }

  lemma ObserveCounted(w: World, tracks: seq<Track>, r: Reading)
    requires Counted(w)
    ensures Counted(Observe(w, tracks, r))
  {
    var k := TrackFor(r.vehicle.box, tracks);
    if k.Some? && tracks[k.value].id in w.states && Usable(r) {
      PlaceCounted(w, tracks[k.value].id, r.text, r.confidence.value);
    }
  }

  lemma {:induction false} ObserveAllCounted(w: World, u: Update, n: nat)
    requires Counted(w) && n <= |u.readings|
    ensures Counted(ObserveAll(w, u, n))
  {
    if n > 0 {
      ObserveAllCounted(w, u, n - 1);
      ObserveCounted(ObserveAll(w, u, n - 1), u.tracks, u.readings[n - 1]);
    }
  }

  lemma {:induction false} ExpireAllCounted(cfg: Settings, w: World, u: Update, ids: seq<TrackId>, n: nat)
    requires Counted(w) && n <= |ids|
    ensures Counted(ExpireAll(cfg, w, u, ids, n))
  {
    if n > 0 {
      ExpireAllCounted(cfg, w, u, ids, n - 1);
      ExpireCounted(cfg, ExpireAll(cfg, w, u, ids, n - 1), u, ids[n - 1]);
    }
  }

  lemma UpdateCounted(cfg: Settings, w: World, u: Update)
    requires Counted(w)
    ensures Counted(Apply(cfg, w, u))
  {
    var seen := SeeAll(cfg, w, u, |u.tracks|);
    SeeAllCounted(cfg, w, u, |u.tracks|);
    var observed := ObserveAll(seen, u, |u.readings|);
    ObserveAllCounted(seen, u, |u.readings|);
    ExpireAllCounted(cfg, observed, u, observed.order, |observed.order|);
  }

  /** Over every run, entries minus exits is the number of live tracks. */
  lemma {:induction false} EntriesMinusExits(cfg: Settings, us: seq<Update>, ws: seq<World>, n: nat)
    requires IsTrackRun(cfg, us, ws) && n <= |us|
    ensures Counted(ws[n])
  {
    if n > 0 {
      EntriesMinusExits(cfg, us, ws, n - 1);
      assert Follows(cfg, ws[n - 1], us[n - 1], ws[n - 1 + 1]);
      UpdateCounted(cfg, ws[n - 1], us[n - 1]);
    }
  }
}
