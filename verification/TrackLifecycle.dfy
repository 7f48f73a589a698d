/** Per-track lifecycles (anpr-worker/edge/vehicle_tracker.py): enter, relocate, plate recognised
    and exit, with a time-to-live in frames and plate de-duplication. */
module TrackLifecycle {
  import opened Prelude

  /** Origin not negative, width and height at least one. */
  datatype Box = Box(x: int, y: int, w: int, h: int)

  predicate BoxOk(b: Box) { b.x >= 0 && b.y >= 0 && b.w >= 1 && b.h >= 1 }

  type TrackId = string

  datatype Detection = Detection(kind: string, confidence: real, box: Box)

  datatype Track = Track(id: TrackId, detection: Detection)

  /** A plate reading, the candidate it was read from and the vehicle that was cut from. */
  datatype Reading = Reading(
    candidate: nat, vehicle: Detection, text: string, accepted: bool, confidence: Option<real>)

  datatype TrackState = TrackState(
    position: Box, lastSeen: int, best: Option<string>, bestConfidence: real, emitted: set<string>)

  /** What happened, in order. `Accept` records an accepted reading; it is not an event the
      manager returns, only part of the history the promises are about. */
  datatype Item =
    | Enter(id: TrackId, position: Box)
    | Relocate(id: TrackId, position: Box, plate: Option<string>)
    | Recognize(id: TrackId, position: Box, text: string)
    | Leave(id: TrackId, position: Box, plate: Option<string>)
    | Accept(id: TrackId, text: string, confidence: real)

  /** The live states, their insertion order, and the history so far. */
  datatype World = World(states: map<TrackId, TrackState>, order: seq<TrackId>, trace: seq<Item>)

  /** How long an absence is tolerated, and when a move counts as a relocation. */
  datatype Settings = Settings(ttl: int, moved: (Box, Box) -> bool)

  datatype Update = Update(frame: int, tracks: seq<Track>, readings: seq<Reading>)

  // ----------------------------------------------------------------- geometry

  function Overlap(from: int, length: int, from': int, length': int): int {
    Max(0, Min(from + length, from' + length') - Max(from, from'))
  }

  function Intersection(a: Box, b: Box): int { Overlap(a.x, a.w, b.x, b.w) * Overlap(a.y, a.h, b.y, b.h) }

  function Union(a: Box, b: Box): int { a.w * a.h + b.w * b.h - Intersection(a, b) }

  function Iou(a: Box, b: Box): real {
    if Union(a, b) != 0 then Intersection(a, b) as real / Union(a, b) as real else 0.0
  }

  lemma OverlapFacts(from: int, length: int, from': int, length': int)
    requires length >= 1 && length' >= 1
    ensures Overlap(from, length, from', length') == Overlap(from', length', from, length)
    ensures 0 <= Overlap(from, length, from', length') <= length
    ensures Overlap(from, length, from', length') <= length'
    ensures Overlap(from, length, from', length') == length == length' ==> from == from'
  {
  }

  lemma RectangleInside(w: int, h: int, ow: int, oh: int)
    requires 0 <= ow <= w && 0 <= oh <= h && w >= 1 && h >= 1
    ensures 0 <= ow * oh <= w * h && w * h >= 1
    ensures ow * oh == w * h ==> ow == w && oh == h
  {
    MulMono(ow, w, oh);
    MulMono(oh, h, w);
    MulMono(1, w, h);
    if ow < w {
      MulMono(ow, w - 1, oh);
      assert (w - 1) * oh == w * oh - oh;
      assert ow * oh <= w * oh - oh;
    }
  }

  lemma Quotient(i: int, u: int)
    requires 0 <= i <= u && u >= 1
    ensures 0.0 <= i as real / u as real <= 1.0
    ensures i as real / u as real == 1.0 <==> i == u
    ensures i as real / u as real > 0.0 <==> i > 0
  {
  }

  /** Overlap is symmetric, between 0 and 1, and 1 only for equal boxes. */
  lemma IouFacts(a: Box, b: Box)
    requires BoxOk(a) && BoxOk(b)
    ensures Iou(a, b) == Iou(b, a)
    ensures 0.0 <= Iou(a, b) <= 1.0
    ensures Iou(a, b) == 1.0 <==> a == b
  {
    OverlapFacts(a.x, a.w, b.x, b.w);
    OverlapFacts(a.y, a.h, b.y, b.h);
    var ow, oh := Overlap(a.x, a.w, b.x, b.w), Overlap(a.y, a.h, b.y, b.h);
    RectangleInside(a.w, a.h, ow, oh);
    RectangleInside(b.w, b.h, ow, oh);
    Quotient(Intersection(a, b), Union(a, b));
    if a == b {
      assert ow == a.w && oh == a.h;
    }
  }

  /** The centre moved by at least `ratio` diagonals; squared, so that no root is needed. */
  predicate Relocated(previous: Box, current: Box, ratio: real) {
    var dx := (current.x as real + current.w as real / 2.0) - (previous.x as real + previous.w as real / 2.0);
    var dy := (current.y as real + current.h as real / 2.0) - (previous.y as real + previous.h as real / 2.0);
    var diagonal := (previous.w * previous.w + previous.h * previous.h) as real;
    dx * dx + dy * dy >= ratio * ratio * if diagonal >= 1.0 then diagonal else 1.0
  }

  /** The first track of largest overlap, if any overlaps at all. */
  function TrackFor(vehicle: Box, tracks: seq<Track>): (r: Option<nat>)
    ensures r.Some? ==> r.value < |tracks| && Iou(vehicle, tracks[r.value].detection.box) > 0.0
    ensures r.Some? ==> forall i :: 0 <= i < |tracks| ==>
              Iou(vehicle, tracks[i].detection.box) <= Iou(vehicle, tracks[r.value].detection.box)
    ensures r.Some? ==> forall i :: 0 <= i < r.value ==>
              Iou(vehicle, tracks[i].detection.box) < Iou(vehicle, tracks[r.value].detection.box)
    ensures r.None? ==> forall i :: 0 <= i < |tracks| ==> Iou(vehicle, tracks[i].detection.box) <= 0.0
  {
    if tracks == [] then None
    else
      var n := |tracks| - 1;
      var best := TrackFor(vehicle, tracks[..n]);
      var here := Iou(vehicle, tracks[n].detection.box);
      if best.Some? then (if here > Iou(vehicle, tracks[best.value].detection.box) then Some(n) else best)
      else if here > 0.0 then Some(n) else None
  }

  // ------------------------------------------------------------------ one update

  function See(cfg: Settings, w: World, frame: int, track: Track): World {
    if track.id !in w.states then
      World(w.states[track.id := TrackState(track.detection.box, frame, None, -1.0, {})],
            w.order + [track.id], w.trace + [Enter(track.id, track.detection.box)])
    else
      var s := w.states[track.id];
      World(w.states[track.id := s.(position := track.detection.box, lastSeen := frame)], w.order,
            if cfg.moved(s.position, track.detection.box)
            then w.trace + [Relocate(track.id, track.detection.box, s.best)] else w.trace)
  }

  predicate Usable(r: Reading) { r.accepted && r.text != "" && r.confidence.Some? }

  /** What one usable reading does to the state of the track it belongs to. */
  function Credit(s: TrackState, text: string, confidence: real): TrackState {
    var t := if confidence > s.bestConfidence then s.(best := Some(text), bestConfidence := confidence) else s;
    t.(emitted := s.emitted + {text})
  }

  /** Credit an accepted reading to a live track; a text new to its lifespan is reported. */
  function Place(w: World, id: TrackId, text: string, confidence: real): World
    requires id in w.states
  {
    var s := w.states[id];
    var accepted := w.trace + [Accept(id, text, confidence)];
    World(w.states[id := Credit(s, text, confidence)], w.order,
          if text !in s.emitted then accepted + [Recognize(id, s.position, text)] else accepted)
  }

  function Observe(w: World, tracks: seq<Track>, r: Reading): World {
    var k := TrackFor(r.vehicle.box, tracks);
    if k.None? || tracks[k.value].id !in w.states || !Usable(r) then w
    else Place(w, tracks[k.value].id, r.text, r.confidence.value)
  }

  function Drop(order: seq<TrackId>, id: TrackId): seq<TrackId> {
    if order == [] then []
    else
      var rest := Drop(order[..|order| - 1], id);
      if order[|order| - 1] == id then rest else rest + [order[|order| - 1]]
  }

  predicate Gone(cfg: Settings, w: World, u: Update, id: TrackId) {
    && id in w.states && u.frame - w.states[id].lastSeen > cfg.ttl
    && forall i :: 0 <= i < |u.tracks| ==> u.tracks[i].id != id
  }

  function Expire(cfg: Settings, w: World, u: Update, id: TrackId): World {
    if !Gone(cfg, w, u, id) then w
    else
      World(w.states - {id}, Drop(w.order, id),
            w.trace + [Leave(id, w.states[id].position, w.states[id].best)])
  }

  function SeeAll(cfg: Settings, w: World, u: Update, n: nat): World
    requires n <= |u.tracks|
  {
    if n == 0 then w else See(cfg, SeeAll(cfg, w, u, n - 1), u.frame, u.tracks[n - 1])
  }

  function ObserveAll(w: World, u: Update, n: nat): World
    requires n <= |u.readings|
  {
    if n == 0 then w else Observe(ObserveAll(w, u, n - 1), u.tracks, u.readings[n - 1])
  }

  function ExpireAll(cfg: Settings, w: World, u: Update, ids: seq<TrackId>, n: nat): World
    requires n <= |ids|
  {
    if n == 0 then w else Expire(cfg, ExpireAll(cfg, w, u, ids, n - 1), u, ids[n - 1])
  }

  /** See every track, then place every reading, then let the long-absent go. */
  function Apply(cfg: Settings, w: World, u: Update): World {
    var seen := SeeAll(cfg, w, u, |u.tracks|);
    var observed := ObserveAll(seen, u, |u.readings|);
    ExpireAll(cfg, observed, u, observed.order, |observed.order|)
  }

  ghost predicate Returned(before: seq<Item>, events: seq<Item>, after: seq<Item>) {
    EventsOf(after) == EventsOf(before) + events
  }

  lemma ReturnedJoin(before: seq<Item>, events: seq<Item>, middle: seq<Item>, more: seq<Item>, after: seq<Item>)
    requires Returned(before, events, middle) && Returned(middle, more, after)
    ensures Returned(before, events + more, after)
  {
    var a, b, c := EventsOf(before), EventsOf(middle), EventsOf(after);
    assert b == a + events && c == b + more;
    assert (a + events) + more == a + (events + more);
  }

  function EventsOf(items: seq<Item>): seq<Item> {
    if items == [] then []
    else
      var rest := EventsOf(items[..|items| - 1]);
      if items[|items| - 1].Accept? then rest else rest + [items[|items| - 1]]
  }

  // ---------------------------------------------------------------- the manager

  class TrackStateManager {
    const settings: Settings
    var states: map<TrackId, TrackState>
    var order: seq<TrackId>
    ghost var trace: seq<Item>

    ghost function State(): World
      reads this
    {
      World(states, order, trace)
    }

    constructor (ttl: int, ratio: real)
      requires ttl >= 1 && ratio > 0.0
      ensures settings.ttl == ttl && forall a, b :: settings.moved(a, b) <==> Relocated(a, b, ratio)
      ensures State() == World(map[], [], [])
    {
      settings := Settings(ttl, (a, b) => Relocated(a, b, ratio));
      states, order, trace := map[], [], [];
    }

    method SeeTrack(frame: int, track: Track) returns (events: seq<Item>)
      modifies this
      ensures State() == See(settings, old(State()), frame, track)
      ensures Returned(old(trace), events, trace)
    {
      events := [];
      if track.id !in states {
        states := states[track.id := TrackState(track.detection.box, frame, None, -1.0, {})];
        order := order + [track.id];
        events := [Enter(track.id, track.detection.box)];
      } else {
        var s := states[track.id];
        if settings.moved(s.position, track.detection.box) {
          events := [Relocate(track.id, track.detection.box, s.best)];
        }
        states := states[track.id := s.(position := track.detection.box, lastSeen := frame)];
      }
      if events != [] {
        trace := trace + events;
        assert trace[..|trace| - 1] == old(trace);
      }
    }

    method PlaceReading(tracks: seq<Track>, r: Reading) returns (events: seq<Item>)
      requires forall i :: 0 <= i < |tracks| ==> tracks[i].id in states
      modifies this
      ensures State() == Observe(old(State()), tracks, r)
      ensures Returned(old(trace), events, trace)
    {
      events := [];
      var k := TrackFor(r.vehicle.box, tracks);
      if k.None? || !r.accepted || r.text == "" || r.confidence.None? {
        return;
      }
      var id, confidence := tracks[k.value].id, r.confidence.value;
      var s := states[id];
      var t := s;
      if confidence > t.bestConfidence {
        t := t.(best := Some(r.text), bestConfidence := confidence);
      }
      trace := trace + [Accept(id, r.text, confidence)];
      assert trace[..|trace| - 1] == old(trace);
      ghost var accepted := trace;
      if r.text !in t.emitted {
        events := [Recognize(id, t.position, r.text)];
        trace := trace + events;
        assert trace[..|trace| - 1] == accepted;
      }
      states := states[id := t.(emitted := t.emitted + {r.text})];
    }

    method ExpireTrack(u: Update, id: TrackId) returns (events: seq<Item>)
      modifies this
      ensures State() == Expire(settings, old(State()), u, id)
      ensures Returned(old(trace), events, trace)
    {
      events := [];
      var current := set i | 0 <= i < |u.tracks| :: u.tracks[i].id;
      if id in states && id !in current && u.frame - states[id].lastSeen > settings.ttl {
        events := [Leave(id, states[id].position, states[id].best)];
        states := states - {id};
        order := Drop(order, id);
        trace := trace + events;
        assert trace[..|trace| - 1] == old(trace);
      }
    }

    method SeeTracks(u: Update) returns (events: seq<Item>)
      modifies this
      ensures State() == SeeAll(settings, old(State()), u, |u.tracks|)
      ensures forall i :: 0 <= i < |u.tracks| ==> u.tracks[i].id in states
      ensures Returned(old(trace), events, trace)
    {
      events := [];
      for i := 0 to |u.tracks|
        invariant State() == SeeAll(settings, old(State()), u, i)
        invariant forall j :: 0 <= j < i ==> u.tracks[j].id in states
        invariant Returned(old(trace), events, trace)
      {
        ghost var before := trace;
        var more := SeeTrack(u.frame, u.tracks[i]);
        ReturnedJoin(old(trace), events, before, more, trace);
        events := events + more;
      }
    }

    method PlaceReadings(u: Update) returns (events: seq<Item>)
      requires forall i :: 0 <= i < |u.tracks| ==> u.tracks[i].id in states
      modifies this
      ensures State() == ObserveAll(old(State()), u, |u.readings|)
      ensures Returned(old(trace), events, trace)
    {
      events := [];
      for i := 0 to |u.readings|
        invariant State() == ObserveAll(old(State()), u, i)
        invariant forall j :: 0 <= j < |u.tracks| ==> u.tracks[j].id in states
        invariant Returned(old(trace), events, trace)
      {
        ghost var before := trace;
        var more := PlaceReading(u.tracks, u.readings[i]);
        ReturnedJoin(old(trace), events, before, more, trace);
        events := events + more;
      }
    }

    method ExpireTracks(u: Update) returns (events: seq<Item>)
      modifies this
      ensures State() == ExpireAll(settings, old(State()), u, old(order), |old(order)|)
      ensures Returned(old(trace), events, trace)
    {
      events := [];
      var ids := order;
      for i := 0 to |ids|
        invariant State() == ExpireAll(settings, old(State()), u, ids, i)
        invariant Returned(old(trace), events, trace)
      {
        ghost var before := trace;
        var more := ExpireTrack(u, ids[i]);
        ReturnedJoin(old(trace), events, before, more, trace);
        events := events + more;
      }
    }

    method ProcessUpdate(u: Update) returns (events: seq<Item>)
      modifies this
      ensures State() == Apply(settings, old(State()), u)
      ensures Returned(old(trace), events, trace)
    {
      events := SeeTracks(u);
      ghost var seen := State();
      var recognized := PlaceReadings(u);
      ghost var observed := State();
      ReturnedJoin(old(trace), events, seen.trace, recognized, trace);
      events := events + recognized;
      var left := ExpireTracks(u);
      ReturnedJoin(old(trace), events, observed.trace, left, trace);
      events := events + left;
    }
  }
}
