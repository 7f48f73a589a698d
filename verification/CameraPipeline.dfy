/** The camera service's side tables and what it sends (anpr-worker/edge/camera_processing_service.py):
    three maps beside the tracker's own, filled and emptied as the tracker's events are emitted. */
module CameraPipeline {
  import opened Prelude
  import opened TrackLifecycle
  import opened TrackRuns

  /** A plate candidate whose crop was stored this frame. */
  datatype Candidate = Candidate(id: nat, vehicle: Detection)

  /** A frame after detection: the tracker's input and the stored candidates, in order. */
  datatype Frame = Frame(update: Update, candidates: seq<Candidate>)

  datatype Crop = Crop(candidate: nat, frame: int)

  /** The outbound events. An event's identifier is its position in the list of all sent. */
  datatype Outbound =
    | VehicleDetected(track: TrackId, frame: int)
    | PlateRecognized(track: TrackId, text: string, cause: nat)
    | SnapshotSaved(track: TrackId, exit: bool, owner: Option<nat>, evidence: Option<int>, crop: Option<Crop>)

  /** `causes`: the detection event of each track; `frames`: the frame each was last in; `crops`: the
      latest plate crop of each. */
  datatype Pipe = Pipe(
    causes: map<TrackId, nat>, frames: map<TrackId, int>, crops: map<TrackId, Crop>, sent: seq<Outbound>)

  function Get<T>(m: map<TrackId, T>, id: TrackId): Option<T> { if id in m then Some(m[id]) else None }

  function FirstTrack(tracks: seq<Track>, id: TrackId, n: nat): (r: Option<nat>)
    requires n <= |tracks|
    ensures r.Some? ==> r.value < n && tracks[r.value].id == id
    ensures r.Some? ==> forall i :: 0 <= i < r.value ==> tracks[i].id != id
    ensures r.None? ==> forall i :: 0 <= i < n ==> tracks[i].id != id
  {
    if n == 0 then None
    else
      var r := FirstTrack(tracks, id, n - 1);
      if r.Some? then r else if tracks[n - 1].id == id then Some(n - 1) else None
  }

  predicate Confirms(r: Reading, d: Detection, text: string) { r.vehicle == d && r.accepted && r.text == text }

  /** The reading of this very detection that yielded the text, if there is one. */
  predicate Confirmed(readings: seq<Reading>, d: Detection, text: string) {
    exists i :: 0 <= i < |readings| && Confirms(readings[i], d, text)
  }

  function CropFor(candidates: seq<Candidate>, d: Detection, n: nat): (r: Option<nat>)
    requires n <= |candidates|
    ensures r.Some? ==> exists i :: 0 <= i < n && candidates[i] == Candidate(r.value, d)
  {
    if n == 0 then None
    else
      var r := CropFor(candidates, d, n - 1);
      if r.Some? then r else if candidates[n - 1].vehicle == d then Some(candidates[n - 1].id) else None
  }

  // -------------------------------------------------------------- what a frame does

  /** A tracked vehicle: this is now its last frame, and its newest crop if it has one. */
  function NoteTrack(p: Pipe, f: Frame, track: Track): Pipe {
    var crop := CropFor(f.candidates, track.detection, |f.candidates|);
    p.(frames := p.frames[track.id := f.update.frame],
       crops := if crop.Some? then p.crops[track.id := Crop(crop.value, f.update.frame)] else p.crops)
  }

  function NoteAll(p: Pipe, f: Frame, n: nat): Pipe
    requires n <= |f.update.tracks|
  {
    if n == 0 then p else NoteTrack(NoteAll(p, f, n - 1), f, f.update.tracks[n - 1])
  }

  function EmitEnter(p: Pipe, f: Frame, id: TrackId): Pipe {
    if FirstTrack(f.update.tracks, id, |f.update.tracks|).None? then p
    else p.(causes := p.causes[id := |p.sent|], sent := p.sent + [VehicleDetected(id, f.update.frame)])
  }

  function EmitRelocate(p: Pipe, f: Frame, id: TrackId): Pipe {
    p.(sent := p.sent + [SnapshotSaved(id, false, Get(p.causes, id), Some(f.update.frame), Get(p.crops, id))])
  }

  function EmitRecognize(p: Pipe, f: Frame, id: TrackId, text: string): Pipe {
    var k := FirstTrack(f.update.tracks, id, |f.update.tracks|);
    if k.None? then p
    else if id !in p.causes || !Confirmed(f.update.readings, f.update.tracks[k.value].detection, text) then p
    else p.(sent := p.sent + [PlateRecognized(id, text, p.causes[id])])
  }

  function EmitLeave(p: Pipe, id: TrackId): Pipe {
    var crop := if id in p.frames then Get(p.crops, id) else None;
    Pipe(p.causes - {id}, p.frames - {id}, p.crops - {id},
         p.sent + [SnapshotSaved(id, true, Get(p.causes, id), Get(p.frames, id), crop)])
  }

  function Emit(p: Pipe, f: Frame, event: Item): Pipe {
    match event
    case Enter(id, _) => EmitEnter(p, f, id)
    case Relocate(id, _, _) => EmitRelocate(p, f, id)
    case Recognize(id, _, text) => EmitRecognize(p, f, id, text)
    case Leave(id, _, _) => EmitLeave(p, id)
    case Accept(_, _, _) => p
  }

  function EmitAll(p: Pipe, f: Frame, events: seq<Item>, n: nat): Pipe
    requires n <= |events|
  {
    if n == 0 then p else Emit(EmitAll(p, f, events, n - 1), f, events[n - 1])
  }

  // ------------------------------------------------------- what may be sent, and when

  /** The open lifespan of a track as the receiver sees it. */
  datatype Open = Open(cause: nat, since: int, reported: set<string>)

  function OpenStep(open: Option<Open>, position: nat, o: Outbound): Option<Open> {
    match o
    case VehicleDetected(_, frame) => Some(Open(position, frame, {}))
    case PlateRecognized(_, text, _) =>
      if open.None? then None else Some(open.value.(reported := open.value.reported + {text}))
    case SnapshotSaved(_, exit, _, _, _) => if exit then None else open
  }

  function OpenOf(sent: seq<Outbound>, id: TrackId): Option<Open> {
    if sent == [] then None
    else
      var n := |sent| - 1;
      var before := OpenOf(sent[..n], id);
      if sent[n].track != id then before else OpenStep(before, n, sent[n])
  }

  /** A detection opens a lifespan. A plate is sent inside one, once, and names the detection that
      opened it. Evidence names it too, always has a frame, and shows nothing older than the
      lifespan. */
  predicate MaySend(open: Option<Open>, o: Outbound) {
    match o
    case VehicleDetected(_, _) => open.None?
    case PlateRecognized(_, text, cause) =>
      open.Some? && cause == open.value.cause && text !in open.value.reported
    case SnapshotSaved(_, _, owner, evidence, crop) =>
      && open.Some? && owner == Some(open.value.cause)
      && evidence.Some? && open.value.since <= evidence.value
      && (crop.Some? ==> open.value.since <= crop.value.frame <= evidence.value)
  }

  predicate SentOk(sent: seq<Outbound>) {
    if sent == [] then true
    else
      var n := |sent| - 1;
      SentOk(sent[..n]) && MaySend(OpenOf(sent[..n], sent[n].track), sent[n])
  }

  lemma OpenSnoc(sent: seq<Outbound>, o: Outbound, id: TrackId)
    ensures OpenOf(sent + [o], id) ==
            if o.track != id then OpenOf(sent, id) else OpenStep(OpenOf(sent, id), |sent|, o)
  {
    var s := sent + [o];
    assert s[..|s| - 1] == sent;
  }

  lemma SentSnoc(sent: seq<Outbound>, o: Outbound)
    requires SentOk(sent) && MaySend(OpenOf(sent, o.track), o)
    ensures SentOk(sent + [o])
  {
    var s := sent + [o];
    assert s[..|s| - 1] == sent;
  }

  // ---------------------------------------- lifespans as the returned events show them

  function SpanStep(span: Option<set<string>>, item: Item): Option<set<string>> {
    match item
    case Enter(_, _) => Some({})
    case Leave(_, _, _) => None
    case Recognize(_, _, text) => if span.None? then None else Some(span.value + {text})
    case Relocate(_, _, _) => span
    case Accept(_, _, _) => span
  }

  /** The plates reported in the open lifespan of a track, if it has one. */
  function Span(events: seq<Item>, id: TrackId): Option<set<string>> {
    if events == [] then None
    else
      var before := Span(events[..|events| - 1], id);
      if events[|events| - 1].id != id then before else SpanStep(before, events[|events| - 1])
  }

  predicate EventNext(span: Option<set<string>>, item: Item) {
    && (item.Enter? <==> span.None?)
    && (item.Recognize? && span.Some? ==> item.text !in span.value)
  }

  predicate EventsLegal(events: seq<Item>) {
    if events == [] then true
    else
      var n := |events| - 1;
      EventsLegal(events[..n]) && EventNext(Span(events[..n], events[n].id), events[n])
  }

  function Emitted(life: Option<Life>): Option<set<string>> {
    if life.None? then None else Some(life.value.emitted)
  }

  lemma SpanSnoc(events: seq<Item>, item: Item, id: TrackId)
    ensures Span(events + [item], id) == if item.id != id then Span(events, id) else SpanStep(Span(events, id), item)
  {
    var e := events + [item];
    assert e[..|e| - 1] == events;
  }

  lemma {:induction false} SpanIsLife(trace: seq<Item>, id: TrackId)
    ensures Span(EventsOf(trace), id) == Emitted(LifeOf(trace, id))
  {
    if trace != [] {
      var n := |trace| - 1;
      SpanIsLife(trace[..n], id);
      SpanSnoc(EventsOf(trace[..n]), trace[n], id);
    }
  }

  lemma {:induction false} LegalEvents(trace: seq<Item>)
    requires Legal(trace)
    ensures EventsLegal(EventsOf(trace))
  {
    if trace != [] {
      var n := |trace| - 1;
      LegalEvents(trace[..n]);
      SpanIsLife(trace[..n], trace[n].id);
      if !trace[n].Accept? {
        var e := EventsOf(trace[..n]) + [trace[n]];
        assert e[..|e| - 1] == EventsOf(trace[..n]);
      }
    }
  }

  lemma {:induction false} EventsLegalAt(events: seq<Item>, m: nat)
    requires EventsLegal(events) && m < |events|
    ensures EventNext(Span(events[..m], events[m].id), events[m])
    decreases |events|
  {
    var n := |events| - 1;
    if m < n {
      EventsLegalAt(events[..n], m);
      assert events[..n][..m] == events[..m];
    }
  }

  // ------------------------------- an update's own events: who is in the frame, who is not

  predicate Fit(u: Update, item: Item) { item.Leave? <==> !Tracked(u, item.id) }

  /** `after` is `before` with items of this update added. */
  predicate Extends(u: Update, before: seq<Item>, after: seq<Item>) {
    && |before| <= |after| && after[..|before|] == before
    && forall i :: |before| <= i < |after| ==> Fit(u, after[i])
  }

  lemma ExtendsSnoc(u: Update, before: seq<Item>, after: seq<Item>, item: Item)
    requires Extends(u, before, after) && Fit(u, item)
    ensures Extends(u, before, after + [item])
  {
    assert (after + [item])[..|before|] == after[..|before|];
  }

  lemma TrackedById(u: Update, n: nat)
    requires n < |u.tracks|
    ensures Tracked(u, u.tracks[n].id)
  {
  }

  lemma {:induction false} SeeAllExtends(cfg: Settings, w: World, u: Update, n: nat)
    requires n <= |u.tracks|
    ensures Extends(u, w.trace, SeeAll(cfg, w, u, n).trace)
  {
    if n > 0 {
      SeeAllExtends(cfg, w, u, n - 1);
      TrackedById(u, n - 1);
      var r, track := SeeAll(cfg, w, u, n - 1), u.tracks[n - 1];
      var r' := See(cfg, r, u.frame, track);
      if r'.trace != r.trace {
        ExtendsSnoc(u, w.trace, r.trace, r'.trace[|r.trace|]);
        assert r'.trace == r.trace + [r'.trace[|r.trace|]];
      }
    }
  }

  lemma PlaceExtends(u: Update, before: seq<Item>, w: World, id: TrackId, text: string, confidence: real)
    requires Extends(u, before, w.trace) && id in w.states && Tracked(u, id)
    ensures Extends(u, before, Place(w, id, text, confidence).trace)
  {
    var item := Accept(id, text, confidence);
    ExtendsSnoc(u, before, w.trace, item);
    ExtendsSnoc(u, before, w.trace + [item], Recognize(id, w.states[id].position, text));
  }

  lemma ObserveExtends(u: Update, before: seq<Item>, w: World, r: Reading)
    requires Extends(u, before, w.trace)
    ensures Extends(u, before, Observe(w, u.tracks, r).trace)
  {
    var k := TrackFor(r.vehicle.box, u.tracks);
    if k.Some? && u.tracks[k.value].id in w.states && Usable(r) {
      TrackedById(u, k.value);
      PlaceExtends(u, before, w, u.tracks[k.value].id, r.text, r.confidence.value);
    }
  }

  lemma {:induction false} ObserveAllExtends(u: Update, before: seq<Item>, w: World, n: nat)
    requires Extends(u, before, w.trace) && n <= |u.readings|
    ensures Extends(u, before, ObserveAll(w, u, n).trace)
  {
    if n > 0 {
      ObserveAllExtends(u, before, w, n - 1);
      ObserveExtends(u, before, ObserveAll(w, u, n - 1), u.readings[n - 1]);
    }
  }

  lemma ExpireExtends(cfg: Settings, u: Update, before: seq<Item>, w: World, id: TrackId)
    requires Extends(u, before, w.trace)
    ensures Extends(u, before, Expire(cfg, w, u, id).trace)
  {
    if Gone(cfg, w, u, id) {
      ExtendsSnoc(u, before, w.trace, Leave(id, w.states[id].position, w.states[id].best));
    }
  }

  lemma {:induction false} ExpireAllExtends(
    cfg: Settings, u: Update, before: seq<Item>, w: World, ids: seq<TrackId>, n: nat)
    requires Extends(u, before, w.trace) && n <= |ids|
    ensures Extends(u, before, ExpireAll(cfg, w, u, ids, n).trace)
  {
    if n > 0 {
      ExpireAllExtends(cfg, u, before, w, ids, n - 1);
      ExpireExtends(cfg, u, before, ExpireAll(cfg, w, u, ids, n - 1), ids[n - 1]);
    }
  }

  /** An update only adds to the history, and only tracks absent from the frame leave. */
  lemma UpdateExtends(cfg: Settings, w: World, u: Update)
    ensures Extends(u, w.trace, Apply(cfg, w, u).trace)
  {
    var seen := SeeAll(cfg, w, u, |u.tracks|);
    SeeAllExtends(cfg, w, u, |u.tracks|);
    ObserveAllExtends(u, w.trace, seen, |u.readings|);
    var observed := ObserveAll(seen, u, |u.readings|);
    ExpireAllExtends(cfg, u, w.trace, observed, observed.order, |observed.order|);
  }

  lemma {:induction false} EventsExtend(u: Update, before: seq<Item>, after: seq<Item>)
    requires Extends(u, before, after)
    ensures Extends(u, EventsOf(before), EventsOf(after))
    decreases |after|
  {
    if |before| == |after| {
      assert before == after;
      assert EventsOf(after)[..|EventsOf(before)|] == EventsOf(before);
    } else {
      var n := |after| - 1;
      assert after[..n][..|before|] == before;
      EventsExtend(u, before, after[..n]);
      if !after[n].Accept? {
        ExtendsSnoc(u, EventsOf(before), EventsOf(after[..n]), after[n]);
      }
    }
  }
}
