/** What each tracker event says about where, and what each outbound event carries
    (anpr-worker/edge/vehicle_tracker.py, anpr-worker/edge/camera_processing_service.py). */
module FrameReports {
  import opened Prelude
  import opened TrackLifecycle
  import opened TrackRuns
  import opened CameraPipeline
  import opened PipelineSync

  // ------------------------------------------------------------------------ where things happen

  predicate IsListed(u: Update, id: TrackId, box: Box) {
    exists k :: 0 <= k < |u.tracks| && u.tracks[k].id == id && u.tracks[k].detection.box == box
  }

  /** Entries and relocations are where the frame lists the track, plates where it lists it last, and an
      exit is where the track was seen last. */
  predicate Placed(w: World, u: Update, item: Item) {
    match item
    case Enter(id, at) => IsListed(u, id, at)
    case Relocate(id, at, _) => IsListed(u, id, at)
    case Recognize(id, at, _) => Tracked(u, id) && at == SeenBox(u, id)
    case Leave(id, at, _) => !Tracked(u, id) && id in w.states && at == w.states[id].position
    case Accept(_, _, _) => true
  }

  ghost predicate AllPlaced(w: World, u: Update, trace: seq<Item>) {
    |w.trace| <= |trace| && forall i :: |w.trace| <= i < |trace| ==> Placed(w, u, trace[i])
  }

  lemma PlacedSnoc(w: World, u: Update, trace: seq<Item>, item: Item)
    requires AllPlaced(w, u, trace) && Placed(w, u, item)
    ensures AllPlaced(w, u, trace + [item])
  {
  }

  lemma SeePlaced(cfg: Settings, w: World, u: Update, r: World, k: nat)
    requires AllPlaced(w, u, r.trace) && k < |u.tracks|
    ensures AllPlaced(w, u, See(cfg, r, u.frame, u.tracks[k]).trace)
  {
    var t, box := u.tracks[k], u.tracks[k].detection.box;
    assert IsListed(u, t.id, box);
    if t.id !in r.states {
      PlacedSnoc(w, u, r.trace, Enter(t.id, box));
    } else {
      PlacedSnoc(w, u, r.trace, Relocate(t.id, box, r.states[t.id].best));
    }
  }

  lemma {:induction false} SeeAllPlaced(cfg: Settings, w: World, u: Update, n: nat)
    requires n <= |u.tracks|
    ensures AllPlaced(w, u, SeeAll(cfg, w, u, n).trace)
  {
    if n > 0 {
      SeeAllPlaced(cfg, w, u, n - 1);
      SeePlaced(cfg, w, u, SeeAll(cfg, w, u, n - 1), n - 1);
    }
  }

  /** Tracked vehicles are where the frame lists them last. */
  ghost predicate Settled(u: Update, r: World) {
    forall id :: Tracked(u, id) ==> id in r.states && r.states[id].position == SeenBox(u, id)
  }

  lemma ObservePlaced(w: World, u: Update, r: World, reading: Reading)
    requires AllPlaced(w, u, r.trace) && Settled(u, r)
    ensures AllPlaced(w, u, Observe(r, u.tracks, reading).trace) && Settled(u, Observe(r, u.tracks, reading))
  {
    var k := TrackFor(reading.vehicle.box, u.tracks);
    if k.Some? && Usable(reading) {
      var id := u.tracks[k.value].id;
      TrackedById(u, k.value);
      var accepted := Accept(id, reading.text, reading.confidence.value);
      PlacedSnoc(w, u, r.trace, accepted);
      PlacedSnoc(w, u, r.trace + [accepted], Recognize(id, r.states[id].position, reading.text));
    }
  }

  lemma {:induction false} ObserveAllPlaced(w: World, u: Update, r: World, n: nat)
    requires n <= |u.readings| && AllPlaced(w, u, r.trace) && Settled(u, r)
    ensures AllPlaced(w, u, ObserveAll(r, u, n).trace) && Settled(u, ObserveAll(r, u, n))
  {
    if n > 0 {
      ObserveAllPlaced(w, u, r, n - 1);
      ObservePlaced(w, u, ObserveAll(r, u, n - 1), u.readings[n - 1]);
    }
  }

  /** Vehicles not in the frame are where they were. */
  ghost predicate Unmoved(w: World, u: Update, r: World) {
    forall id :: id in r.states && !Tracked(u, id) ==> id in w.states && r.states[id].position == w.states[id].position
  }

  lemma ExpirePlaced(cfg: Settings, w: World, u: Update, r: World, id: TrackId)
    requires AllPlaced(w, u, r.trace) && Unmoved(w, u, r)
    ensures AllPlaced(w, u, Expire(cfg, r, u, id).trace) && Unmoved(w, u, Expire(cfg, r, u, id))
  {
    if Gone(cfg, r, u, id) {
      PlacedSnoc(w, u, r.trace, Leave(id, r.states[id].position, r.states[id].best));
    }
  }

  lemma {:induction false} ExpireAllPlaced(cfg: Settings, w: World, u: Update, r: World, ids: seq<TrackId>, n: nat)
    requires n <= |ids| && AllPlaced(w, u, r.trace) && Unmoved(w, u, r)
    ensures AllPlaced(w, u, ExpireAll(cfg, r, u, ids, n).trace)
    ensures Unmoved(w, u, ExpireAll(cfg, r, u, ids, n))
  {
    if n > 0 {
      ExpireAllPlaced(cfg, w, u, r, ids, n - 1);
      ExpirePlaced(cfg, w, u, ExpireAll(cfg, r, u, ids, n - 1), ids[n - 1]);
    }
  }

  lemma SeenIsSettled(cfg: Settings, w: World, u: Update)
    ensures Settled(u, SeeAll(cfg, w, u, |u.tracks|))
  {
    forall id | Tracked(u, id)
      ensures var r := SeeAll(cfg, w, u, |u.tracks|); id in r.states && r.states[id].position == SeenBox(u, id)
    {
      SeeAllAt(cfg, w, u, |u.tracks|, id);
    }
  }

  lemma ObservedIsUnmoved(cfg: Settings, w: World, u: Update)
    ensures Unmoved(w, u, ObserveAll(SeeAll(cfg, w, u, |u.tracks|), u, |u.readings|))
  {
    var seen := SeeAll(cfg, w, u, |u.tracks|);
    var r := ObserveAll(seen, u, |u.readings|);
    forall id | id in r.states && !Tracked(u, id)
      ensures id in w.states && r.states[id].position == w.states[id].position
    {
      SeeAllAt(cfg, w, u, |u.tracks|, id);
      ObserveAllAt(seen, u, |u.readings|, id);
    }
  }

  /** Every event of every update says truly where the vehicle is or was. */
  lemma EventsArePlaced(cfg: Settings, w: World, u: Update)
    ensures AllPlaced(w, u, Apply(cfg, w, u).trace)
  {
    var seen := SeeAll(cfg, w, u, |u.tracks|);
    SeeAllPlaced(cfg, w, u, |u.tracks|);
    SeenIsSettled(cfg, w, u);
    ObserveAllPlaced(w, u, seen, |u.readings|);
    var observed := ObserveAll(seen, u, |u.readings|);
    ObservedIsUnmoved(cfg, w, u);
    ExpireAllPlaced(cfg, w, u, observed, observed.order, |observed.order|);
  }

  // --------------------------------------------------------------------------- what is sent

  /** An entry sends one detection, in this frame, and from then on is the cause to name. */
  lemma EntrySends(w: World, f: Frame, span: Option<set<string>>, p: Pipe, item: Item)
    requires item.Enter? && Emittable(w, f.update, span, p, item)
    ensures var q := Emit(p, f, item);
      && q.sent == p.sent + [VehicleDetected(item.id, f.update.frame)]
      && q.causes == p.causes[item.id := |p.sent|] && q.frames == p.frames && q.crops == p.crops
  {
  }

  /** A relocation sends this frame, the track's newest crop and its detection. */
  lemma RelocationSends(w: World, f: Frame, span: Option<set<string>>, p: Pipe, item: Item)
    requires item.Relocate? && Emittable(w, f.update, span, p, item)
    ensures item.id in p.causes
    ensures Emit(p, f, item) == p.(sent := p.sent +
              [SnapshotSaved(item.id, false, Some(p.causes[item.id]), Some(f.update.frame), Get(p.crops, item.id))])
  {
  }

  /** A plate that is sent carries its text and names the track's detection; nothing else changes. */
  lemma PlateSends(w: World, f: Frame, span: Option<set<string>>, p: Pipe, item: Item)
    requires item.Recognize? && Emittable(w, f.update, span, p, item) && Emit(p, f, item).sent != p.sent
    ensures item.id in p.causes
    ensures Emit(p, f, item) == p.(sent := p.sent + [PlateRecognized(item.id, item.text, p.causes[item.id])])
  {
  }

  // ------------------------------------------------------------------------------ the crops

  /** The candidate found for a detection is the first that was cut from it. */
  lemma {:induction false} CropIsFirst(candidates: seq<Candidate>, d: Detection, n: nat)
    requires n <= |candidates|
    ensures var c := CropFor(candidates, d, n);
      if c.None? then forall i :: 0 <= i < n ==> candidates[i].vehicle != d
      else exists i :: 0 <= i < n && candidates[i] == Candidate(c.value, d) &&
                       forall j :: 0 <= j < i ==> candidates[j].vehicle != d
  {
    if n > 0 {
      CropIsFirst(candidates, d, n - 1);
    }
  }

  /** The crop a track has after the first n tracks of a frame: its newest in this frame, or the old. */
  function NewestCrop(p: Pipe, f: Frame, n: nat, id: TrackId): Option<Crop>
    requires n <= |f.update.tracks|
  {
    if n == 0 then Get(p.crops, id)
    else
      var t := f.update.tracks[n - 1];
      var c := CropFor(f.candidates, t.detection, |f.candidates|);
      if t.id == id && c.Some? then Some(Crop(c.value, f.update.frame)) else NewestCrop(p, f, n - 1, id)
  }

  lemma {:induction false} CropsAreNewest(p: Pipe, f: Frame, n: nat, id: TrackId)
    requires n <= |f.update.tracks|
    ensures Get(NoteAll(p, f, n).crops, id) == NewestCrop(p, f, n, id)
  {
    if n > 0 {
      CropsAreNewest(p, f, n - 1, id);
    }
  }

  /** A track whose detection has a candidate in this frame holds a crop of this frame. */
  lemma {:induction false} CropIsTaken(p: Pipe, f: Frame, n: nat, k: nat)
    requires k < n <= |f.update.tracks|
    requires exists i :: 0 <= i < |f.candidates| && f.candidates[i].vehicle == f.update.tracks[k].detection
    ensures var c := Get(NoteAll(p, f, n).crops, f.update.tracks[k].id);
      c.Some? && c.value.frame == f.update.frame
  {
    var id := f.update.tracks[k].id;
    CropsAreNewest(p, f, n, id);
    CropIsFirst(f.candidates, f.update.tracks[k].detection, |f.candidates|);
    NewestIsThis(p, f, n, k);
  }

  lemma {:induction false} NewestIsThis(p: Pipe, f: Frame, n: nat, k: nat)
    requires k < n <= |f.update.tracks|
    requires CropFor(f.candidates, f.update.tracks[k].detection, |f.candidates|).Some?
    ensures var c := NewestCrop(p, f, n, f.update.tracks[k].id); c.Some? && c.value.frame == f.update.frame
  {
    if k < n - 1 {
      NewestIsThis(p, f, n - 1, k);
    }
  }
}
