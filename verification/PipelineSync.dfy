/** The camera service's tables always agree with the tracker: proof over every processed frame, and
    what it means for the events sent. */
module PipelineSync {
  import opened Prelude
  import opened TrackLifecycle
  import opened TrackRuns
  import opened CameraPipeline

  // ------------------------------------------------------------------- the invariant

  /** Between frames: the tables hold exactly the live tracks, each with the detection that opened
      its lifespan and the frame it was last seen in; a crop is from that lifespan. */
  predicate InSync(w: World, p: Pipe, clock: int, id: TrackId) {
    var open := OpenOf(p.sent, id);
    && (id in w.states <==> open.Some?) && (id in p.causes <==> open.Some?)
    && (id in p.frames <==> open.Some?) && (id in p.crops ==> open.Some?)
    && (open.Some? ==>
          && p.causes[id] == open.value.cause && open.value.reported <= w.states[id].emitted
          && open.value.since <= p.frames[id] == w.states[id].lastSeen <= clock)
    && (id in p.crops ==> open.value.since <= p.crops[id].frame <= p.frames[id])
  }

  /** While a frame's events are emitted: as above, but a tracked vehicle already has this frame. */
  predicate Midway(w: World, u: Update, span: Option<set<string>>, p: Pipe, id: TrackId) {
    var open := OpenOf(p.sent, id);
    && (span.Some? <==> open.Some?) && (id in p.causes <==> open.Some?)
    && (id in p.frames <==> open.Some? || Tracked(u, id)) && (id in p.crops ==> id in p.frames)
    && (open.Some? ==>
          && p.causes[id] == open.value.cause && open.value.reported <= span.value
          && open.value.since <= p.frames[id])
    && (Tracked(u, id) ==> p.frames[id] == u.frame)
    && (open.Some? && !Tracked(u, id) ==> id in w.states && p.frames[id] == w.states[id].lastSeen)
    && (id in p.crops ==>
          p.crops[id].frame <= p.frames[id] &&
          if open.Some? then open.value.since <= p.crops[id].frame else p.crops[id].frame == u.frame)
  }

  // ------------------------------------------------------------------- noting tracks

  predicate NotedAs(p: Pipe, q: Pipe, frame: int, tracked: bool, id: TrackId) {
    && q.sent == p.sent && q.causes == p.causes
    && Get(q.frames, id) == (if tracked then Some(frame) else Get(p.frames, id))
    && (Get(q.crops, id) == Get(p.crops, id) || (tracked && id in q.crops && q.crops[id].frame == frame))
  }

  lemma NoteStep(p: Pipe, q: Pipe, f: Frame, track: Track, tracked: bool, id: TrackId)
    requires NotedAs(p, q, f.update.frame, tracked, id)
    ensures NotedAs(p, NoteTrack(q, f, track), f.update.frame, tracked || track.id == id, id)
  {
  }

  lemma {:induction false} NoteAllAt(p: Pipe, f: Frame, n: nat, id: TrackId)
    requires n <= |f.update.tracks|
    ensures NotedAs(p, NoteAll(p, f, n), f.update.frame, LastTrack(f.update.tracks, n, id).Some?, id)
  {
    if n > 0 {
      NoteAllAt(p, f, n - 1, id);
      NoteStep(p, NoteAll(p, f, n - 1), f, f.update.tracks[n - 1], LastTrack(f.update.tracks, n - 1, id).Some?, id);
    }
  }

  lemma NotedIsMidway(w: World, p: Pipe, q: Pipe, u: Update, clock: int, id: TrackId)
    requires InSync(w, p, clock, id) && clock <= u.frame && NotedAs(p, q, u.frame, Tracked(u, id), id)
    ensures Midway(w, u, if id in w.states then Some(w.states[id].emitted) else None, q, id)
  {
    assert id in q.frames <==> id in p.frames || Tracked(u, id);
  }

  // --------------------------------------------------------------- one event at a time

  function Next(span: Option<set<string>>, item: Item, id: TrackId): Option<set<string>> {
    if item.id == id then SpanStep(span, item) else span
  }

  predicate Emittable(w: World, u: Update, span: Option<set<string>>, p: Pipe, item: Item) {
    Midway(w, u, span, p, item.id) && EventNext(span, item) && Fit(u, item) && !item.Accept?
  }

  lemma EmitEnterAt(w: World, f: Frame, own: Option<set<string>>, p: Pipe, item: Item,
    span: Option<set<string>>, id: TrackId)
    requires item.Enter? && Emittable(w, f.update, own, p, item)
    requires Midway(w, f.update, span, p, id) && (id == item.id ==> span == own)
    ensures Midway(w, f.update, Next(span, item, id), Emit(p, f, item), id)
    ensures SentOk(p.sent) ==> SentOk(Emit(p, f, item).sent)
  {
    var o := VehicleDetected(item.id, f.update.frame);
    OpenSnoc(p.sent, o, id);
    if SentOk(p.sent) {
      SentSnoc(p.sent, o);
    }
  }

  lemma EmitRelocateAt(w: World, f: Frame, own: Option<set<string>>, p: Pipe, item: Item,
    span: Option<set<string>>, id: TrackId)
    requires item.Relocate? && Emittable(w, f.update, own, p, item)
    requires Midway(w, f.update, span, p, id) && (id == item.id ==> span == own)
    ensures Midway(w, f.update, Next(span, item, id), Emit(p, f, item), id)
    ensures SentOk(p.sent) ==> SentOk(Emit(p, f, item).sent)
  {
    var at := item.id;
    var o := SnapshotSaved(at, false, Get(p.causes, at), Some(f.update.frame), Get(p.crops, at));
    OpenSnoc(p.sent, o, id);
    if SentOk(p.sent) {
      SentSnoc(p.sent, o);
    }
  }

  lemma EmitRecognizeAt(w: World, f: Frame, own: Option<set<string>>, p: Pipe, item: Item,
    span: Option<set<string>>, id: TrackId)
    requires item.Recognize? && Emittable(w, f.update, own, p, item)
    requires Midway(w, f.update, span, p, id) && (id == item.id ==> span == own)
    ensures Midway(w, f.update, Next(span, item, id), Emit(p, f, item), id)
    ensures SentOk(p.sent) ==> SentOk(Emit(p, f, item).sent)
  {
    var o := PlateRecognized(item.id, item.text, p.causes[item.id]);
    OpenSnoc(p.sent, o, id);
    if SentOk(p.sent) {
      SentSnoc(p.sent, o);
    }
  }

  /** The evidence of an exit: the detection that opened the lifespan, and the last frame the track
      was seen in. */
  function ExitEvidence(w: World, p: Pipe, id: TrackId): Outbound
    requires id in w.states && id in p.causes
  {
    SnapshotSaved(id, true, Some(p.causes[id]), Some(w.states[id].lastSeen), Get(p.crops, id))
  }

  lemma ExitShowsLastSighting(w: World, f: Frame, span: Option<set<string>>, p: Pipe, item: Item)
    requires item.Leave? && Emittable(w, f.update, span, p, item)
    ensures item.id in w.states && item.id in p.causes
    ensures Emit(p, f, item).sent == p.sent + [ExitEvidence(w, p, item.id)]
    ensures MaySend(OpenOf(p.sent, item.id), ExitEvidence(w, p, item.id))
  {
  }

  lemma EmitLeaveAt(w: World, f: Frame, own: Option<set<string>>, p: Pipe, item: Item,
    span: Option<set<string>>, id: TrackId)
    requires item.Leave? && Emittable(w, f.update, own, p, item)
    requires Midway(w, f.update, span, p, id) && (id == item.id ==> span == own)
    ensures Midway(w, f.update, Next(span, item, id), Emit(p, f, item), id)
    ensures SentOk(p.sent) ==> SentOk(Emit(p, f, item).sent)
  {
    ExitShowsLastSighting(w, f, own, p, item);
    var o := ExitEvidence(w, p, item.id);
    OpenSnoc(p.sent, o, id);
    if SentOk(p.sent) {
      SentSnoc(p.sent, o);
    }
  }

  lemma EmitAt(w: World, f: Frame, own: Option<set<string>>, p: Pipe, item: Item,
    span: Option<set<string>>, id: TrackId)
    requires Emittable(w, f.update, own, p, item)
    requires Midway(w, f.update, span, p, id) && (id == item.id ==> span == own)
    ensures Midway(w, f.update, Next(span, item, id), Emit(p, f, item), id)
    ensures SentOk(p.sent) ==> SentOk(Emit(p, f, item).sent)
  {
    match item
    case Enter(_, _) => EmitEnterAt(w, f, own, p, item, span, id);
    case Relocate(_, _, _) => EmitRelocateAt(w, f, own, p, item, span, id);
    case Recognize(_, _, _) => EmitRecognizeAt(w, f, own, p, item, span, id);
    case Leave(_, _, _) => EmitLeaveAt(w, f, own, p, item, span, id);
  }

  // -------------------------------------------------------------------- whole frames

  ghost predicate AllMidway(w: World, u: Update, events: seq<Item>, p: Pipe) {
    forall id :: Midway(w, u, Span(events, id), p, id)
  }

  lemma EmitKeepsMidway(w: World, f: Frame, events: seq<Item>, p: Pipe, item: Item)
    requires AllMidway(w, f.update, events, p) && SentOk(p.sent)
    requires EventNext(Span(events, item.id), item) && Fit(f.update, item) && !item.Accept?
    ensures AllMidway(w, f.update, events + [item], Emit(p, f, item)) && SentOk(Emit(p, f, item).sent)
  {
    var own := Span(events, item.id);
    assert Midway(w, f.update, own, p, item.id);
    forall id ensures Midway(w, f.update, Span(events + [item], id), Emit(p, f, item), id) {
      SpanSnoc(events, item, id);
      EmitAt(w, f, own, p, item, Span(events, id), id);
    }
    EmitAt(w, f, own, p, item, own, item.id);
  }

  lemma NextIsLegal(before: seq<Item>, events: seq<Item>, n: nat)
    requires n < |events| && EventsLegal(before + events)
    ensures EventNext(Span(before + events[..n], events[n].id), events[n])
  {
    var all := before + events;
    EventsLegalAt(all, |before| + n);
    assert all[..|before| + n] == before + events[..n];
  }

  ghost predicate EmittedTo(w: World, f: Frame, before: seq<Item>, events: seq<Item>, n: nat, p: Pipe)
    requires n <= |events|
  {
    AllMidway(w, f.update, before + events[..n], p) && SentOk(p.sent)
  }

  lemma EmitNext(w: World, f: Frame, before: seq<Item>, events: seq<Item>, n: nat, p: Pipe)
    requires n < |events| && EventsLegal(before + events) && EmittedTo(w, f, before, events, n, p)
    requires Fit(f.update, events[n]) && !events[n].Accept?
    ensures EmittedTo(w, f, before, events, n + 1, Emit(p, f, events[n]))
  {
    var done := before + events[..n];
    NextIsLegal(before, events, n);
    EmitKeepsMidway(w, f, done, p, events[n]);
    assert before + events[..n + 1] == done + [events[n]];
  }

  lemma {:induction false} EmitAllKeepsMidway(
    w: World, f: Frame, before: seq<Item>, events: seq<Item>, p: Pipe, n: nat, q: Pipe)
    requires n <= |events| && EventsLegal(before + events)
    requires forall i :: 0 <= i < |events| ==> Fit(f.update, events[i]) && !events[i].Accept?
    requires EmittedTo(w, f, before, events, 0, p) && q == EmitAll(p, f, events, n)
    ensures EmittedTo(w, f, before, events, n, q)
  {
    if n > 0 {
      var r := EmitAll(p, f, events, n - 1);
      assert q == Emit(r, f, events[n - 1]);
      EmitAllKeepsMidway(w, f, before, events, p, n - 1, r);
      EmitNext(w, f, before, events, n - 1, r);
    }
  }

  lemma {:induction false} EventsAreReturned(trace: seq<Item>)
    ensures forall i :: 0 <= i < |EventsOf(trace)| ==> !EventsOf(trace)[i].Accept?
  {
    if trace != [] {
      EventsAreReturned(trace[..|trace| - 1]);
    }
  }

  ghost predicate Synced(w: World, p: Pipe, clock: int) {
    && Agree(w) && SentOk(p.sent)
    && (forall id :: ListedAt(w, id)) && (forall id :: InSync(w, p, clock, id))
  }

  lemma AgreeSpan(w: World, id: TrackId)
    requires AgreeAt(w, id)
    ensures Span(EventsOf(w.trace), id) == if id in w.states then Some(w.states[id].emitted) else None
  {
    SpanIsLife(w.trace, id);
  }

  lemma StartsMidway(w: World, p: Pipe, f: Frame, clock: int)
    requires Synced(w, p, clock) && clock <= f.update.frame
    ensures AllMidway(w, f.update, EventsOf(w.trace), NoteAll(p, f, |f.update.tracks|))
    ensures NoteAll(p, f, |f.update.tracks|).sent == p.sent
  {
    var q := NoteAll(p, f, |f.update.tracks|);
    forall id ensures Midway(w, f.update, Span(EventsOf(w.trace), id), q, id) && q.sent == p.sent {
      assert InSync(w, p, clock, id) && AgreeAt(w, id);
      NoteAllAt(p, f, |f.update.tracks|, id);
      NotedIsMidway(w, p, q, f.update, clock, id);
      AgreeSpan(w, id);
    }
    assert Midway(w, f.update, Span(EventsOf(w.trace), ""), q, "");
  }

  lemma MidwayEndsInSync(cfg: Settings, w: World, u: Update, p: Pipe, q: Pipe, clock: int, id: TrackId)
    requires ListedAt(w, id) && InSync(w, p, clock, id) && clock <= u.frame
    requires var r := Apply(cfg, w, u); AgreeAt(r, id) && Midway(w, u, Span(EventsOf(r.trace), id), q, id)
    ensures ListedAt(Apply(cfg, w, u), id) && InSync(Apply(cfg, w, u), q, u.frame, id)
  {
    AgreeSpan(Apply(cfg, w, u), id);
    UpdateAt(cfg, w, u, id);
  }

  /** The tables after a frame whose tracker update returned `events`. */
  function AfterFrame(p: Pipe, f: Frame, events: seq<Item>): Pipe {
    EmitAll(NoteAll(p, f, |f.update.tracks|), f, events, |events|)
  }

  lemma FrameEventsFit(cfg: Settings, w: World, u: Update, events: seq<Item>)
    requires Agree(w) && UpdateOk(u) && Returned(w.trace, events, Apply(cfg, w, u).trace)
    ensures EventsLegal(EventsOf(w.trace) + events)
    ensures forall i :: 0 <= i < |events| ==> Fit(u, events[i]) && !events[i].Accept?
  {
    var before, after := EventsOf(w.trace), EventsOf(Apply(cfg, w, u).trace);
    UpdateKeepsAgree(cfg, w, u);
    LegalEvents(Apply(cfg, w, u).trace);
    UpdateExtends(cfg, w, u);
    EventsExtend(u, w.trace, Apply(cfg, w, u).trace);
    EventsAreReturned(Apply(cfg, w, u).trace);
    forall i | 0 <= i < |events| ensures Fit(u, events[i]) && !events[i].Accept? {
      assert events[i] == after[|before| + i];
    }
  }

  /** Every frame keeps the tables in step with the tracker and sends only what may be sent. */
  lemma FrameKeepsSync(cfg: Settings, w: World, p: Pipe, f: Frame, events: seq<Item>, clock: int)
    requires Synced(w, p, clock) && clock <= f.update.frame && UpdateOk(f.update)
    requires Returned(w.trace, events, Apply(cfg, w, f.update).trace)
    ensures Synced(Apply(cfg, w, f.update), AfterFrame(p, f, events), f.update.frame)
  {
    var u, noted := f.update, NoteAll(p, f, |f.update.tracks|);
    var r, q := Apply(cfg, w, u), AfterFrame(p, f, events);
    UpdateKeepsAgree(cfg, w, u);
    FrameEventsFit(cfg, w, u, events);
    StartsMidway(w, p, f, clock);
    assert EventsOf(w.trace) + events[..0] == EventsOf(w.trace);
    EmitAllKeepsMidway(w, f, EventsOf(w.trace), events, noted, |events|, q);
    assert EventsOf(w.trace) + events[..|events|] == EventsOf(r.trace);
    forall id ensures ListedAt(r, id) && InSync(r, q, u.frame, id) {
      assert ListedAt(w, id) && InSync(w, p, clock, id) && AgreeAt(r, id);
      assert Midway(w, u, Span(EventsOf(r.trace), id), q, id);
      MidwayEndsInSync(cfg, w, u, p, q, clock, id);
    }
  }

  /** Synced tables have the tracker's own domain. */
  lemma SyncedDomains(w: World, p: Pipe, clock: int)
    requires Synced(w, p, clock)
    ensures p.causes.Keys == p.frames.Keys == w.states.Keys && p.crops.Keys <= w.states.Keys
  {
    forall id
      ensures (id in p.causes <==> id in w.states) && (id in p.frames <==> id in w.states)
      ensures id in p.crops ==> id in w.states
    {
      assert InSync(w, p, clock, id);
    }
  }

  // ------------------------------------------------- what a receiver can rely on

  lemma {:induction false} SentOkAt(sent: seq<Outbound>, m: nat)
    requires SentOk(sent) && m < |sent|
    ensures MaySend(OpenOf(sent[..m], sent[m].track), sent[m])
    decreases |sent|
  {
    var n := |sent| - 1;
    if m < n {
      SentOkAt(sent[..n], m);
      assert sent[..n][..m] == sent[..m];
    }
  }

  predicate ExitBetween(sent: seq<Outbound>, i: int, j: int, id: TrackId)
    requires 0 <= i && j <= |sent|
  {
    exists k :: i <= k < j && sent[k].SnapshotSaved? && sent[k].exit && sent[k].track == id
  }

  lemma {:induction false} OpenedBy(sent: seq<Outbound>, m: nat, id: TrackId)
    requires m <= |sent| && OpenOf(sent[..m], id).Some?
    ensures var c := OpenOf(sent[..m], id).value.cause;
      c < m && sent[c].VehicleDetected? && sent[c].track == id && !ExitBetween(sent, c, m, id)
  {
    if m > 0 {
      assert sent[..m] == sent[..m - 1] + [sent[m - 1]];
      OpenSnoc(sent[..m - 1], sent[m - 1], id);
      if !(sent[m - 1].track == id && sent[m - 1].VehicleDetected?) {
        OpenedBy(sent, m - 1, id);
      }
    }
  }

  /** Every plate sent names the detection of the same track with no exit of it in between. */
  lemma PlateNamesItsDetection(sent: seq<Outbound>, j: nat)
    requires SentOk(sent) && j < |sent| && sent[j].PlateRecognized?
    ensures var c := sent[j].cause;
      c < j && sent[c].VehicleDetected? && sent[c].track == sent[j].track && !ExitBetween(sent, c, j, sent[j].track)
  {
    SentOkAt(sent, j);
    OpenedBy(sent, j, sent[j].track);
  }

  /** So does every piece of evidence, which always has a frame, none older than the detection's. */
  lemma EvidenceNamesItsDetection(sent: seq<Outbound>, j: nat)
    requires SentOk(sent) && j < |sent| && sent[j].SnapshotSaved?
    ensures sent[j].owner.Some? && sent[j].evidence.Some?
    ensures var c := sent[j].owner.value;
      c < j && sent[c].VehicleDetected? && sent[c].track == sent[j].track && !ExitBetween(sent, c, j, sent[j].track)
  {
    SentOkAt(sent, j);
    OpenedBy(sent, j, sent[j].track);
  }

  // ----------------------------------------------------- when a recognised plate is sent

  /** In a synced service a recognised plate is sent exactly when some accepted reading of that text
      was cut from the track's own detection; the causing detection is never missing. */
  lemma PlateSentIff(w: World, f: Frame, span: Option<set<string>>, p: Pipe, item: Item)
    requires item.Recognize? && Emittable(w, f.update, span, p, item)
    ensures var k := FirstTrack(f.update.tracks, item.id, |f.update.tracks|);
      && k.Some?
      && (|Emit(p, f, item).sent| == |p.sent| + 1 <==>
            Confirmed(f.update.readings, f.update.tracks[k.value].detection, item.text))
  {
  }

  /** Confirmed: some reading of exactly that detection, with that text, was accepted. */
  lemma ConfirmedMeans(readings: seq<Reading>, d: Detection, text: string)
    ensures Confirmed(readings, d, text) <==>
            exists i :: 0 <= i < |readings| && readings[i].accepted && readings[i].vehicle == d &&
                        readings[i].text == text
  {
    if exists i :: 0 <= i < |readings| && readings[i].accepted && readings[i].vehicle == d && readings[i].text == text {
      var i :| 0 <= i < |readings| && readings[i].accepted && readings[i].vehicle == d && readings[i].text == text;
      assert Confirms(readings[i], d, text);
    }
  }

  /** A reading cut from a tracked vehicle goes to that vehicle when no two tracks share a box. */
  lemma TrackedVehicleGetsItsReading(tracks: seq<Track>, k: nat)
    requires k < |tracks| && forall i :: 0 <= i < |tracks| ==> BoxOk(tracks[i].detection.box)
    requires forall i :: 0 <= i < |tracks| && i != k ==> tracks[i].detection.box != tracks[k].detection.box
    ensures TrackFor(tracks[k].detection.box, tracks) == Some(k)
  {
    var box := tracks[k].detection.box;
    IouFacts(box, box);
    var r := TrackFor(box, tracks);
    assert Iou(box, tracks[k].detection.box) > 0.0;
    IouFacts(box, tracks[r.value].detection.box);
  }
}
