/** Plates the tracker reports but the camera service does not send
    (anpr-worker/edge/camera_processing_service.py): once skipped, a plate stays unsent until its
    track has left. */
module SkippedPlates {
  import opened Prelude
  import opened TrackLifecycle
  import opened TrackRuns
  import opened CameraPipeline
  import opened PipelineSync
  import opened CameraProcessing

  predicate IsPlate(o: Outbound, id: TrackId, text: string) {
    o.PlateRecognized? && o.track == id && o.text == text
  }

  /** From this position on, the plate is sent for the track only after an exit of the track. */
  ghost predicate Silent(sent: seq<Outbound>, from: nat, id: TrackId, text: string) {
    forall j :: from <= j < |sent| && IsPlate(sent[j], id, text) ==> ExitBetween(sent, from, j, id)
  }

  /** Silent so far, and the track has left or still counts the plate as reported. */
  ghost predicate Skipped(span: Option<set<string>>, sent: seq<Outbound>, from: nat, id: TrackId, text: string) {
    && from <= |sent| && Silent(sent, from, id, text)
    && (ExitBetween(sent, from, |sent|, id) || (span.Some? && text in span.value))
  }

  lemma ExitSnoc(sent: seq<Outbound>, o: Outbound, from: nat, j: nat, id: TrackId)
    requires from <= j <= |sent|
    ensures ExitBetween(sent + [o], from, j, id) <==> ExitBetween(sent, from, j, id)
    ensures ExitBetween(sent, from, |sent|, id) ==> ExitBetween(sent + [o], from, |sent| + 1, id)
    ensures o.SnapshotSaved? && o.exit && o.track == id ==> ExitBetween(sent + [o], from, |sent| + 1, id)
  {
    var s := sent + [o];
    assert forall k :: 0 <= k < |sent| ==> s[k] == sent[k];
    assert s[|sent|] == o;
    if ExitBetween(sent, from, |sent|, id) {
      var k :| from <= k < |sent| && sent[k].SnapshotSaved? && sent[k].exit && sent[k].track == id;
      assert s[k] == sent[k];
    }
  }

  lemma SilentSnoc(sent: seq<Outbound>, o: Outbound, from: nat, id: TrackId, text: string)
    requires from <= |sent| && Silent(sent, from, id, text)
    requires IsPlate(o, id, text) ==> ExitBetween(sent, from, |sent|, id)
    ensures Silent(sent + [o], from, id, text)
  {
    var s := sent + [o];
    forall j | from <= j < |s| && IsPlate(s[j], id, text) ensures ExitBetween(s, from, j, id) {
      ExitSnoc(sent, o, from, j, id);
    }
  }

  /** What one event adds to the list: nothing, or one item about its own track. */
  lemma EmitAppends(p: Pipe, f: Frame, item: Item)
    ensures var q := Emit(p, f, item);
      || q.sent == p.sent
      || (&& |q.sent| == |p.sent| + 1 && q.sent == p.sent + [q.sent[|p.sent|]]
          && q.sent[|p.sent|].track == item.id
          && (q.sent[|p.sent|].PlateRecognized? ==> item.Recognize? && q.sent[|p.sent|].text == item.text))
    ensures item.Leave? ==> var q := Emit(p, f, item);
      |q.sent| == |p.sent| + 1 && q.sent[|p.sent|].SnapshotSaved? && q.sent[|p.sent|].exit
  {
  }

  lemma SkippedStep(f: Frame, own: Option<set<string>>, p: Pipe, item: Item,
                    span: Option<set<string>>, from: nat, id: TrackId, text: string)
    requires EventNext(own, item) && (id == item.id ==> span == own) && Skipped(span, p.sent, from, id, text)
    ensures Skipped(Next(span, item, id), Emit(p, f, item).sent, from, id, text)
  {
    EmitAppends(p, f, item);
    var sent := Emit(p, f, item).sent;
    if sent != p.sent {
      var o := sent[|p.sent|];
      ExitSnoc(p.sent, o, from, |p.sent|, id);
      SilentSnoc(p.sent, o, from, id, text);
    }
  }

  ghost predicate SkippedAt(f: Frame, before: seq<Item>, events: seq<Item>, n: nat, p: Pipe,
                            from: nat, id: TrackId, text: string)
    requires n <= |events|
  {
    Skipped(Span(before + events[..n], id), p.sent, from, id, text)
  }

  lemma SkippedNext(f: Frame, before: seq<Item>, events: seq<Item>, n: nat, p: Pipe,
                    from: nat, id: TrackId, text: string)
    requires n < |events| && EventsLegal(before + events) && SkippedAt(f, before, events, n, p, from, id, text)
    ensures SkippedAt(f, before, events, n + 1, Emit(p, f, events[n]), from, id, text)
  {
    var done := before + events[..n];
    NextIsLegal(before, events, n);
    SpanSnoc(done, events[n], id);
    assert before + events[..n + 1] == done + [events[n]];
    SkippedStep(f, Span(done, events[n].id), p, events[n], Span(done, id), from, id, text);
  }

  lemma {:induction false} SkippedThrough(f: Frame, before: seq<Item>, events: seq<Item>, p: Pipe, start: nat, n: nat,
                                          q: Pipe, from: nat, id: TrackId, text: string)
    requires start <= n <= |events| && EventsLegal(before + events) && q == EmitAll(p, f, events, n)
    requires SkippedAt(f, before, events, start, EmitAll(p, f, events, start), from, id, text)
    ensures SkippedAt(f, before, events, n, q, from, id, text)
  {
    if start < n {
      var r := EmitAll(p, f, events, n - 1);
      assert q == Emit(r, f, events[n - 1]);
      SkippedThrough(f, before, events, p, start, n - 1, r, from, id, text);
      SkippedNext(f, before, events, n - 1, r, from, id, text);
    }
  }

  // ------------------------------------------------------------------------ whole frames

  ghost predicate SkippedIn(s: Service, from: nat, id: TrackId, text: string) {
    Skipped(Span(EventsOf(s.world.trace), id), s.pipe.sent, from, id, text)
  }

  function FrameEvents(cfg: Settings, s: Service, f: Frame): seq<Item> {
    NewEvents(s.world.trace, Apply(cfg, s.world, f.update).trace)
  }

  lemma FrameFacts(cfg: Settings, s: Service, f: Frame)
    requires Agree(s.world) && UpdateOk(f.update)
    ensures var events := FrameEvents(cfg, s, f);
      && EventsLegal(EventsOf(s.world.trace) + events)
      && EventsOf(s.world.trace) + events == EventsOf(Process(cfg, s, f).world.trace)
      && (forall i :: 0 <= i < |events| ==> Fit(f.update, events[i]) && !events[i].Accept?)
    ensures NoteAll(s.pipe, f, |f.update.tracks|).sent == s.pipe.sent
  {
    UpdateReturns(cfg, s.world, f.update);
    FrameEventsFit(cfg, s.world, f.update, FrameEvents(cfg, s, f));
    NoteAllAt(s.pipe, f, |f.update.tracks|, "");
  }

  /** The tables when the k-th event of a frame is about to be emitted. */
  function TablesBefore(cfg: Settings, s: Service, f: Frame, k: nat): Pipe
    requires k <= |FrameEvents(cfg, s, f)|
  {
    EmitAll(NoteAll(s.pipe, f, |f.update.tracks|), f, FrameEvents(cfg, s, f), k)
  }

  lemma FrameKeepsSkipped(cfg: Settings, s: Service, f: Frame, from: nat, id: TrackId, text: string)
    requires Agree(s.world) && UpdateOk(f.update) && SkippedIn(s, from, id, text)
    ensures SkippedIn(Process(cfg, s, f), from, id, text)
  {
    FrameFacts(cfg, s, f);
    var before, events := EventsOf(s.world.trace), FrameEvents(cfg, s, f);
    var noted := NoteAll(s.pipe, f, |f.update.tracks|);
    assert before + events[..0] == before && before + events[..|events|] == before + events;
    SkippedThrough(f, before, events, noted, 0, |events|, EmitAll(noted, f, events, |events|), from, id, text);
  }

  /** The k-th event of the frame reports the plate, and no accepted reading of the track's own
      detection has that text. */
  ghost predicate Unconfirmed(cfg: Settings, s: Service, f: Frame, k: nat, id: TrackId, text: string) {
    && k < |FrameEvents(cfg, s, f)|
    && FrameEvents(cfg, s, f)[k].Recognize? && FrameEvents(cfg, s, f)[k].id == id
    && FrameEvents(cfg, s, f)[k].text == text
    && var t := FirstTrack(f.update.tracks, id, |f.update.tracks|);
       t.Some? ==> !Confirmed(f.update.readings, f.update.tracks[t.value].detection, text)
  }

  lemma SkippedHere(f: Frame, before: seq<Item>, events: seq<Item>, k: nat, p: Pipe, id: TrackId, text: string)
    requires k < |events| && EventsLegal(before + events)
    requires events[k].Recognize? && events[k].id == id && events[k].text == text
    requires Emit(p, f, events[k]).sent == p.sent
    ensures SkippedAt(f, before, events, k + 1, Emit(p, f, events[k]), |p.sent|, id, text)
  {
    var done := before + events[..k];
    NextIsLegal(before, events, k);
    SpanSnoc(done, events[k], id);
    assert before + events[..k + 1] == done + [events[k]];
  }

  lemma UnconfirmedNotSent(cfg: Settings, s: Service, f: Frame, k: nat, p: Pipe, id: TrackId, text: string)
    requires Unconfirmed(cfg, s, f, k, id, text)
    ensures Emit(p, f, FrameEvents(cfg, s, f)[k]).sent == p.sent
  {
  }

  lemma SkippedFrom(f: Frame, before: seq<Item>, events: seq<Item>, k: nat, noted: Pipe, from: nat,
                    id: TrackId, text: string)
    requires k < |events| && EventsLegal(before + events)
    requires events[k].Recognize? && events[k].id == id && events[k].text == text
    requires from == |EmitAll(noted, f, events, k).sent|
    requires Emit(EmitAll(noted, f, events, k), f, events[k]).sent == EmitAll(noted, f, events, k).sent
    ensures SkippedAt(f, before, events, |events|, EmitAll(noted, f, events, |events|), from, id, text)
  {
    SkippedHere(f, before, events, k, EmitAll(noted, f, events, k), id, text);
    assert EmitAll(noted, f, events, k + 1) == Emit(EmitAll(noted, f, events, k), f, events[k]);
    SkippedThrough(f, before, events, noted, k + 1, |events|, EmitAll(noted, f, events, |events|), from, id, text);
  }

  lemma UnconfirmedIsSkipped(cfg: Settings, s: Service, f: Frame, k: nat, from: nat, id: TrackId, text: string)
    requires Agree(s.world) && UpdateOk(f.update) && Unconfirmed(cfg, s, f, k, id, text)
    requires from == |TablesBefore(cfg, s, f, k).sent|
    ensures SkippedIn(Process(cfg, s, f), from, id, text)
  {
    FrameFacts(cfg, s, f);
    var before, events := EventsOf(s.world.trace), FrameEvents(cfg, s, f);
    UnconfirmedNotSent(cfg, s, f, k, TablesBefore(cfg, s, f, k), id, text);
    SkippedFrom(f, before, events, k, NoteAll(s.pipe, f, |f.update.tracks|), from, id, text);
    assert before + events[..|events|] == before + events;
  }

  // --------------------------------------------------------------------------- whole runs

  lemma StepKeepsSkipped(cfg: Settings, s: Service, f: Frame, s': Service, from: nat, id: TrackId, text: string)
    requires Agree(s.world) && UpdateOk(f.update) && Steps(cfg, s, f, s') && SkippedIn(s, from, id, text)
    ensures SkippedIn(s', from, id, text)
  {
    FrameKeepsSkipped(cfg, s, f, from, id, text);
  }

  lemma RunSteps(cfg: Settings, fs: seq<Frame>, ss: seq<Service>, n: nat)
    requires FramesOk(fs) && IsRun(cfg, fs, ss) && n < |fs|
    ensures Agree(ss[n].world) && UpdateOk(fs[n].update) && Steps(cfg, ss[n], fs[n], ss[n + 1])
  {
    AlwaysSynced(cfg, fs, ss, n);
  }

  lemma FrameOfRunKeepsSkipped(
    cfg: Settings, fs: seq<Frame>, ss: seq<Service>, n: nat, from: nat, id: TrackId, text: string)
    requires FramesOk(fs) && IsRun(cfg, fs, ss) && n < |fs| && SkippedIn(ss[n], from, id, text)
    ensures SkippedIn(ss[n + 1], from, id, text)
  {
    RunSteps(cfg, fs, ss, n);
    StepKeepsSkipped(cfg, ss[n], fs[n], ss[n + 1], from, id, text);
  }

  lemma {:induction false} RunKeepsSkipped(
    cfg: Settings, fs: seq<Frame>, ss: seq<Service>, n: nat, m: nat, from: nat, id: TrackId, text: string)
    requires FramesOk(fs) && IsRun(cfg, fs, ss) && n <= m <= |fs| && SkippedIn(ss[n], from, id, text)
    ensures SkippedIn(ss[m], from, id, text)
    decreases m - n
  {
    if n < m {
      FrameOfRunKeepsSkipped(cfg, fs, ss, n, from, id, text);
      RunKeepsSkipped(cfg, fs, ss, n + 1, m, from, id, text);
    }
  }

  lemma StepSkips(cfg: Settings, s: Service, f: Frame, s': Service, k: nat, from: nat, id: TrackId, text: string)
    requires Agree(s.world) && UpdateOk(f.update) && Steps(cfg, s, f, s') && Unconfirmed(cfg, s, f, k, id, text)
    requires from == |TablesBefore(cfg, s, f, k).sent|
    ensures SkippedIn(s', from, id, text)
  {
    UnconfirmedIsSkipped(cfg, s, f, k, from, id, text);
  }

  /** In every run: a plate reported for a track but unconfirmed in that frame is sent for that track
      by no later event, of that frame or of any after it, until the track's exit has been sent. */
  lemma SkippedPlateStaysUnsent(
    cfg: Settings, fs: seq<Frame>, ss: seq<Service>, n: nat, k: nat, m: nat, from: nat, id: TrackId, text: string)
    requires FramesOk(fs) && IsRun(cfg, fs, ss) && n < m <= |fs|
    requires Unconfirmed(cfg, ss[n], fs[n], k, id, text) && from == |TablesBefore(cfg, ss[n], fs[n], k).sent|
    ensures Silent(ss[m].pipe.sent, from, id, text)
  {
    RunSteps(cfg, fs, ss, n);
    StepSkips(cfg, ss[n], fs[n], ss[n + 1], k, from, id, text);
    RunKeepsSkipped(cfg, fs, ss, n + 1, m, from, id, text);
  }

  lemma MidwayBefore(cfg: Settings, s: Service, f: Frame, k: nat, clock: int)
    requires Sound(s, clock) && clock <= f.update.frame && UpdateOk(f.update) && k < |FrameEvents(cfg, s, f)|
    ensures var before, events := EventsOf(s.world.trace), FrameEvents(cfg, s, f);
      Emittable(s.world, f.update, Span(before + events[..k], events[k].id), TablesBefore(cfg, s, f, k), events[k])
  {
    FrameFacts(cfg, s, f);
    var before, events := EventsOf(s.world.trace), FrameEvents(cfg, s, f);
    var noted := NoteAll(s.pipe, f, |f.update.tracks|);
    StartsMidway(s.world, s.pipe, f, clock);
    assert before + events[..0] == before;
    EmitAllKeepsMidway(s.world, f, before, events, noted, k, TablesBefore(cfg, s, f, k));
    NextIsLegal(before, events, k);
  }

  /** In every run, a plate the tracker reports is sent there and then, or not, and it is exactly when
      an accepted reading of that text was cut from the track's own detection. */
  lemma ReportSentIff(cfg: Settings, fs: seq<Frame>, ss: seq<Service>, n: nat, k: nat)
    requires FramesOk(fs) && IsRun(cfg, fs, ss) && n < |fs| && k < |FrameEvents(cfg, ss[n], fs[n])|
    requires FrameEvents(cfg, ss[n], fs[n])[k].Recognize?
    ensures var f, item, p := fs[n], FrameEvents(cfg, ss[n], fs[n])[k], TablesBefore(cfg, ss[n], fs[n], k);
      var t := FirstTrack(f.update.tracks, item.id, |f.update.tracks|);
      && t.Some?
      && (|Emit(p, f, item).sent| == |p.sent| + 1 <==>
            Confirmed(f.update.readings, f.update.tracks[t.value].detection, item.text))
  {
    AlwaysSynced(cfg, fs, ss, n);
    MidwayBefore(cfg, ss[n], fs[n], k, n);
    var before, events := EventsOf(ss[n].world.trace), FrameEvents(cfg, ss[n], fs[n]);
    var span, p := Span(before + events[..k], events[k].id), TablesBefore(cfg, ss[n], fs[n], k);
    PlateSentIff(ss[n].world, fs[n], span, p, events[k]);
  }

  // ------------------------------------------------------------- a run in which it happens

  // Vehicle "1" is tracked; a second vehicle overlaps it and is not. First the plate X is read from
  // the second vehicle, then from the first.

  function Own(): Detection { Detection("car", 0.9, Box(0, 0, 10, 10)) }

  function Near(): Detection { Detection("car", 0.9, Box(5, 0, 10, 10)) }

  function Borrowed(): Frame {
    Frame(Update(1, [Track("1", Own())], [Reading(0, Near(), "X", true, Some(0.9))]), [])
  }

  function Later(): Frame {
    Frame(Update(2, [Track("1", Own())], [Reading(1, Own(), "X", true, Some(0.8))]), [])
  }

  function Start(): Service { Service(World(map[], [], []), Pipe(map[], map[], map[], [])) }

  function Trace(): seq<Item> {
    [Enter("1", Own().box), Accept("1", "X", 0.9), Recognize("1", Own().box, "X")]
  }

  /** The tracker after the first frame, and after the second. */
  function World1(): World {
    World(map["1" := TrackState(Own().box, 1, Some("X"), 0.9, {"X"})], ["1"], Trace())
  }

  function World2(): World {
    World(map["1" := TrackState(Own().box, 2, Some("X"), 0.9, {"X"})], ["1"], Trace() + [Accept("1", "X", 0.8)])
  }

  lemma Overlaps()
    ensures TrackFor(Near().box, [Track("1", Own())]) == Some(0)
    ensures TrackFor(Own().box, [Track("1", Own())]) == Some(0)
  {
    var tracks := [Track("1", Own())];
    assert Intersection(Near().box, Own().box) == 50 && Iou(Near().box, tracks[0].detection.box) > 0.0;
    assert Intersection(Own().box, Own().box) == 100 && Iou(Own().box, tracks[0].detection.box) > 0.0;
  }

  lemma FirstUpdate(cfg: Settings)
    ensures Apply(cfg, Start().world, Borrowed().update) == World1()
  {
    var u := Borrowed().update;
    var fresh1 := TrackState(Own().box, 1, None, -1.0, {});
    var seen := World(map["1" := fresh1], ["1"], [Enter("1", Own().box)]);
    assert SeeAll(cfg, Start().world, u, 0) == Start().world;
    assert SeeAll(cfg, Start().world, u, 1) == seen;
    Overlaps();
    assert ObserveAll(seen, u, 0) == seen;
    assert Credit(fresh1, "X", 0.9) == TrackState(Own().box, 1, Some("X"), 0.9, {"X"});
    assert Place(seen, "1", "X", 0.9) == World1();
    assert ObserveAll(seen, u, 1) == World1();
    StaysWhenTracked(cfg, World1(), u);
  }

  lemma StaysWhenTracked(cfg: Settings, w: World, u: Update)
    requires w.order == ["1"] && |u.tracks| == 1 && u.tracks[0].id == "1"
    ensures ExpireAll(cfg, w, u, w.order, 1) == w
  {
    assert !Gone(cfg, w, u, "1");
    assert ExpireAll(cfg, w, u, w.order, 0) == w;
  }

  lemma SecondUpdate(cfg: Settings)
    requires !cfg.moved(Own().box, Own().box)
    ensures Apply(cfg, World1(), Later().update) == World2()
  {
    var u := Later().update;
    var seen := World(map["1" := TrackState(Own().box, 2, Some("X"), 0.9, {"X"})], ["1"], Trace());
    assert SeeAll(cfg, World1(), u, 0) == World1();
    assert SeeAll(cfg, World1(), u, 1) == seen;
    Overlaps();
    assert ObserveAll(seen, u, 0) == seen;
    assert Credit(seen.states["1"], "X", 0.8) == seen.states["1"] by {
      assert {"X"} + {"X"} == {"X"};
    }
    assert Place(seen, "1", "X", 0.8) == World2();
    assert ObserveAll(seen, u, 1) == World2();
    StaysWhenTracked(cfg, World2(), u);
  }

  lemma TraceEvents()
    ensures EventsOf(Trace()) == [Enter("1", Own().box), Recognize("1", Own().box, "X")]
    ensures EventsOf(World2().trace) == EventsOf(Trace())
  {
    var t := Trace();
    assert t[..2][..1] == [t[0]] && t[..2][1] == t[1] && t[..1] == [t[0]] && t[..1][..0] == [];
    assert EventsOf([t[0]]) == [t[0]];
    assert EventsOf(t[..2]) == [t[0]];
    var t2 := World2().trace;
    assert t2[..3] == t;
  }

  /** Two frames from the start: the first reports plate X for the track and sends nothing, the second
      has a reading of the track's own detection with that text, and still only the detection has
      been sent. */
  lemma BorrowedPlateIsLost(cfg: Settings)
    requires !cfg.moved(Own().box, Own().box)
    ensures var fs := [Borrowed(), Later()];
      var s1 := Process(cfg, Start(), fs[0]);
      var s2 := Process(cfg, s1, fs[1]);
      && FramesOk(fs) && IsRun(cfg, fs, [Start(), s1, s2])
      && Unconfirmed(cfg, Start(), fs[0], 1, "1", "X")
      && Confirmed(fs[1].update.readings, fs[1].update.tracks[0].detection, "X")
      && s2.pipe.sent == [VehicleDetected("1", 1)]
  {
    var s1 := Process(cfg, Start(), Borrowed());
    var s2 := Process(cfg, s1, Later());
    TwoSteps(cfg, Borrowed(), s1, Later(), s2);
    FirstUnconfirmed(cfg);
    assert s2.pipe.sent == [VehicleDetected("1", 1)] by {
      FirstSent(cfg);
      SecondSent(cfg);
    }
    assert Confirms(Later().update.readings[0], Own(), "X");
  }

  lemma TwoSteps(cfg: Settings, f: Frame, s1: Service, g: Frame, s2: Service)
    requires Steps(cfg, Start(), f, s1) && Steps(cfg, s1, g, s2)
    ensures IsRun(cfg, [f, g], [Start(), s1, s2])
  {
  }

  lemma FirstUnconfirmed(cfg: Settings)
    ensures Unconfirmed(cfg, Start(), Borrowed(), 1, "1", "X")
  {
    FirstSent(cfg);
    TraceEvents();
    assert !Confirms(Borrowed().update.readings[0], Own(), "X");
  }

  lemma FirstSent(cfg: Settings)
    ensures FrameEvents(cfg, Start(), Borrowed()) == EventsOf(Trace())
    ensures Process(cfg, Start(), Borrowed()).world == World1()
    ensures Process(cfg, Start(), Borrowed()).pipe.sent == [VehicleDetected("1", 1)]
  {
    FirstUpdate(cfg);
    TraceEvents();
    var f, p := Borrowed(), Start().pipe;
    var events := FrameEvents(cfg, Start(), f);
    NoteAllAt(p, f, 1, "1");
    var noted := NoteAll(p, f, 1);
    assert EmitAll(noted, f, events, 0) == noted;
    assert EmitAll(noted, f, events, 1).sent == [VehicleDetected("1", 1)];
    assert !Confirmed(f.update.readings, Own(), "X");
    assert EmitAll(noted, f, events, 2).sent == [VehicleDetected("1", 1)];
  }

  lemma SecondSent(cfg: Settings)
    requires !cfg.moved(Own().box, Own().box)
    ensures var s1 := Process(cfg, Start(), Borrowed()); Process(cfg, s1, Later()).pipe.sent == s1.pipe.sent
  {
    FirstSent(cfg);
    SecondUpdate(cfg);
    TraceEvents();
    var s1 := Process(cfg, Start(), Borrowed());
    assert FrameEvents(cfg, s1, Later()) == [];
    NoteAllAt(s1.pipe, Later(), 1, "1");
  }
}
