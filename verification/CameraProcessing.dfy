/** The camera service as an object, one frame at a time, and every run of it
    (anpr-worker/edge/camera_processing_service.py). */
module CameraProcessing {
  import opened Prelude
  import opened TrackLifecycle
  import opened TrackRuns
  import opened CameraPipeline
  import opened PipelineSync

  // ----------------------------------------------------------------------- all runs

  datatype Service = Service(world: World, pipe: Pipe)

  /** The events an update adds to those already returned. */
  function NewEvents(before: seq<Item>, after: seq<Item>): seq<Item> {
    if |EventsOf(before)| <= |EventsOf(after)| then EventsOf(after)[|EventsOf(before)|..] else []
  }

  function Process(cfg: Settings, s: Service, f: Frame): Service {
    var w := Apply(cfg, s.world, f.update);
    Service(w, AfterFrame(s.pipe, f, NewEvents(s.world.trace, w.trace)))
  }

  /** `ss` are the states of a run: the initial one, and one after each frame. */
  predicate IsRun(cfg: Settings, fs: seq<Frame>, ss: seq<Service>) {
    && |ss| == |fs| + 1
    && ss[0] == Service(World(map[], [], []), Pipe(map[], map[], map[], []))
    && forall i :: 0 <= i < |fs| ==> Steps(cfg, ss[i], fs[i], ss[i + 1])
  }

  predicate Steps(cfg: Settings, s: Service, f: Frame, s': Service) { s' == Process(cfg, s, f) }

  lemma UpdateReturns(cfg: Settings, w: World, u: Update)
    ensures Returned(w.trace, NewEvents(w.trace, Apply(cfg, w, u).trace), Apply(cfg, w, u).trace)
  {
    UpdateExtends(cfg, w, u);
    EventsExtend(u, w.trace, Apply(cfg, w, u).trace);
  }

  lemma NewEventsUnique(before: seq<Item>, events: seq<Item>, after: seq<Item>)
    requires Returned(before, events, after)
    ensures events == NewEvents(before, after)
  {
  }

  lemma StartsSynced(clock: int)
    ensures Synced(World(map[], [], []), Pipe(map[], map[], map[], []), clock)
  {
    assert forall id :: AgreeAt(World(map[], [], []), id);
  }

  ghost predicate Sound(s: Service, clock: int) { Synced(s.world, s.pipe, clock) }

  lemma ProcessKeepsSync(cfg: Settings, s: Service, f: Frame, clock: int)
    requires Sound(s, clock) && clock <= f.update.frame && UpdateOk(f.update)
    ensures Sound(Process(cfg, s, f), f.update.frame)
  {
    UpdateReturns(cfg, s.world, f.update);
    var events := NewEvents(s.world.trace, Apply(cfg, s.world, f.update).trace);
    FrameKeepsSync(cfg, s.world, s.pipe, f, events, clock);
  }

  ghost predicate SameDomains(s: Service) {
    && s.pipe.causes.Keys == s.pipe.frames.Keys == s.world.states.Keys
    && s.pipe.crops.Keys <= s.world.states.Keys
  }

  /** What a frame comes to, once the tracker has returned its events. */
  lemma FrameDone(cfg: Settings, s: Service, f: Frame, events: seq<Item>, clock: int)
    requires Sound(s, clock) && clock <= f.update.frame && UpdateOk(f.update)
    requires Returned(s.world.trace, events, Apply(cfg, s.world, f.update).trace)
    ensures var done := Service(Apply(cfg, s.world, f.update), AfterFrame(s.pipe, f, events));
      done == Process(cfg, s, f) && Sound(done, f.update.frame) && SameDomains(done)
    ensures forall i :: 0 <= i < |events| ==> !events[i].Accept?
  {
    var done := Process(cfg, s, f);
    assert events == NewEvents(s.world.trace, done.world.trace) by {
      NewEventsUnique(s.world.trace, events, done.world.trace);
    }
    ProcessKeepsSync(cfg, s, f, clock);
    SyncedDomains(done.world, done.pipe, f.update.frame);
    FrameEventsFit(cfg, s.world, f.update, events);
  }

  /** Frames are numbered 1, 2, 3 and so on, and confidences lie between 0 and 1. */
  predicate FramesOk(fs: seq<Frame>) {
    forall i :: 0 <= i < |fs| ==> fs[i].update.frame == i + 1 && UpdateOk(fs[i].update)
  }

  lemma StepKeepsSync(cfg: Settings, s: Service, f: Frame, s': Service, clock: int)
    requires Sound(s, clock) && clock <= f.update.frame && UpdateOk(f.update) && Steps(cfg, s, f, s')
    ensures Sound(s', f.update.frame)
  {
    ProcessKeepsSync(cfg, s, f, clock);
  }

  /** After every run of frames the tables agree with the tracker, and everything sent is in order:
      detection, plates naming it, evidence naming it, in each lifespan of each track. */
  lemma {:induction false} AlwaysSynced(cfg: Settings, fs: seq<Frame>, ss: seq<Service>, n: nat)
    requires n <= |fs| && FramesOk(fs) && IsRun(cfg, fs, ss)
    ensures Sound(ss[n], n)
  {
    if n == 0 {
      StartsSynced(0);
    } else {
      AlwaysSynced(cfg, fs, ss, n - 1);
      assert Steps(cfg, ss[n - 1], fs[n - 1], ss[n - 1 + 1]);
      StepKeepsSync(cfg, ss[n - 1], fs[n - 1], ss[n], n - 1);
    }
  }

  /** The three tables have the tracker's domain after every frame. */
  lemma TablesAgree(cfg: Settings, fs: seq<Frame>, ss: seq<Service>, n: nat)
    requires n <= |fs| && FramesOk(fs) && IsRun(cfg, fs, ss)
    ensures SameDomains(ss[n])
  {
    AlwaysSynced(cfg, fs, ss, n);
    SyncedDomains(ss[n].world, ss[n].pipe, n);
  }

  // ---------------------------------------------------------------------- the object

  class CameraProcessingService {
    const tracker: TrackStateManager
    var frameNumber: nat
    var vehicleEventIds: map<TrackId, nat>
    var lastTrackFrames: map<TrackId, int>
    var latestTrackArtifacts: map<TrackId, Crop>
    var sent: seq<Outbound>

    ghost function Tables(): Pipe
      reads this
    {
      Pipe(vehicleEventIds, lastTrackFrames, latestTrackArtifacts, sent)
    }

    ghost predicate Valid()
      reads this, tracker
    {
      Synced(tracker.State(), Tables(), frameNumber)
    }

    constructor (bufferFrames: int, ratio: real)
      requires bufferFrames >= 1 && ratio > 0.0
      ensures Valid() && fresh(tracker) && frameNumber == 0
      ensures tracker.State() == World(map[], [], []) && Tables() == Pipe(map[], map[], map[], [])
    {
      tracker := new TrackStateManager(bufferFrames, ratio);
      frameNumber := 0;
      vehicleEventIds, lastTrackFrames, latestTrackArtifacts, sent := map[], map[], map[], [];
      new;
      StartsSynced(0);
    }

    method NoteTracks(f: Frame)
      modifies this`lastTrackFrames, this`latestTrackArtifacts
      ensures Tables() == NoteAll(old(Tables()), f, |f.update.tracks|)
    {
      for i := 0 to |f.update.tracks|
        invariant Tables() == NoteAll(old(Tables()), f, i)
      {
        var track := f.update.tracks[i];
        lastTrackFrames := lastTrackFrames[track.id := f.update.frame];
        var crop := CropFor(f.candidates, track.detection, |f.candidates|);
        if crop.Some? {
          latestTrackArtifacts := latestTrackArtifacts[track.id := Crop(crop.value, f.update.frame)];
        }
      }
    }

    method FindReading(readings: seq<Reading>, d: Detection, text: string) returns (found: bool)
      ensures found <==> Confirmed(readings, d, text)
    {
      for i := 0 to |readings|
        invariant forall j :: 0 <= j < i ==> !Confirms(readings[j], d, text)
      {
        if Confirms(readings[i], d, text) {
          return true;
        }
      }
      return false;
    }

    method EmitIngestEvent(f: Frame, event: Item)
      requires !event.Accept?
      modifies this`vehicleEventIds, this`lastTrackFrames, this`latestTrackArtifacts, this`sent
      ensures Tables() == Emit(old(Tables()), f, event)
    {
      var id := event.id;
      if event.Leave? || event.Relocate? {
        var frame := if event.Leave? then Get(lastTrackFrames, id) else Some(f.update.frame);
        var crop := if frame.None? then None else Get(latestTrackArtifacts, id);
        sent := sent + [SnapshotSaved(id, event.Leave?, Get(vehicleEventIds, id), frame, crop)];
        if event.Leave? {
          vehicleEventIds := vehicleEventIds - {id};
          lastTrackFrames := lastTrackFrames - {id};
          latestTrackArtifacts := latestTrackArtifacts - {id};
        }
        return;
      }
      var k := FirstTrack(f.update.tracks, id, |f.update.tracks|);
      if k.None? {
        return;
      }
      if event.Enter? {
        vehicleEventIds := vehicleEventIds[id := |sent|];
        sent := sent + [VehicleDetected(id, f.update.frame)];
        return;
      }
      var found := FindReading(f.update.readings, f.update.tracks[k.value].detection, event.text);
      if found && id in vehicleEventIds {
        sent := sent + [PlateRecognized(id, event.text, vehicleEventIds[id])];
      }
    }

    method EmitEvents(f: Frame, events: seq<Item>)
      requires forall i :: 0 <= i < |events| ==> !events[i].Accept?
      modifies this`vehicleEventIds, this`lastTrackFrames, this`latestTrackArtifacts, this`sent
      ensures Tables() == EmitAll(old(Tables()), f, events, |events|)
    {
      for i := 0 to |events|
        invariant Tables() == EmitAll(old(Tables()), f, events, i)
      {
        EmitIngestEvent(f, events[i]);
      }
    }

    method ProcessFrame(tracks: seq<Track>, readings: seq<Reading>, candidates: seq<Candidate>)
      requires Valid() && UpdateOk(Update(frameNumber + 1, tracks, readings))
      modifies this, tracker
      ensures Valid() && frameNumber == old(frameNumber) + 1
      ensures var f := Frame(Update(frameNumber, tracks, readings), candidates);
        Service(tracker.State(), Tables()) == Process(tracker.settings, old(Service(tracker.State(), Tables())), f)
      ensures SameDomains(Service(tracker.State(), Tables()))
    {
      frameNumber := frameNumber + 1;
      var f := Frame(Update(frameNumber, tracks, readings), candidates);
      ghost var w, p := tracker.State(), Tables();
      var events := tracker.ProcessUpdate(f.update);
      FrameDone(tracker.settings, Service(w, p), f, events, frameNumber - 1);
      NoteTracks(f);
      EmitEvents(f, events);
    }
  }
}
