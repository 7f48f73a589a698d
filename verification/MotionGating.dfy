/** The camera's motion gate (anpr-worker/edge/motion_gate.py): warm-up, debounce, one window
    per movement, cooldown. The state machine is compared with a definition that looks only at
    which frames qualified and never at a counter. */
module MotionGating {
  import opened Prelude

  datatype Thresholds = Thresholds(minAreaRatio: real, minConsecutive: nat, warmup: nat, cooldown: nat)

  datatype Phase = WarmingUp | Inactive | Active | Cooldown

  datatype Frame = Frame(number: nat, width: nat, height: nat)

  datatype Window = Window(index: nat, started: nat, triggered: nat, frames: seq<Frame>)

  datatype Transition = NoTransition | BecameActive | BecameInactive

  datatype Decision = Decision(phase: Phase, previous: Phase, window: Option<Window>, transition: Transition)

  datatype Outcome = Decided(decision: Decision) | OutOfSequence | InvalidMeasurement | InvalidWindow

  datatype Gate = Gate(phase: Phase, processed: nat, candidates: seq<Frame>, cooldownLeft: int, windowCount: nat)

  function Ceiling(x: real): int { -(-x).Floor }

  function MinimumArea(th: Thresholds, frame: Frame): int {
    Max(1, Ceiling((frame.width * frame.height) as real * th.minAreaRatio))
  }

  /** A measurement qualifies exactly when there is any foreground at all and it covers the ratio. */
  lemma QualifiesIff(th: Thresholds, frame: Frame, foreground: int)
    ensures foreground >= MinimumArea(th, frame) <==>
            foreground >= 1 && foreground as real >= (frame.width * frame.height) as real * th.minAreaRatio
  {
  }

  function InitialGate(th: Thresholds): Gate {
    Gate(if th.warmup > 0 then WarmingUp else Inactive, 0, [], 0, 0)
  }

  /** One frame through the machine, once its foreground has been measured. */
  function Step(th: Thresholds, g: Gate, frame: Frame, qualifies: bool): (Gate, Decision) {
    var n := g.processed + 1;
    match g.phase
    case WarmingUp =>
      var next := if Max(0, th.warmup - n) == 0 then Inactive else WarmingUp;
      (g.(processed := n, candidates := [], phase := next), Decision(next, WarmingUp, None, NoTransition))
    case Cooldown =>
      var next := if g.cooldownLeft - 1 <= 0 then Inactive else Cooldown;
      (g.(processed := n, cooldownLeft := g.cooldownLeft - 1, phase := next),
       Decision(next, Cooldown, None, NoTransition))
    case Inactive =>
      if qualifies then
        var frames := g.candidates + [frame];
        if |frames| >= th.minConsecutive then
          var w := Window(g.windowCount + 1, frames[0].number, frame.number, frames);
          (g.(processed := n, phase := Active, candidates := [], windowCount := g.windowCount + 1),
           Decision(Active, Inactive, Some(w), BecameActive))
        else
          (g.(processed := n, candidates := frames), Decision(Inactive, Inactive, None, NoTransition))
      else
        (g.(processed := n, candidates := []), Decision(Inactive, Inactive, None, NoTransition))
    case Active =>
      if qualifies then
        (g.(processed := n), Decision(Active, Active, None, NoTransition))
      else
        var next := if th.cooldown > 0 then Cooldown else Inactive;
        (g.(processed := n, candidates := [], cooldownLeft := th.cooldown, phase := next),
         Decision(next, Active, None, BecameInactive))
  }

  /** What a decision reports: the phase before and after, becoming active exactly with a window, and
      becoming inactive exactly on the first quiet frame of an active gate. */
  lemma DecisionReports(th: Thresholds, g: Gate, frame: Frame, qualifies: bool)
    ensures var next, d := Step(th, g, frame, qualifies).0, Step(th, g, frame, qualifies).1;
      && d.previous == g.phase && d.phase == next.phase
      && (d.transition == BecameActive <==> d.window.Some?)
      && (d.transition == BecameInactive <==> g.phase == Active && !qualifies)
      && (d.window.Some? ==> g.phase == Inactive && next.phase == Active)
  {
  }

  class MotionGate {
    const thresholds: Thresholds
    var phase: Phase
    var processedFrames: nat
    var candidateFrames: seq<Frame>
    var cooldownRemaining: int
    var windowCount: nat

    ghost function State(): Gate
      reads this
    {
      Gate(phase, processedFrames, candidateFrames, cooldownRemaining, windowCount)
    }

    constructor (thresholds: Thresholds)
      ensures this.thresholds == thresholds && State() == InitialGate(thresholds)
    {
      this.thresholds := thresholds;
      phase := if thresholds.warmup != 0 then WarmingUp else Inactive;
      processedFrames := 0;
      candidateFrames := [];
      cooldownRemaining := 0;
      windowCount := 0;
    }

    /** A frame out of sequence changes nothing; a negative measurement only uses up its frame
        number; a window larger than its frame fails after the gate has already opened. */
    method ProcessMeasurement(frame: Frame, foreground: int) returns (r: Outcome)
      requires frame.width >= 1 && frame.height >= 1
      modifies this
      ensures var inSequence := frame.number == old(processedFrames) + 1;
              var g := old(State());
              var next := Step(thresholds, g, frame, foreground >= MinimumArea(thresholds, frame));
              var oversized := next.1.window.Some? && foreground > frame.width * frame.height;
              if !inSequence then r == OutOfSequence && State() == g
              else if foreground < 0 then r == InvalidMeasurement && State() == g.(processed := g.processed + 1)
              else if oversized then r == InvalidWindow && State() == next.0.(candidates := g.candidates + [frame])
              else r == Decided(next.1) && State() == next.0
    {
      if frame.number != processedFrames + 1 {
        return OutOfSequence;
      }
      processedFrames := processedFrames + 1;
      if foreground < 0 {
        return InvalidMeasurement;
      }
      var qualifies := foreground >= MinimumArea(thresholds, frame);
      var previous := phase;

      if phase == WarmingUp {
        candidateFrames := [];
        if Max(0, thresholds.warmup - processedFrames) == 0 {
          phase := Inactive;
        }
        return Decided(Decision(phase, previous, None, NoTransition));
      }
      if phase == Cooldown {
        cooldownRemaining := cooldownRemaining - 1;
        if cooldownRemaining <= 0 {
          phase := Inactive;
        }
        return Decided(Decision(phase, previous, None, NoTransition));
      }
      if phase == Inactive {
        if qualifies {
          candidateFrames := candidateFrames + [frame];
          if |candidateFrames| >= thresholds.minConsecutive {
            windowCount := windowCount + 1;
            phase := Active;
            if foreground > frame.width * frame.height {
              return InvalidWindow;
            }
            var w := Window(windowCount, candidateFrames[0].number, frame.number, candidateFrames);
            candidateFrames := [];
            return Decided(Decision(phase, previous, Some(w), BecameActive));
          }
        } else {
          candidateFrames := [];
        }
        return Decided(Decision(phase, previous, None, NoTransition));
      }
      if !qualifies {
        candidateFrames := [];
        cooldownRemaining := thresholds.cooldown;
        phase := if cooldownRemaining != 0 then Cooldown else Inactive;
        return Decided(Decision(phase, previous, None, BecameInactive));
      }
      return Decided(Decision(phase, previous, None, NoTransition));
    }
  }

  // ------------------------------------------------------- the declarative gate
  // Frames are numbered from 1; q[t - 1] says whether frame t qualified as motion.

  /** Frames lo + 1 to hi all qualified. */
  ghost predicate AllMotion(q: seq<bool>, lo: nat, hi: nat)
    requires hi <= |q|
  {
    forall i :: lo <= i < hi ==> q[i]
  }

  /** The first quiet frame after frame p, among frames up to n. */
  function FirstQuiet(q: seq<bool>, p: nat, n: nat): (u: Option<nat>)
    requires p <= n <= |q|
    ensures u.Some? ==> p < u.value <= n && !q[u.value - 1] && AllMotion(q, p, u.value - 1)
    ensures u.None? ==> AllMotion(q, p, n)
    decreases n
  {
    if p == n then None
    else if FirstQuiet(q, p, n - 1).Some? then FirstQuiet(q, p, n - 1)
    else if !q[n - 1] then Some(n) else None
  }

  /** A window opens at frame t when the gate is idle, and frame t is the first to end
      `minConsecutive` qualifying frames that all came after it went idle. */
  ghost predicate Opens(th: Thresholds, q: seq<bool>, t: nat)
    requires 1 <= t <= |q|
    decreases t, 0
  {
    var idle := IdleSince(th, q, t - 1);
    && idle.Some?
    && idle.value + th.minConsecutive <= t
    && AllMotion(q, t - th.minConsecutive, t)
  }

  /** The last frame up to n at which a window opened. */
  ghost function LastOpening(th: Thresholds, q: seq<bool>, n: nat): (p: Option<nat>)
    requires n <= |q|
    ensures p.Some? ==> 1 <= p.value <= n
    decreases n, 1
  {
    if n == 0 then None else if Opens(th, q, n) then Some(n) else LastOpening(th, q, n - 1)
  }

  /** The last frame the gate ignores before watching again: the end of the warm-up, or of the
      cooldown that follows the first quiet frame after the last window. */
  ghost function IdleSince(th: Thresholds, q: seq<bool>, n: nat): Option<nat>
    requires n <= |q|
    decreases n, 2
  {
    match LastOpening(th, q, n)
    case None => Some(th.warmup)
    case Some(p) =>
      match FirstQuiet(q, p, n)
      case None => None
      case Some(u) => Some(u + th.cooldown)
  }

  ghost function Openings(th: Thresholds, q: seq<bool>, n: nat): nat
    requires n <= |q|
  {
    if n == 0 then 0 else Openings(th, q, n - 1) + if Opens(th, q, n) then 1 else 0
  }

  // ------------------------------------------------------------------ refinement

  ghost predicate Numbered(frames: seq<Frame>) {
    forall i :: 0 <= i < |frames| ==> frames[i].number == i + 1
  }

  /** The gate after the first n frames of a run. */
  function GateAfter(th: Thresholds, frames: seq<Frame>, q: seq<bool>, n: nat): Gate
    requires n <= |frames| == |q|
  {
    if n == 0 then InitialGate(th) else Step(th, GateAfter(th, frames, q, n - 1), frames[n - 1], q[n - 1]).0
  }

  function DecisionAt(th: Thresholds, frames: seq<Frame>, q: seq<bool>, t: nat): Decision
    requires 1 <= t <= |frames| == |q|
  {
    Step(th, GateAfter(th, frames, q, t - 1), frames[t - 1], q[t - 1]).1
  }

  /** The candidates are the unbroken run of qualifying frames since the gate went idle. */
  ghost predicate CandidateRun(q: seq<bool>, n: nat, m: nat, idle: nat)
    requires n <= |q|
  {
    && idle + m <= n
    && AllMotion(q, n - m, n)
    && (n - m == idle || !q[n - m - 1])
  }

  ghost predicate Matches(th: Thresholds, frames: seq<Frame>, q: seq<bool>, n: nat, g: Gate)
    requires n <= |frames| == |q|
  {
    && g.processed == n
    && g.windowCount == Openings(th, q, n)
    && |g.candidates| <= n && g.candidates == frames[n - |g.candidates|..n]
    && match g.phase
       case WarmingUp => LastOpening(th, q, n).None? && n < th.warmup && g.candidates == []
       case Inactive =>
         && IdleSince(th, q, n).Some?
         && |g.candidates| < th.minConsecutive
         && CandidateRun(q, n, |g.candidates|, IdleSince(th, q, n).value)
       case Active => IdleSince(th, q, n).None? && g.candidates == []
       case Cooldown =>
         && LastOpening(th, q, n).Some?
         && IdleSince(th, q, n).Some?
         && g.cooldownLeft == IdleSince(th, q, n).value - n > 0
         && g.candidates == []
  }

  /** How the idle point moves with one more frame. */
  lemma IdleStep(th: Thresholds, q: seq<bool>, n: nat)
    requires n < |q|
    ensures Opens(th, q, n + 1) ==> IdleSince(th, q, n + 1).None?
    ensures !Opens(th, q, n + 1) ==>
              IdleSince(th, q, n + 1) ==
              if IdleSince(th, q, n).Some? then IdleSince(th, q, n)
              else if q[n] then None else Some(n + 1 + th.cooldown)
  {
    if !Opens(th, q, n + 1) {
      assert LastOpening(th, q, n + 1) == LastOpening(th, q, n);
    }
  }

  /** With m candidates behind it, a qualifying frame opens a window exactly when it makes k. */
  lemma RunOpens(th: Thresholds, q: seq<bool>, n: nat, m: nat)
    requires n < |q| && m < th.minConsecutive && q[n]
    requires IdleSince(th, q, n).Some? && CandidateRun(q, n, m, IdleSince(th, q, n).value)
    ensures Opens(th, q, n + 1) <==> m + 1 == th.minConsecutive
  {
    var k := th.minConsecutive;
    if m + 1 < k && IdleSince(th, q, n).value + k <= n + 1 {
      assert n + 1 - k <= n - m - 1 < n + 1 && !q[n - m - 1];
    }
  }

  lemma QuietNeverOpens(th: Thresholds, q: seq<bool>, t: nat)
    requires th.minConsecutive >= 1 && 1 <= t <= |q|
    ensures Opens(th, q, t) ==> q[t - 1]
  {
  }

  lemma WindowIffOpens(th: Thresholds, frames: seq<Frame>, q: seq<bool>, n: nat, g: Gate)
    requires th.minConsecutive >= 1
    requires n < |frames| == |q| && Matches(th, frames, q, n, g)
    ensures Step(th, g, frames[n], q[n]).1.window.Some? <==> Opens(th, q, n + 1)
    ensures Opens(th, q, n + 1) ==> g.phase == Inactive && q[n]
  {
    if g.phase == Inactive && q[n] {
      RunOpens(th, q, n, |g.candidates|);
    } else {
      QuietNeverOpens(th, q, n + 1);
    }
  }

  lemma MotionWhileIdle(th: Thresholds, frames: seq<Frame>, q: seq<bool>, n: nat, g: Gate)
    requires th.minConsecutive >= 1
    requires n < |frames| == |q| && Matches(th, frames, q, n, g) && g.phase == Inactive && q[n]
    ensures Matches(th, frames, q, n + 1, Step(th, g, frames[n], q[n]).0)
  {
    var m := |g.candidates|;
    IdleStep(th, q, n);
    RunOpens(th, q, n, m);
    if m + 1 < th.minConsecutive {
      assert frames[n - m..n + 1] == frames[n - m..n] + [frames[n]];
      assert CandidateRun(q, n + 1, m + 1, IdleSince(th, q, n).value);
    }
  }

  lemma MatchesStep(th: Thresholds, frames: seq<Frame>, q: seq<bool>, n: nat, g: Gate)
    requires th.minConsecutive >= 1
    requires n < |frames| == |q| && Matches(th, frames, q, n, g)
    ensures Matches(th, frames, q, n + 1, Step(th, g, frames[n], q[n]).0)
  {
    if g.phase == Inactive && q[n] {
      MotionWhileIdle(th, frames, q, n, g);
    } else {
      IdleStep(th, q, n);
      WindowIffOpens(th, frames, q, n, g);
    }
  }

  lemma {:induction false} RunMatches(th: Thresholds, frames: seq<Frame>, q: seq<bool>, n: nat)
    requires th.minConsecutive >= 1 && n <= |frames| == |q|
    ensures Matches(th, frames, q, n, GateAfter(th, frames, q, n))
  {
    if n > 0 {
      RunMatches(th, frames, q, n - 1);
      MatchesStep(th, frames, q, n - 1, GateAfter(th, frames, q, n - 1));
    }
  }

  lemma SliceSnoc(frames: seq<Frame>, from: nat, t: nat)
    requires from < t <= |frames|
    ensures frames[from..t - 1] + [frames[t - 1]] == frames[from..t]
  {
  }

  lemma OpenedWindow(th: Thresholds, frames: seq<Frame>, q: seq<bool>, t: nat, g: Gate)
    requires th.minConsecutive >= 1 && 1 <= t <= |frames| == |q| && Numbered(frames)
    requires Matches(th, frames, q, t - 1, g) && g.phase == Inactive && q[t - 1] && Opens(th, q, t)
    ensures t >= th.minConsecutive
    ensures Step(th, g, frames[t - 1], q[t - 1]).1.window ==
            Some(Window(Openings(th, q, t), t - th.minConsecutive + 1, t, frames[t - th.minConsecutive..t]))
  {
    var k, m := th.minConsecutive, |g.candidates|;
    assert m + 1 == k by {
      RunOpens(th, q, t - 1, m);
    }
    SliceSnoc(frames, t - k, t);
    assert g.candidates + [frames[t - 1]] == frames[t - k..t];
    assert frames[t - k].number == t - k + 1;
  }

  /** Over every run, the machine opens a window at exactly the frames the definition names, the
      window is the last `minConsecutive` frames, and windows are numbered in order. */
  lemma GateRefinesDefinition(th: Thresholds, frames: seq<Frame>, q: seq<bool>, t: nat)
    requires th.minConsecutive >= 1 && 1 <= t <= |frames| == |q| && Numbered(frames)
    ensures DecisionAt(th, frames, q, t).window.Some? <==> Opens(th, q, t)
    ensures Opens(th, q, t) ==> t >= th.minConsecutive
    ensures Opens(th, q, t) ==>
              DecisionAt(th, frames, q, t).window ==
              Some(Window(Openings(th, q, t), t - th.minConsecutive + 1, t, frames[t - th.minConsecutive..t]))
  {
    RunMatches(th, frames, q, t - 1);
    var g := GateAfter(th, frames, q, t - 1);
    WindowIffOpens(th, frames, q, t - 1, g);
    if Opens(th, q, t) {
      OpenedWindow(th, frames, q, t, g);
    }
  }

  // ------------------------------------------------------------ spacing and rate

  lemma {:induction false} LastOpeningBound(th: Thresholds, q: seq<bool>, t: nat, n: nat)
    requires 1 <= t <= n <= |q| && Opens(th, q, t)
    ensures LastOpening(th, q, n).Some? && LastOpening(th, q, n).value >= t
  {
    if n > t {
      LastOpeningBound(th, q, t, n - 1);
    }
  }

  /** A window cannot trigger before k frames past the warm-up, or past the quiet frame and
      cooldown after the window before it. */
  lemma OpeningWaits(th: Thresholds, q: seq<bool>, t: nat)
    requires 1 <= t <= |q| && Opens(th, q, t)
    ensures t >= th.minConsecutive +
              match LastOpening(th, q, t - 1) case None => th.warmup case Some(p) => p + 1 + th.cooldown
  {
    var idle := IdleSince(th, q, t - 1);
    assert idle.Some? && idle.value + th.minConsecutive <= t;
  }

  /** Consecutive windows: the later one starts at least cooldown + 2 frames after the earlier
      one triggered. */
  lemma WindowsSpaced(th: Thresholds, q: seq<bool>, t1: nat, t2: nat)
    requires 1 <= t1 < t2 <= |q| && Opens(th, q, t1) && Opens(th, q, t2)
    ensures t2 - th.minConsecutive + 1 >= t1 + th.cooldown + 2
  {
    LastOpeningBound(th, q, t1, t2 - 1);
    OpeningWaits(th, q, t2);
  }

  /** Frames that w windows use up, each with its quiet frame and cooldown. */
  function Spent(th: Thresholds, w: nat): nat {
    if w == 0 then 0 else Spent(th, w - 1) + th.minConsecutive + th.cooldown + 1
  }

  lemma {:induction false} SpentIsProduct(th: Thresholds, w: nat)
    ensures Spent(th, w) == w * (th.minConsecutive + th.cooldown + 1)
  {
    if w > 0 {
      SpentIsProduct(th, w - 1);
      var d := th.minConsecutive + th.cooldown + 1;
      assert (w - 1) * d + d == w * d;
    }
  }

  lemma {:induction false} WindowRateAtOpening(th: Thresholds, q: seq<bool>, n: nat)
    requires n <= |q|
    ensures LastOpening(th, q, n).None? ==> Openings(th, q, n) == 0
    ensures LastOpening(th, q, n).Some? ==>
              Spent(th, Openings(th, q, n)) <= LastOpening(th, q, n).value - th.warmup + th.cooldown + 1
  {
    if n > 0 {
      WindowRateAtOpening(th, q, n - 1);
      if Opens(th, q, n) {
        OpeningWaits(th, q, n);
      }
    }
  }

  /** W >= 1 windows need W * (k + cooldown + 1) <= N - warmup + cooldown + 1 frames. */
  lemma WindowRate(th: Thresholds, q: seq<bool>, n: nat)
    requires n <= |q| && Openings(th, q, n) >= 1
    ensures Openings(th, q, n) * (th.minConsecutive + th.cooldown + 1) <= n - th.warmup + th.cooldown + 1
  {
    WindowRateAtOpening(th, q, n);
    SpentIsProduct(th, Openings(th, q, n));
  }
}
