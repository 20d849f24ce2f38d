/** Terminal-hold reference windows: the three places that compute them and the tracker that
 *  shows one before every action. */
module ReferenceWindows {
  import opened Wrappers
  import PhaseMatchers

  type Row = seq<real>

  const MAX_HORIZON_STEPS := 256
  const TRANSFORM_HORIZON_STEPS := 8

  datatype WindowError =
    | BadHorizon | BadBounds | BadPhase | BadFrame
    | ResetRefused | EnvironmentFailed | RewardNotFinite | ObservationRejected

  datatype Window = Window(indices: seq<nat>, rows: seq<Row>)

  /** min(i, frames - 1): the last frame stands in for every later one. */
  function Held(i: nat, frames: nat): (k: nat)
    requires frames > 0
    ensures k < frames && k <= i
    ensures k == i || k == frames - 1
  {
    if i < frames then i else frames - 1
  }

  /** The window starting at `start`, the last frame repeated when the frames run out. */
  function HoldIndices(start: nat, horizon: nat, frames: nat): (indices: seq<nat>)
    requires start < frames
    ensures |indices| == horizon
    ensures forall j :: 0 <= j < horizon ==> indices[j] == Held(start + j, frames)
  {
    seq<nat>(horizon, (j: nat) => Held(start + j, frames))
  }

  function RowsAt(values: seq<Row>, indices: seq<nat>): (rows: seq<Row>)
    requires forall j :: 0 <= j < |indices| ==> indices[j] < |values|
    ensures |rows| == |indices|
  {
    seq(|indices|, j requires 0 <= j < |indices| => values[indices[j]])
  }

  // ----- The three windows ---------------------------------------------------------

  /** `ReferenceArtifact.window`. */
  function ArtifactWindow(values: seq<Row>, start: int, horizon: int,
                          endExclusive: Option<int>): Result<Window, WindowError> {
    if !(1 <= horizon <= MAX_HORIZON_STEPS) then Err(BadHorizon)
    else
      var stop := if endExclusive.Some? then endExclusive.value else |values|;
      if !(0 <= start < stop <= |values|) then Err(BadBounds)
      else
        var indices := HoldIndices(start, horizon, stop);
        Ok(Window(indices, RowsAt(values, indices)))
  }

  /** `BoundedPhaseMatcher.window`, over the matcher's own copy of the reference. */
  function MatcherWindow(m: PhaseMatchers.Matcher, values: seq<Row>, phase: int): Result<seq<Row>, WindowError>
    requires m.Valid() && |values| == m.frames
  {
    if !(0 <= phase <= m.LastStart()) then Err(BadPhase)
    else
      var indices := seq<nat>(m.config.horizonSteps, (j: nat) => Held(phase + j, |values|));
      assert forall j :: 0 <= j < |indices| ==> indices[j] == Held(phase + j, |values|);
      Ok(RowsAt(values, indices))
  }

  /** A full-sequence intervention; the map names the source frame of each row, if any. */
  datatype PreparedTransform = PreparedTransform(rows: seq<Row>, indexMap: seq<Option<int>>)

  datatype PreparedWindow = PreparedWindow(rows: seq<Row>, timeline: seq<nat>, sources: seq<Option<int>>)

  /** `prepared_reference_window`. */
  function TransformWindow(t: PreparedTransform, frame: int): Result<PreparedWindow, WindowError>
    requires |t.indexMap| == |t.rows|
  {
    if !(0 <= frame < |t.rows|) then Err(BadFrame)
    else
      var timeline := seq<nat>(TRANSFORM_HORIZON_STEPS, (j: nat) => Held(frame + j, |t.rows|));
      assert forall j :: 0 <= j < TRANSFORM_HORIZON_STEPS ==> timeline[j] == Held(frame + j, |t.rows|);
      Ok(PreparedWindow(
        RowsAt(t.rows, timeline), timeline,
        seq(TRANSFORM_HORIZON_STEPS, j requires 0 <= j < TRANSFORM_HORIZON_STEPS => t.indexMap[timeline[j]])))
  }

  /** Row j of a window is the row of frame start + j, or the last one before the stop; when the
   *  window is refused, and why. */
  lemma ArtifactRows(values: seq<Row>, start: int, horizon: int, endExclusive: Option<int>)
    ensures var r := ArtifactWindow(values, start, horizon, endExclusive);
      var stop := match endExclusive case Some(end) => end case None => |values|;
      && (r == Err(BadHorizon) <==> horizon < 1 || horizon > 256)
      && (r == Err(BadBounds) <==> 1 <= horizon <= 256 && (start < 0 || start >= stop || stop > |values|))
      && (r.Err? ==> r.error.BadHorizon? || r.error.BadBounds?)
      && (r.Ok? ==>
            && |r.value.rows| == |r.value.indices| == horizon
            && forall j :: 0 <= j < horizon ==>
                 && r.value.indices[j] == (if start + j < stop then start + j else stop - 1)
                 && r.value.rows[j] == values[if start + j < stop then start + j else stop - 1])
  {
  }

  lemma MatcherRows(m: PhaseMatchers.Matcher, values: seq<Row>, phase: int)
    requires m.Valid() && |values| == m.frames
    ensures var r, n := MatcherWindow(m, values, phase), |values|;
      && (r == Err(BadPhase) <==> phase < 0 || phase > if m.config.horizonSteps == 1 then n - 1 else n - 2)
      && (r.Err? ==> r.error.BadPhase?)
      && (r.Ok? ==>
            && |r.value| == m.config.horizonSteps
            && forall j :: 0 <= j < |r.value| ==> r.value[j] == values[if phase + j < n then phase + j else n - 1])
  {
    if MatcherWindow(m, values, phase).Ok? {
      var indices := HoldIndices(phase, m.config.horizonSteps, |values|);
      assert MatcherWindow(m, values, phase).value == RowsAt(values, indices);
    }
  }

  lemma TransformRows(t: PreparedTransform, frame: int)
    requires |t.indexMap| == |t.rows|
    ensures var r, n := TransformWindow(t, frame), |t.rows|;
      && (r == Err(BadFrame) <==> frame < 0 || frame >= n)
      && (r.Err? ==> r.error.BadFrame?)
      && (r.Ok? ==>
            && |r.value.rows| == |r.value.timeline| == |r.value.sources| == 8
            && forall j :: 0 <= j < 8 ==>
                 && r.value.timeline[j] == (if frame + j < n then frame + j else n - 1)
                 && r.value.rows[j] == t.rows[r.value.timeline[j]]
                 && r.value.sources[j] == t.indexMap[r.value.timeline[j]])
  {
    if TransformWindow(t, frame).Ok? {
      assert TransformWindow(t, frame).value.timeline == HoldIndices(frame, 8, |t.rows|);
    }
  }

  /** Wherever two of the windows are both defined for the same rows, start and horizon they
   *  show the same rows, and every valid start of the matcher is one of the artifact. */
  lemma WindowsAgree(values: seq<Row>, m: PhaseMatchers.Matcher, t: PreparedTransform, start: int)
    requires m.Valid() && |values| == m.frames && m.config.horizonSteps <= MAX_HORIZON_STEPS
    requires t.rows == values && |t.indexMap| == |values|
    ensures MatcherWindow(m, values, start).Ok? ==>
      && ArtifactWindow(values, start, m.config.horizonSteps, None).Ok?
      && MatcherWindow(m, values, start).value == ArtifactWindow(values, start, m.config.horizonSteps, None).value.rows
    ensures TransformWindow(t, start).Ok? <==> ArtifactWindow(values, start, TRANSFORM_HORIZON_STEPS, None).Ok?
    ensures TransformWindow(t, start).Ok? ==>
      var w, p := ArtifactWindow(values, start, TRANSFORM_HORIZON_STEPS, None).value, TransformWindow(t, start).value;
      && p.rows == w.rows && p.timeline == w.indices
      && forall j :: 0 <= j < |p.timeline| ==> p.sources[j] == t.indexMap[w.indices[j]]
  {
  }

  /** Consecutive windows overlap: row j of the next window is row j + 1 of this one, also when
   *  the last frame is held. */
  lemma NextWindowShifts(frame: nat, horizon: nat, frames: nat, j: nat)
    requires frame < frames && j + 1 < horizon
    ensures HoldIndices(Held(frame + 1, frames), horizon, frames)[j] == HoldIndices(frame, horizon, frames)[j + 1]
  {
  }

  // ----- The tracker -----------------------------------------------------------------

  /** What the wrapped environment does with an action. */
  datatype EnvStep = Raised | Returned(rewardFinite: bool, observationUsable: bool)

  /** How a reset ends: the reference or the actuator check refuses it before the frame is
   *  set, the environment raises, or it hands back an observation. */
  datatype EnvReset = Refused | ResetRaised | Started(observationUsable: bool)

  datatype StepResult = StepResult(policyIndices: seq<nat>, rewardTarget: nat, rewardRow: Row, shown: seq<Row>)

  class FixedReferenceTracker {
    const values: seq<Row>
    const horizon: nat
    var frameIndex: nat
    /** Actions that reached the frame update since the last reset. */
    ghost var steps: nat
    /** The frames of the last observation returned, None after a failed call. */
    ghost var shownIndices: Option<seq<nat>>

    ghost predicate Valid()
      reads this
    {
      && 2 <= horizon <= MAX_HORIZON_STEPS && values != []
      && frameIndex == Held(steps, |values|)
      && (shownIndices.Some? ==> shownIndices.value == HoldIndices(frameIndex, horizon, |values|))
    }

    constructor (values: seq<Row>, horizon: nat)
      requires values != [] && 2 <= horizon <= MAX_HORIZON_STEPS
      ensures Valid() && this.values == values && this.horizon == horizon && steps == 0 && shownIndices.None?
    {
      this.values, this.horizon := values, horizon;
      frameIndex, steps, shownIndices := 0, 0, None;
    }

    method CurrentWindow() returns (window: Window)
      requires Valid()
      ensures window.indices == HoldIndices(frameIndex, horizon, |values|)
      ensures window.rows == RowsAt(values, HoldIndices(frameIndex, horizon, |values|))
    {
      var result := ArtifactWindow(values, Held(frameIndex, |values|), horizon, None);
      window := result.value;
    }

    method Reset(env: EnvReset) returns (result: Result<Window, WindowError>)
      requires Valid()
      modifies this
      ensures Valid()
      ensures env.Refused? ==> steps == old(steps) && frameIndex == old(frameIndex)
      ensures !env.Refused? ==> steps == 0 && frameIndex == 0
      ensures result.Ok? <==> env == Started(true)
      ensures result.Ok? ==>
        shownIndices == Some(result.value.indices) && result.value.indices == HoldIndices(0, horizon, |values|)
      ensures result.Ok? ==>
        && |result.value.rows| == horizon
        && forall j :: 0 <= j < horizon ==> result.value.rows[j] == values[if j < |values| then j else |values| - 1]
      ensures result.Err? ==>
        && shownIndices.None?
        && result.error == match env
                           case Refused => ResetRefused
                           case ResetRaised => EnvironmentFailed
                           case Started(_) => ObservationRejected
    {
      shownIndices := None;
      if env.Refused? {
        return Err(ResetRefused);
      }
      frameIndex, steps := 0, 0;
      if env.ResetRaised? {
        return Err(EnvironmentFailed);
      }
      var window := CurrentWindow();
      if !env.observationUsable {
        return Err(ObservationRejected);
      }
      shownIndices := Some(window.indices);
      return Ok(window);
    }

    /** The post-step state is graded against row 1 of the window shown before the action. */
    method Step(env: EnvStep) returns (result: Result<StepResult, WindowError>)
      requires Valid()
      modifies this
      ensures Valid()
      ensures steps == old(steps) + if env.Returned? && env.rewardFinite then 1 else 0
      ensures result.Ok? <==> env == Returned(true, true)
      ensures result.Ok? ==>
        && result.value.policyIndices == HoldIndices(old(frameIndex), horizon, |values|)
        && result.value.rewardTarget == result.value.policyIndices[1] == frameIndex
        && result.value.rewardRow == values[result.value.rewardTarget]
        && (old(shownIndices).Some? ==>
              && result.value.rewardTarget == old(shownIndices).value[1]
              && old(shownIndices).value == result.value.policyIndices)
        && shownIndices.Some? && result.value.shown == RowsAt(values, shownIndices.value)
      ensures result.Ok? ==>
        && |result.value.shown| == horizon
        && forall j :: 0 <= j < horizon ==>
             result.value.shown[j] == values[if frameIndex + j < |values| then frameIndex + j else |values| - 1]
      ensures result.Err? ==>
        && shownIndices.None?
        && result.error == if env.Raised? then EnvironmentFailed
                           else if !env.rewardFinite then RewardNotFinite else ObservationRejected
    {
      var policy := CurrentWindow();
      NextWindowShifts(frameIndex, horizon, |values|, 0);
      if env.Raised? {
        shownIndices := None;
        return Err(EnvironmentFailed);
      }
      if !env.rewardFinite {
        shownIndices := None;
        return Err(RewardNotFinite);
      }
      frameIndex := Held(frameIndex + 1, |values|);
      steps := steps + 1;
      shownIndices := None;
      var next := CurrentWindow();
      if !env.observationUsable {
        return Err(ObservationRejected);
      }
      shownIndices := Some(next.indices);
      return Ok(StepResult(policy.indices, next.indices[0], next.rows[0], next.rows));
    }
  }

  /** The frames a run of k actions visits, computed one update at a time. */
  function FrameAfter(k: nat, frames: nat): (frame: nat)
    requires frames > 0
    ensures frame < frames
  {
    if k == 0 then 0 else Held(FrameAfter(k - 1, frames) + 1, frames)
  }

  /** After k actions the frame is min(k, n - 1); the reward target of action k is row 1 of the
   *  window shown before it, and all later targets in the tail are the last frame. */
  lemma {:induction false} TargetsWereVisible(k: nat, horizon: nat, frames: nat)
    requires frames > 0 && horizon >= 2
    ensures FrameAfter(k, frames) == Held(k, frames)
    ensures HoldIndices(FrameAfter(k, frames), horizon, frames)[1] == FrameAfter(k + 1, frames)
    ensures k + 1 >= frames ==>
      forall j :: 0 <= j < horizon ==> HoldIndices(FrameAfter(k, frames), horizon, frames)[j] == frames - 1
  {
    if k > 0 {
      TargetsWereVisible(k - 1, horizon, frames);
    }
  }
}
