/** The recovery gate: a two-mode hysteresis machine with counters, proved against a machine
 *  that has no counters and looks at the observation history instead. */
module RecoveryGates {
  import opened Wrappers

  datatype Mode = Track | Recover

  datatype Reason = HeightReason | UprightReason | PoseReason

  datatype Observation = Observation(height: real, upZ: real, poseError: real)
  {
    predicate Acceptable() {
      -1.0 <= upZ <= 1.0 && poseError >= 0.0
    }
  }

  datatype Config = Config(
    entryHeightMin: real, entryHeightMax: real, entryUpZMin: real, entryPoseErrorMax: real,
    exitHeightMin: real, exitHeightMax: real, exitUpZMin: real, exitPoseErrorMax: real,
    entryDwell: int, exitStable: int)
  {
    /** What the constructor enforces. */
    predicate Valid() {
      && entryDwell >= 1 && exitStable >= 1
      && entryHeightMin < entryHeightMax && exitHeightMin < exitHeightMax
      && entryHeightMin >= 0.0 && exitHeightMin >= 0.0
      && entryPoseErrorMax >= 0.0 && exitPoseErrorMax >= 0.0
      && -1.0 <= entryUpZMin <= 1.0 && -1.0 <= exitUpZMin <= 1.0
      && Hysteresis()
    }

    predicate Hysteresis() {
      && entryHeightMin < exitHeightMin && exitHeightMax < entryHeightMax
      && entryUpZMin < exitUpZMin && exitPoseErrorMax < entryPoseErrorMax
    }

    predicate HeightOutside(o: Observation) {
      o.height < entryHeightMin || o.height > entryHeightMax
    }

    predicate TooTilted(o: Observation) {
      o.upZ < entryUpZMin
    }

    /** Height or posture outside the entry envelope: recovery starts at once. */
    predicate Hard(o: Observation) {
      HeightOutside(o) || TooTilted(o)
    }

    predicate Bad(o: Observation) {
      o.poseError > entryPoseErrorMax
    }

    predicate Stable(o: Observation) {
      && exitHeightMin <= o.height <= exitHeightMax
      && o.upZ >= exitUpZMin
      && o.poseError <= exitPoseErrorMax
    }
  }

  /** The thresholds that are accepted: recovery ends strictly inside what starts it. */
  lemma ValidThresholds(c: Config)
    ensures c.Valid() <==>
      && 0.0 <= c.entryHeightMin < c.exitHeightMin < c.exitHeightMax < c.entryHeightMax
      && -1.0 <= c.entryUpZMin < c.exitUpZMin <= 1.0
      && 0.0 <= c.exitPoseErrorMax < c.entryPoseErrorMax
      && c.entryDwell > 0 && c.exitStable > 0
  {
  }

  datatype Decision = Decision(
    mode: Mode, residualWeight: real, selectedPhase: int, selectedPoseError: real,
    stableSteps: int, poseErrorBadSteps: int, entered: bool, exited: bool, reasons: seq<Reason>)

  // ----- The machine over histories ------------------------------------------------

  datatype Condition = StableSteps | BadSteps

  ghost predicate Holds(c: Config, condition: Condition, o: Observation) {
    match condition
    case StableSteps => c.Stable(o)
    case BadSteps => c.Bad(o)
  }

  /** The last n observations, all taken at or after index `since`, satisfy the condition. */
  ghost predicate AllLast(c: Config, condition: Condition, h: seq<Observation>, since: nat, n: int) {
    n >= 0 && since + n <= |h| && forall j :: |h| - n <= j < |h| ==> Holds(c, condition, h[j])
  }

  /** n is the length of the longest satisfying stretch that ends now and began after `since`. */
  ghost predicate IsTrailingRun(c: Config, condition: Condition, h: seq<Observation>, since: nat, n: int) {
    AllLast(c, condition, h, since, n) && !AllLast(c, condition, h, since, n + 1)
  }

  /** The current mode and the index of the first observation it applies to. */
  datatype Regime = Regime(mode: Mode, since: nat)

  ghost function RegimeAfter(c: Config, h: seq<Observation>): (r: Regime)
    ensures r.since <= |h|
  {
    if h == [] then Regime(Track, 0)
    else
      var r := RegimeAfter(c, h[..|h| - 1]);
      if r.mode.Track? && Enters(c, h, r.since) then Regime(Recover, |h|)
      else if r.mode.Recover? && Exits(c, h, r.since) then Regime(Track, |h|)
      else r
  }

  /** Recovery starts on a hard reason, or when bad pose errors filled the dwell since tracking began. */
  ghost predicate Enters(c: Config, h: seq<Observation>, since: nat)
    requires h != []
  {
    c.Hard(h[|h| - 1]) || AllLast(c, BadSteps, h, since, c.entryDwell)
  }

  /** Recovery ends when the last `exitStable` observations since its start were all stable. */
  ghost predicate Exits(c: Config, h: seq<Observation>, since: nat) {
    AllLast(c, StableSteps, h, since, c.exitStable)
  }

  // ----- Runs ----------------------------------------------------------------------

  lemma RunExtends(c: Config, condition: Condition, h: seq<Observation>, since: nat, n: int, o: Observation)
    requires since <= |h| && IsTrailingRun(c, condition, h, since, n)
    ensures IsTrailingRun(c, condition, h + [o], since, if Holds(c, condition, o) then n + 1 else 0)
  {
    var h' := h + [o];
    var n' := if Holds(c, condition, o) then n + 1 else 0;
    assert forall j :: 0 <= j < |h| ==> h'[j] == h[j];
    assert h'[|h|] == o;
    if AllLast(c, condition, h', since, n' + 1) {
      if Holds(c, condition, o) {
        forall j | |h| - (n + 1) <= j < |h|
          ensures Holds(c, condition, h[j])
        {
          assert h'[j] == h[j];
        }
      }
    }
  }

  lemma AllLastShrinks(c: Config, condition: Condition, h: seq<Observation>, since: nat, n: int, m: int)
    requires 0 <= m <= n && AllLast(c, condition, h, since, n)
    ensures AllLast(c, condition, h, since, m)
  {
  }

  lemma AllLastIncludes(c: Config, condition: Condition, h: seq<Observation>, since: nat, n: int, j: nat)
    requires AllLast(c, condition, h, since, n) && |h| - n <= j < |h|
    ensures Holds(c, condition, h[j])
  {
  }

  lemma RunDecides(c: Config, condition: Condition, h: seq<Observation>, since: nat, n: int, m: int)
    requires since <= |h| && m >= 0 && IsTrailingRun(c, condition, h, since, n)
    ensures n >= m <==> AllLast(c, condition, h, since, m)
  {
    if n >= m {
      AllLastShrinks(c, condition, h, since, n, m);
    } else if AllLast(c, condition, h, since, m) {
      AllLastShrinks(c, condition, h, since, m, n + 1);
    }
  }

  /** Strict hysteresis: an observation that starts recovery is never a stable one. */
  lemma EntryIsUnstable(c: Config, h: seq<Observation>, since: nat)
    requires c.Valid() && h != [] && Enters(c, h, since)
    ensures !c.Stable(h[|h| - 1])
  {
    if !c.Hard(h[|h| - 1]) {
      assert Holds(c, BadSteps, h[|h| - 1]);
    }
  }

  // ----- The gate ---------------------------------------------------------------------

  function Reasons(height: bool, upright: bool, pose: bool): (reasons: seq<Reason>)
    ensures HeightReason in reasons <==> height
    ensures UprightReason in reasons <==> upright
    ensures PoseReason in reasons <==> pose
    ensures reasons != [] <==> height || upright || pose
  {
    (if height then [HeightReason] else [])
    + (if upright then [UprightReason] else [])
    + (if pose then [PoseReason] else [])
  }

  /** The counters are trailing run lengths of the history since the current mode began. */
  ghost predicate Represents(c: Config, h: seq<Observation>, mode: Mode, stableSteps: int, badSteps: int) {
    var r := RegimeAfter(c, h);
    && mode == r.mode
    && (mode.Track? ==> stableSteps == 0 && IsTrailingRun(c, BadSteps, h, r.since, badSteps))
    && (mode.Recover? ==> IsTrailingRun(c, StableSteps, h, r.since, stableSteps))
  }

  /** The decision the history `h`, then the observation `o`, calls for. */
  ghost predicate DecisionFollows(c: Config, h: seq<Observation>, o: Observation, d: Decision) {
    var r, h' := RegimeAfter(c, h), h + [o];
    && d.mode == RegimeAfter(c, h').mode
    && d.residualWeight == (if d.mode.Recover? then 0.0 else 1.0)
    && d.selectedPoseError == o.poseError
    && (d.entered <==> r.mode.Track? && Enters(c, h', r.since))
    && (d.exited <==> r.mode.Recover? && Exits(c, h', r.since))
    && (if r.mode.Track? then IsTrailingRun(c, BadSteps, h', r.since, d.poseErrorBadSteps)
        else d.poseErrorBadSteps == 0)
    && d.reasons == (if d.entered
                     then Reasons(c.HeightOutside(o), c.TooTilted(o), AllLast(c, BadSteps, h', r.since, c.entryDwell))
                     else [])
  }

  lemma Started(c: Config)
    ensures Represents(c, [], Track, 0, 0)
  {
  }

  lemma RegimeExtends(c: Config, h: seq<Observation>, o: Observation)
    ensures var r := RegimeAfter(c, h);
      RegimeAfter(c, h + [o]) ==
        if r.mode.Track? && Enters(c, h + [o], r.since) then Regime(Recover, |h| + 1)
        else if r.mode.Recover? && Exits(c, h + [o], r.since) then Regime(Track, |h| + 1)
        else r
  {
    assert (h + [o])[..|h|] == h;
  }

  lemma RunStarts(c: Config, condition: Condition, h: seq<Observation>)
    ensures IsTrailingRun(c, condition, h, |h|, 0)
  {
  }

  /** A tracking step: the dwell counter decides entry exactly as the history does. */
  lemma {:induction false} TrackingStep(c: Config, h: seq<Observation>, badSteps: int, o: Observation)
    requires c.Valid() && Represents(c, h, Track, 0, badSteps)
    ensures var r, h', bad := RegimeAfter(c, h), h + [o], if c.Bad(o) then badSteps + 1 else 0;
            && IsTrailingRun(c, BadSteps, h', r.since, bad)
            && (bad >= c.entryDwell <==> AllLast(c, BadSteps, h', r.since, c.entryDwell))
            && (if Enters(c, h', r.since)
                then !c.Stable(o) && c.exitStable > 0 && Represents(c, h', Recover, 0, bad)
                else Represents(c, h', Track, 0, bad))
  {
    var r, h', bad := RegimeAfter(c, h), h + [o], if c.Bad(o) then badSteps + 1 else 0;
    RegimeExtends(c, h, o);
    RunExtends(c, BadSteps, h, r.since, badSteps, o);
    RunDecides(c, BadSteps, h', r.since, bad, c.entryDwell);
    if Enters(c, h', r.since) {
      EntryIsUnstable(c, h', r.since);
      RunStarts(c, StableSteps, h');
    }
  }

  /** A recovering step: the stability counter decides exit exactly as the history does. */
  lemma {:induction false} RecoveringStep(
    c: Config, h: seq<Observation>, stableSteps: int, badSteps: int, o: Observation)
    requires c.Valid() && Represents(c, h, Recover, stableSteps, badSteps)
    ensures var r, h', stable := RegimeAfter(c, h), h + [o], if c.Stable(o) then stableSteps + 1 else 0;
            && (stable >= c.exitStable <==> Exits(c, h', r.since))
            && (if stable >= c.exitStable then Represents(c, h', Track, 0, 0)
              else Represents(c, h', Recover, stable, 0))
  {
    var r, h', stable := RegimeAfter(c, h), h + [o], if c.Stable(o) then stableSteps + 1 else 0;
    RegimeExtends(c, h, o);
    RunExtends(c, StableSteps, h, r.since, stableSteps, o);
    RunDecides(c, StableSteps, h', r.since, stable, c.exitStable);
    RunStarts(c, BadSteps, h');
  }

  /** The decision the counters call for. */
  ghost function Next(c: Config, mode: Mode, stableSteps: int, badSteps: int, o: Observation, phase: int): Decision {
    if mode.Track? then
      var bad := if c.Bad(o) then badSteps + 1 else 0;
      var reasons := Reasons(c.HeightOutside(o), c.TooTilted(o), bad >= c.entryDwell);
      if reasons != [] then Decision(Recover, 0.0, phase, o.poseError, 0, bad, true, false, reasons)
      else Decision(Track, 1.0, phase, o.poseError, 0, bad, false, false, [])
    else
      var stable := if c.Stable(o) then stableSteps + 1 else 0;
      if stable >= c.exitStable then Decision(Track, 1.0, phase, o.poseError, 0, 0, false, true, [])
      else Decision(Recover, 0.0, phase, o.poseError, stable, 0, false, false, [])
  }

  lemma NextFollows(c: Config, h: seq<Observation>, mode: Mode, stableSteps: int, badSteps: int, o: Observation,
                    phase: int)
    requires c.Valid() && Represents(c, h, mode, stableSteps, badSteps)
    ensures var d := Next(c, mode, stableSteps, badSteps, o, phase);
            DecisionFollows(c, h, o, d) && Represents(c, h + [o], d.mode, d.stableSteps, d.poseErrorBadSteps)
    ensures mode.Track? && Next(c, mode, stableSteps, badSteps, o, phase).entered ==> !c.Stable(o)
  {
    if mode.Track? {
      TrackingStep(c, h, badSteps, o);
    } else {
      RecoveringStep(c, h, stableSteps, badSteps, o);
    }
  }

  class RecoveryGate {
    const config: Config
    var mode: Mode
    var stableSteps: int
    var poseErrorBadSteps: int
    ghost var history: seq<Observation>

    ghost predicate Valid()
      reads this
    {
      config.Valid() && Represents(config, history, mode, stableSteps, poseErrorBadSteps)
    }

    constructor (config: Config)
      requires config.Valid()
      ensures Valid() && this.config == config && history == []
    {
      this.config := config;
      mode, stableSteps, poseErrorBadSteps := Track, 0, 0;
      history := [];
      new;
      Started(config);
    }

    method Reset()
      requires Valid()
      modifies this
      ensures Valid() && history == []
    {
      mode, stableSteps, poseErrorBadSteps := Track, 0, 0;
      history := [];
      Started(config);
    }

    /** One gate step: the decision is the one the history dictates. */
    method Step(o: Observation, selectedPhase: int) returns (result: Result<Decision, string>)
      requires Valid()
      modifies this
      ensures Valid()
      ensures result.Err? <==> o.upZ < -1.0 || o.upZ > 1.0 || o.poseError < 0.0
      ensures !o.Acceptable() ==> result.Err? && unchanged(this)
      ensures o.Acceptable() ==> result.Ok? && history == old(history) + [o]
      ensures result.Ok? ==>
        && DecisionFollows(config, old(history), o, result.value)
        && result.value.selectedPhase == selectedPhase
        && (mode, stableSteps, poseErrorBadSteps)
           == (result.value.mode, result.value.stableSteps, result.value.poseErrorBadSteps)
    {
      if !o.Acceptable() {
        return Err("torso_up_z must be in [-1, 1] and the pose error at least 0");
      }
      ghost var next := Next(config, mode, stableSteps, poseErrorBadSteps, o, selectedPhase);
      NextFollows(config, history, mode, stableSteps, poseErrorBadSteps, o, selectedPhase);
      var reasons := [];
      if mode.Track? {
        poseErrorBadSteps := if config.Bad(o) then poseErrorBadSteps + 1 else 0;
        reasons := Reasons(config.HeightOutside(o), config.TooTilted(o), poseErrorBadSteps >= config.entryDwell);
      } else {
        poseErrorBadSteps := 0;
      }
      var entered := mode.Track? && reasons != [];
      var exited := false;
      if entered {
        mode := Recover;
        stableSteps := 0;
      }
      if mode.Recover? {
        stableSteps := if config.Stable(o) then stableSteps + 1 else 0;
        if stableSteps >= config.exitStable {
          mode := Track;
          stableSteps := 0;
          exited := true;
        }
      }
      history := history + [o];
      var decision := Decision(mode, if mode.Recover? then 0.0 else 1.0, selectedPhase, o.poseError,
                               stableSteps, poseErrorBadSteps, entered, exited, if entered then reasons else []);
      assert decision == next;
      return Ok(decision);
    }
  }

  // ----- The decision read off the thresholds -------------------------------------------

  function Rank(reason: Reason): nat {
    match reason
    case HeightReason => 0
    case UprightReason => 1
    case PoseReason => 2
  }

  /** The last n pose errors since `since` were all above the entry threshold. */
  ghost predicate PoseErrorsStayedHigh(c: Config, h: seq<Observation>, since: nat, n: int) {
    since + n <= |h| && forall j :: 0 <= j < |h| && |h| - n <= j ==> h[j].poseError > c.entryPoseErrorMax
  }

  /** The last n observations since `since` were all within the exit thresholds. */
  ghost predicate StayedInside(c: Config, h: seq<Observation>, since: nat, n: int) {
    && since + n <= |h|
    && forall j :: 0 <= j < |h| && |h| - n <= j ==>
         && h[j].height >= c.exitHeightMin && h[j].height <= c.exitHeightMax
         && h[j].upZ >= c.exitUpZMin && h[j].poseError <= c.exitPoseErrorMax
  }

  /** What a decision says, in terms of the thresholds: recovery starts if the height or the
   *  posture left its bounds or the pose error stayed high, for exactly those reasons and in that
   *  order; it ends if everything stayed inside; and only recovery takes the weight away. */
  lemma DecisionReadsThresholds(c: Config, h: seq<Observation>, o: Observation, d: Decision)
    requires c.Valid() && DecisionFollows(c, h, o, d)
    ensures var r, h' := RegimeAfter(c, h), h + [o];
      && (HeightReason in d.reasons <==> r.mode.Track? && (o.height < c.entryHeightMin || o.height > c.entryHeightMax))
      && (UprightReason in d.reasons <==> r.mode.Track? && o.upZ < c.entryUpZMin)
      && (PoseReason in d.reasons <==> r.mode.Track? && PoseErrorsStayedHigh(c, h', r.since, c.entryDwell))
      && (forall i, j :: 0 <= i < j < |d.reasons| ==> Rank(d.reasons[i]) < Rank(d.reasons[j]))
      && (d.entered <==> d.reasons != [])
      && (d.exited <==> r.mode.Recover? && StayedInside(c, h', r.since, c.exitStable))
      && (d.mode.Recover? <==> d.entered || (r.mode.Recover? && !d.exited))
      && d.residualWeight == (if d.mode.Recover? then 0.0 else 1.0)
  {
    var r, h' := RegimeAfter(c, h), h + [o];
    RegimeExtends(c, h, o);
    assert h'[|h'| - 1] == o;
    assert PoseErrorsStayedHigh(c, h', r.since, c.entryDwell) <==> AllLast(c, BadSteps, h', r.since, c.entryDwell) by {
      if AllLast(c, BadSteps, h', r.since, c.entryDwell) {
        forall j | 0 <= j < |h'| && |h'| - c.entryDwell <= j
          ensures h'[j].poseError > c.entryPoseErrorMax
        {
          AllLastIncludes(c, BadSteps, h', r.since, c.entryDwell, j);
        }
      }
    }
    assert StayedInside(c, h', r.since, c.exitStable) <==> AllLast(c, StableSteps, h', r.since, c.exitStable) by {
      if AllLast(c, StableSteps, h', r.since, c.exitStable) {
        forall j | 0 <= j < |h'| && |h'| - c.exitStable <= j
          ensures c.Stable(h'[j])
        {
          AllLastIncludes(c, StableSteps, h', r.since, c.exitStable, j);
        }
      }
    }
  }

  // ----- What every run guarantees ------------------------------------------------------

  /** Tracking that resumed did so on a stable observation. */
  lemma {:induction false} ResumedOnStable(c: Config, h: seq<Observation>)
    requires c.Valid()
    ensures var r := RegimeAfter(c, h); r.mode.Track? && r.since > 0 ==> c.Stable(h[r.since - 1])
  {
    if h != [] {
      ResumedOnStable(c, h[..|h| - 1]);
      var r := RegimeAfter(c, h[..|h| - 1]);
      if r.mode.Recover? && Exits(c, h, r.since) {
        assert Holds(c, StableSteps, h[|h| - 1]);
      }
    }
  }

  /** Whenever the residual has full weight, the observation lies in the entry envelope and
   *  fewer than `entryDwell` consecutive bad pose errors precede it in the whole history. */
  lemma {:induction false} FullWeightIsSafe(c: Config, h: seq<Observation>)
    requires c.Valid() && h != [] && RegimeAfter(c, h).mode.Track?
    ensures !c.Hard(h[|h| - 1])
    ensures !AllLast(c, BadSteps, h, 0, c.entryDwell)
    ensures c.entryHeightMin <= h[|h| - 1].height <= c.entryHeightMax && h[|h| - 1].upZ >= c.entryUpZMin
    ensures c.entryDwell <= |h| ==>
      exists j :: |h| - c.entryDwell <= j < |h| && h[j].poseError <= c.entryPoseErrorMax
  {
    var since, last := RegimeAfter(c, h).since, |h| - 1;
    ResumedOnStable(c, h);
    if RegimeAfter(c, h[..last]).mode.Recover? {
      AllLastIncludes(c, StableSteps, h, RegimeAfter(c, h[..last]).since, c.exitStable, last);
    }
    if since > 0 && since + c.entryDwell > |h| && AllLast(c, BadSteps, h, 0, c.entryDwell) {
      AllLastIncludes(c, BadSteps, h, 0, c.entryDwell, since - 1);
    }
  }

  /** A recovery entry and a recovery exit never happen on the same step. */
  lemma NoEntryAndExit(c: Config, h: seq<Observation>, entrySince: nat, exitSince: nat)
    requires c.Valid() && h != []
    ensures !(Enters(c, h, entrySince) && Exits(c, h, exitSince))
  {
    var last := |h| - 1;
    if Exits(c, h, exitSince) {
      AllLastIncludes(c, StableSteps, h, exitSince, c.exitStable, last);
      if Enters(c, h, entrySince) {
        EntryIsUnstable(c, h, entrySince);
      }
    }
  }

  ghost function Entries(c: Config, h: seq<Observation>): nat {
    if h == [] then 0
    else
      var r := RegimeAfter(c, h[..|h| - 1]);
      Entries(c, h[..|h| - 1]) + if r.mode.Track? && Enters(c, h, r.since) then 1 else 0
  }

  /** The steps E entries cost at least: `exitStable` stable ones and one more between entries. */
  ghost function EntryCost(entries: nat, exitStable: int): int {
    if entries <= 1 then entries else EntryCost(entries - 1, exitStable) + exitStable + 1
  }

  lemma {:induction false} EntryCostIsProduct(entries: nat, exitStable: int)
    requires entries > 0
    ensures EntryCost(entries, exitStable) == (entries - 1) * (exitStable + 1) + 1
  {
    if entries > 1 {
      EntryCostIsProduct(entries - 1, exitStable);
      assert (entries - 1) * (exitStable + 1) == (entries - 2) * (exitStable + 1) + (exitStable + 1);
    }
  }

  lemma {:induction false} EntriesCostSteps(c: Config, h: seq<Observation>)
    requires c.Valid()
    ensures Entries(c, h) == 0 ==> RegimeAfter(c, h) == Regime(Track, 0)
    ensures Entries(c, h) > 0 && RegimeAfter(c, h).mode.Recover? ==>
      RegimeAfter(c, h).since >= EntryCost(Entries(c, h), c.exitStable)
    ensures Entries(c, h) > 0 && RegimeAfter(c, h).mode.Track? ==>
      |h| >= EntryCost(Entries(c, h), c.exitStable) + c.exitStable
    ensures |h| >= EntryCost(Entries(c, h), c.exitStable)
  {
    if h != [] {
      EntriesCostSteps(c, h[..|h| - 1]);
      var r := RegimeAfter(c, h[..|h| - 1]);
      if r.mode.Track? && Enters(c, h, r.since) {
        assert Entries(c, h) == Entries(c, h[..|h| - 1]) + 1;
      } else if r.mode.Recover? && Exits(c, h, r.since) {
        assert r.since + c.exitStable <= |h|;
      }
    }
  }

  /** Chatter bound: E entries need at least (E - 1) * (exitStable + 1) + 1 steps. */
  lemma {:induction false} ChatterBound(c: Config, h: seq<Observation>)
    requires c.Valid()
    ensures |h| >= (Entries(c, h) - 1) * (c.exitStable + 1) + 1
  {
    EntriesCostSteps(c, h);
    if Entries(c, h) > 0 {
      EntryCostIsProduct(Entries(c, h), c.exitStable);
    }
  }
}
